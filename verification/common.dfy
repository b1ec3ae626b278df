/** Building blocks shared by every module of the model: nullable values,
    results that carry a .NET exception, bytes, 32-bit integers, the
    whitespace test of string.IsNullOrWhiteSpace, and the mutable List<T>
    of the base class library. */
module Common {

  /** A value that may be null. */
  datatype Option<+T> = None | Some(value: T)

  /** Either a value or the exception the source code throws instead. */
  datatype Result<+T, +E> = Success(value: T) | Failure(error: E)

  /** The exceptions that the modelled code throws or lets escape. */
  datatype Exception =
    | ArgumentException(message: string, paramName: string)
    | ArgumentNullException(paramName: string)
    | NullReferenceException
      // Single / SingleOrDefault on a sequence with the wrong number of matches
    | InvalidOperationException
      // int.Parse or Guid.Parse on malformed text
    | FormatException
      // int.Parse on a number outside the 32-bit range
    | OverflowException
      // SaveChanges rejected by a key or a unique index
    | DbUpdateException

  type byte = b: int | 0 <= b < 256

  const Int32Min: int := -0x8000_0000
  const Int32Max: int := 0x7FFF_FFFF

  /** The C# `int`. */
  type int32 = x: int | -0x8000_0000 <= x < 0x8000_0000

  /** Two's-complement truncation to 32 bits, as C# unchecked arithmetic does. */
  function WrapInt32(x: int): (r: int32)
    ensures (r - x) % 0x1_0000_0000 == 0
    ensures Int32Min <= x <= Int32Max ==> r == x
  {
    var m := x % 0x1_0000_0000;
    if m < 0x8000_0000 then m else m - 0x1_0000_0000
  }

  /** char.IsWhiteSpace: the Unicode space separators, the line and paragraph
      separators, and U+0009..U+000D, U+0085, U+00A0. */
  predicate IsWhiteSpace(c: char) {
    || ('\U{0009}' <= c <= '\U{000D}')
    || c == ' '
    || c == '\U{0085}'
    || c == '\U{00A0}'
    || c == '\U{1680}'
    || ('\U{2000}' <= c <= '\U{200A}')
    || c == '\U{2028}'
    || c == '\U{2029}'
    || c == '\U{202F}'
    || c == '\U{205F}'
    || c == '\U{3000}'
  }

  /** A non-null string that string.IsNullOrWhiteSpace accepts. */
  predicate IsBlank(s: string) {
    forall i :: 0 <= i < |s| ==> IsWhiteSpace(s[i])
  }

  /** string.IsNullOrWhiteSpace */
  predicate IsNullOrWhiteSpace(s: Option<string>) {
    s.None? || IsBlank(s.value)
  }

  /** System.Collections.Generic.List<T>: a list object updated in place. */
  class MutableList<T> {
    var Items: seq<T>

    constructor ()
      ensures Items == []
    {
      Items := [];
    }

    method Add(x: T)
      modifies this
      ensures Items == old(Items) + [x]
    {
      Items := Items + [x];
    }

    method AddRange(xs: seq<T>)
      modifies this
      ensures Items == old(Items) + xs
    {
      Items := Items + xs;
    }

    method Clear()
      modifies this
      ensures Items == []
    {
      Items := [];
    }
  }
}
