/** Integer formatting and parsing as the .NET base library does it for the
    invariant culture: `int.ToString()` (decimal digits, a leading '-' for
    negatives), `int.Parse(string)` under NumberStyles.Integer (leading and
    trailing white space, one optional sign, at least one decimal digit,
    trailing NUL characters, format errors reported before overflow), and
    `string.Split` on a single separator, which keeps empty entries. */
module Numbers {
  import opened Common

  predicate IsDecimalDigit(c: char) {
    '0' <= c <= '9'
  }

  predicate AllDigits(s: string) {
    forall k :: 0 <= k < |s| ==> IsDecimalDigit(s[k])
  }

  function DigitValue(c: char): nat
    requires IsDecimalDigit(c)
  {
    c as int - '0' as int
  }

  function DigitChar(d: nat): (c: char)
    requires d < 10
    ensures IsDecimalDigit(c) && DigitValue(c) == d
  {
    (('0' as int) + d) as char
  }

  /** The number a string of decimal digits denotes. */
  function DigitsValue(s: string): nat
    requires AllDigits(s)
  {
    if s == [] then 0 else DigitsValue(s[..|s| - 1]) * 10 + DigitValue(s[|s| - 1])
  }

  /** The decimal digits of n, most significant first, without leading zeros. */
  function NatToDigits(n: nat): (r: string)
    ensures |r| >= 1 && AllDigits(r)
    ensures |r| > 1 ==> r[0] != '0'
    ensures DigitsValue(r) == n
  {
    if n < 10 then [DigitChar(n)]
    else
      var front := NatToDigits(n / 10);
      var r := front + [DigitChar(n % 10)];
      assert r[..|r| - 1] == front;
      r
  }

  /** `int.ToString()`. */
  function IntToString(n: int): (r: string)
    ensures |r| >= 1
    ensures n < 0 <==> r[0] == '-'
    ensures n < 0 ==> AllDigits(r[1..]) && DigitsValue(r[1..]) == -n
    ensures n >= 0 ==> AllDigits(r) && DigitsValue(r) == n
  {
    if n < 0 then "-" + NatToDigits(-n) else NatToDigits(n)
  }

  /** The white space NumberStyles.AllowLeadingWhite and AllowTrailingWhite skip. */
  predicate IsNumberWhite(c: char) {
    c == ' ' || '\t' <= c <= '\r'
  }

  predicate IsNul(c: char) {
    c == '\0'
  }

  /** The end of the run of characters satisfying p that starts at i. */
  function SkipWhile(s: string, i: nat, p: char -> bool): (j: nat)
    requires i <= |s|
    ensures i <= j <= |s|
    ensures forall k :: i <= k < j ==> p(s[k])
    ensures j < |s| ==> !p(s[j])
    decreases |s| - i
  {
    if i < |s| && p(s[i]) then SkipWhile(s, i + 1, p) else i
  }

  /** `int.Parse(s)`: the characters must be white space, an optional sign,
      one or more digits, white space and NUL characters, in that order;
      otherwise FormatException. A well-formed number outside the 32-bit
      range gives OverflowException. */
  function ParseInt32(s: string): (r: Result<int32, Exception>)
    ensures r.Failure? ==> r.error == FormatException || r.error == OverflowException
    ensures r.Success? ==> exists k :: 0 <= k < |s| && IsDecimalDigit(s[k])
    ensures r.Success? && r.value < 0 ==> exists k :: 0 <= k < |s| && s[k] == '-'
  {
    var i := SkipWhile(s, 0, IsNumberWhite);
    var negative := i < |s| && s[i] == '-';
    var j := if i < |s| && (s[i] == '-' || s[i] == '+') then i + 1 else i;
    var k := SkipWhile(s, j, IsDecimalDigit);
    var end := SkipWhile(s, SkipWhile(s, k, IsNumberWhite), IsNul);
    if k == j || end != |s| then Failure(FormatException)
    else
      var magnitude: int := DigitsValue(s[j..k]);
      var value: int := if negative then -magnitude else magnitude;
      if Int32Min <= value <= Int32Max then Success(value) else Failure(OverflowException)
  }

  /** Formatting a 32-bit integer and parsing the text gives the integer back. */
  lemma ParseFormatRoundTrip(n: int32)
    ensures ParseInt32(IntToString(n)) == Success(n)
  {
    var s := IntToString(n);
    var i := SkipWhile(s, 0, IsNumberWhite);
    assert i == 0;
    var j := if n < 0 then 1 else 0;
    var k := SkipWhile(s, j, IsDecimalDigit);
    forall m | j <= m < |s| ensures IsDecimalDigit(s[m]) {
      if n < 0 {
        assert s[m] == s[1..][m - 1];
      }
    }
    assert k == |s|;
    assert s[j..k] == if n < 0 then s[1..] else s;
  }

  /** A formatted non-negative integer has no sign and no white space: only digits. */
  lemma FormatHasNoSeparator(n: int, sep: char)
    requires !IsDecimalDigit(sep) && sep != '-'
    ensures sep !in IntToString(n)
  {
    var s := IntToString(n);
    forall m | 0 <= m < |s| ensures s[m] != sep {
      if n < 0 && m > 0 {
        assert s[m] == s[1..][m - 1];
      }
    }
  }

  /** The empty string, a lone sign and an embedded separator are not numbers. */
  lemma ParseRejectsMalformed()
    ensures ParseInt32("") == Failure(FormatException)
    ensures ParseInt32("-") == Failure(FormatException)
    ensures ParseInt32(" ") == Failure(FormatException)
    ensures ParseInt32("1 2") == Failure(FormatException)
  {
    assert SkipWhile("-", 1, IsDecimalDigit) == 1;
    var t := "1 2";
    assert SkipWhile(t, 0, IsNumberWhite) == 0;
    assert SkipWhile(t, 0, IsDecimalDigit) == 1 by {
      assert SkipWhile(t, 1, IsDecimalDigit) == 1;
    }
    assert SkipWhile(t, 1, IsNumberWhite) == 2 by {
      assert SkipWhile(t, 2, IsNumberWhite) == 2;
    }
    assert SkipWhile(t, 2, IsNul) == 2;
  }

  /** Surrounding white space is accepted. */
  lemma ParseAcceptsSurroundingWhite()
    ensures ParseInt32(" 7 ") == Success(7)
  {
    var t := " 7 ";
    assert SkipWhile(t, 0, IsNumberWhite) == 1 by {
      assert SkipWhile(t, 1, IsNumberWhite) == 1;
    }
    assert SkipWhile(t, 1, IsDecimalDigit) == 2 by {
      assert SkipWhile(t, 2, IsDecimalDigit) == 2;
    }
    assert SkipWhile(t, 2, IsNumberWhite) == 3;
    assert SkipWhile(t, 3, IsNul) == 3;
    assert DigitsValue(t[1..2]) == 7 by {
      assert t[1..2][..0] == [];
    }
  }

  /** A run of digits reaching the end of the text is skipped to its end. */
  lemma {:induction false} SkipAllDigits(s: string, j: nat)
    requires j <= |s|
    requires forall k :: j <= k < |s| ==> IsDecimalDigit(s[k])
    ensures SkipWhile(s, j, IsDecimalDigit) == |s|
    decreases |s| - j
  {
    if j < |s| {
      SkipAllDigits(s, j + 1);
    }
  }

  /** The value of the first five digits of 2^31. */
  lemma DigitsOf21474()
    ensures AllDigits("21474") && DigitsValue("21474") == 21474
  {
    assert "2"[..0] == "";
    assert DigitsValue("2") == 2;
    assert "21"[..1] == "2";
    assert DigitsValue("21") == 21;
    assert "214"[..2] == "21";
    assert DigitsValue("214") == 214;
    assert "2147"[..3] == "214";
    assert DigitsValue("2147") == 2147;
    assert "21474"[..4] == "2147";
  }

  /** The digits of 2^31. */
  lemma DigitsOfTwoToThe31()
    ensures AllDigits("2147483648") && DigitsValue("2147483648") == 2147483648
  {
    DigitsOf21474();
    assert "214748"[..5] == "21474";
    assert DigitsValue("214748") == 214748;
    assert "2147483"[..6] == "214748";
    assert DigitsValue("2147483") == 2147483;
    assert "21474836"[..7] == "2147483";
    assert DigitsValue("21474836") == 21474836;
    assert "214748364"[..8] == "21474836";
    assert DigitsValue("214748364") == 214748364;
    assert "2147483648"[..9] == "214748364";
  }

  /** One past the largest 32-bit value overflows. */
  lemma ParseOverflows()
    ensures ParseInt32("2147483648") == Failure(OverflowException)
  {
    var big := "2147483648";
    DigitsOfTwoToThe31();
    assert SkipWhile(big, 0, IsNumberWhite) == 0;
    SkipAllDigits(big, 0);
    assert big[0..10] == big;
  }

  /** The smallest 32-bit value parses although its magnitude does not fit. */
  lemma ParseSmallest()
    ensures ParseInt32("-2147483648") == Success(-2147483648)
  {
    var s := "-2147483648";
    var digits := "2147483648";
    DigitsOfTwoToThe31();
    assert s[1..] == digits;
    assert SkipWhile(s, 0, IsNumberWhite) == 0;
    SkipAllDigits(s, 1);
    assert s[1..11] == digits;
  }

  /** Number of occurrences of c in s. */
  function Occurrences(s: string, c: char): nat {
    multiset(s)[c]
  }

  /** `s.Split(sep)`: the pieces between separators, empty ones included. */
  function Split(s: string, sep: char): (r: seq<string>)
    ensures |r| >= 1
  {
    if s == [] then [""]
    else
      var front := Split(s[..|s| - 1], sep);
      var last := s[|s| - 1];
      if last == sep then front + [""]
      else front[..|front| - 1] + [front[|front| - 1] + [last]]
  }

  /** A split has one piece more than the string has separators, and no piece holds the separator. */
  lemma {:induction false} SplitShape(s: string, sep: char)
    ensures |Split(s, sep)| == Occurrences(s, sep) + 1
    ensures forall k :: 0 <= k < |Split(s, sep)| ==> sep !in Split(s, sep)[k]
    decreases |s|
  {
    if s != [] {
      var init := s[..|s| - 1];
      var last := s[|s| - 1];
      SplitShape(init, sep);
      assert s == init + [last];
      assert multiset(s) == multiset(init) + multiset{last};
    }
  }

  /** `string.Join(sep, parts)`. */
  function Join(parts: seq<string>, sep: char): string
    requires |parts| >= 1
  {
    if |parts| == 1 then parts[0] else Join(parts[..|parts| - 1], sep) + [sep] + parts[|parts| - 1]
  }

  /** Joining the pieces of a split gives the original string back. */
  lemma {:induction false} JoinSplit(s: string, sep: char)
    ensures Join(Split(s, sep), sep) == s
    decreases |s|
  {
    if s != [] {
      var init := s[..|s| - 1];
      var last := s[|s| - 1];
      var front := Split(init, sep);
      JoinSplit(init, sep);
      assert s == init + [last];
      if last == sep {
        var pieces := front + [""];
        assert Split(s, sep) == pieces;
        assert pieces[..|pieces| - 1] == front;
        assert Join(pieces, sep) == init + [sep] + "";
      } else {
        assert Split(s, sep) == front[..|front| - 1] + [front[|front| - 1] + [last]];
        JoinLastPiece(front, sep, last);
      }
    }
  }

  /** Extending the last piece extends the joined string. */
  lemma {:induction false} JoinLastPiece(parts: seq<string>, sep: char, c: char)
    requires |parts| >= 1
    ensures Join(parts[..|parts| - 1] + [parts[|parts| - 1] + [c]], sep) == Join(parts, sep) + [c]
  {
    var extended := parts[..|parts| - 1] + [parts[|parts| - 1] + [c]];
    assert extended[..|extended| - 1] == parts[..|parts| - 1];
  }

  /** A character other than the separator extends the last piece. */
  lemma SplitSnoc(t: string, sep: char, c: char)
    requires c != sep
    ensures var front := Split(t, sep);
      Split(t + [c], sep) == front[..|front| - 1] + [front[|front| - 1] + [c]]
  {
    assert (t + [c])[..|t|] == t;
  }

  /** Splitting text that ends in a separator-free piece gives that piece last. */
  lemma {:induction false} SplitAppendPiece(prefix: string, sep: char, piece: string)
    requires sep !in piece
    ensures Split(prefix + [sep] + piece, sep) == Split(prefix, sep) + [piece]
    decreases |piece|
  {
    var s := prefix + [sep] + piece;
    if piece == [] {
      assert s[..|s| - 1] == prefix;
    } else {
      var shorter := piece[..|piece| - 1];
      var c := piece[|piece| - 1];
      assert piece == shorter + [c];
      assert c != sep && sep !in shorter;
      SplitAppendPiece(prefix, sep, shorter);
      var shorterText := prefix + [sep] + shorter;
      assert s == shorterText + [c];
      SplitSnoc(shorterText, sep, c);
      var front := Split(shorterText, sep);
      assert front[..|front| - 1] == Split(prefix, sep);
    }
  }

  /** Splitting the join of separator-free pieces gives the pieces back. */
  lemma {:induction false} SplitJoin(parts: seq<string>, sep: char)
    requires |parts| >= 1
    requires forall k :: 0 <= k < |parts| ==> sep !in parts[k]
    ensures Split(Join(parts, sep), sep) == parts
    decreases |parts|
  {
    if |parts| == 1 {
      SplitSingle(parts[0], sep);
    } else {
      var front := parts[..|parts| - 1];
      SplitJoin(front, sep);
      SplitAppendPiece(Join(front, sep), sep, parts[|parts| - 1]);
    }
  }

  /** Text without the separator splits into itself alone. */
  lemma {:induction false} SplitSingle(s: string, sep: char)
    requires sep !in s
    ensures Split(s, sep) == [s]
    decreases |s|
  {
    if s != [] {
      SplitSingle(s[..|s| - 1], sep);
      assert s[..|s| - 1] + [s[|s| - 1]] == s;
    }
  }
}
