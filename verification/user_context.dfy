/** UserContextService (root-level version): the current request's user id
    and role ids, set from the text of the token's claims. Guid.Parse is a
    parameter that yields None on malformed text. */
module LegacyUserContextService {
  import opened Common
  import opened Numbers
  import opened LegacyModel

  /** `int.Parse` over the segments in order, stopping at the first failure:
      the values parsed before it and the exception, if any. */
  function ParseSegments(segments: seq<string>): (r: (seq<int32>, Option<Exception>))
    ensures |r.0| <= |segments|
    ensures forall k :: 0 <= k < |r.0| ==> ParseInt32(segments[k]) == Success(r.0[k])
    ensures r.1.None? <==> |r.0| == |segments|
    ensures r.1.Some? ==> ParseInt32(segments[|r.0|]) == Failure(r.1.value)
  {
    if segments == [] then ([], None)
    else
      var prev := ParseSegments(segments[..|segments| - 1]);
      if prev.1.Some? then prev
      else match ParseInt32(segments[|segments| - 1])
        case Failure(e) => (prev.0, Some(e))
        case Success(v) => (prev.0 + [v], None)
  }

  /** One more segment after a failure changes nothing. */
  lemma FailureIsKept(segments: seq<string>)
    requires segments != []
    requires ParseSegments(segments[..|segments| - 1]).1.Some?
    ensures ParseSegments(segments) == ParseSegments(segments[..|segments| - 1])
  {
  }

  /** Once a segment has failed, later segments change nothing. */
  lemma {:induction false} ParseSegmentsStops(segments: seq<string>, k: nat)
    requires k <= |segments|
    requires ParseSegments(segments[..k]).1.Some?
    ensures ParseSegments(segments) == ParseSegments(segments[..k])
    decreases |segments|
  {
    if k < |segments| {
      var front := segments[..|segments| - 1];
      assert front[..k] == segments[..k];
      ParseSegmentsStops(front, k);
      FailureIsKept(segments);
    } else {
      assert segments[..k] == segments;
    }
  }

  class UserContextService {
    var userId: Option<Guid>
    var roleIds: MutableList<int32>

    constructor ()
      ensures userId == None && roleIds.Items == []
    {
      userId := None;
      roleIds := new MutableList<int32>();
    }

    /** SetCurrentUserId: blank text clears the id; other text is parsed, and
        malformed text throws before anything is assigned. */
    method SetCurrentUserId(text: Option<string>, guidParse: string -> Option<Guid>) returns (r: Result<(), Exception>)
      modifies this
      ensures roleIds == old(roleIds)
      ensures IsNullOrWhiteSpace(text) ==> r == Success(()) && userId == None
      ensures !IsNullOrWhiteSpace(text) && guidParse(text.value).None? ==>
        r == Failure(FormatException) && userId == old(userId)
      ensures !IsNullOrWhiteSpace(text) && guidParse(text.value).Some? ==>
        r == Success(()) && userId == guidParse(text.value)
    {
      if IsNullOrWhiteSpace(text) {
        userId := None;
        return Success(());
      }
      var parsed := guidParse(text.value);
      if parsed.None? {
        return Failure(FormatException);
      }
      userId := parsed;
      return Success(());
    }

    /** SetUserRoleIds: the list is cleared, then filled with the parsed
        comma-separated segments; a segment that does not parse throws, and the
        values added before it stay in the list. */
    method SetUserRoleIds(text: Option<string>) returns (r: Result<(), Exception>)
      modifies roleIds
      ensures IsNullOrWhiteSpace(text) ==> r == Success(()) && roleIds.Items == []
      ensures !IsNullOrWhiteSpace(text) ==>
        var parsed := ParseSegments(Split(text.value, ','));
        && roleIds.Items == parsed.0
        && (parsed.1.None? ==> r == Success(()))
        && (parsed.1.Some? ==> r == Failure(parsed.1.value))
    {
      roleIds.Clear();
      if IsNullOrWhiteSpace(text) {
        return Success(());
      }
      var segments := Split(text.value, ',');
      for k := 0 to |segments|
        invariant ParseSegments(segments[..k]).1.None?
        invariant roleIds.Items == ParseSegments(segments[..k]).0
      {
        ghost var prefix := segments[..k + 1];
        assert prefix[..k] == segments[..k] && prefix[k] == segments[k];
        var value := ParseInt32(segments[k]);
        if value.Failure? {
          assert ParseSegments(prefix) == (roleIds.Items, Some(value.error));
          ParseSegmentsStops(segments, k + 1);
          return Failure(value.error);
        }
        roleIds.Add(value.value);
        assert ParseSegments(prefix) == (roleIds.Items, None);
      }
      assert segments[..|segments|] == segments;
      r := Success(());
    }
  }

  /** The text of each id, as ToString gives it. */
  function Texts(ids: seq<int32>): (r: seq<string>)
    ensures |r| == |ids|
  {
    seq(|ids|, k requires 0 <= k < |ids| => IntToString(ids[k]))
  }

  /** A string-joined list begins with the first piece's first character. */
  lemma {:induction false} JoinFirstChar(parts: seq<string>, sep: char)
    requires |parts| >= 1 && |parts[0]| >= 1
    ensures |Join(parts, sep)| >= 1 && Join(parts, sep)[0] == parts[0][0]
    decreases |parts|
  {
    if |parts| > 1 {
      JoinFirstChar(parts[..|parts| - 1], sep);
    }
  }

  /** The ids' texts parse back to the ids, every one. */
  lemma ParseTexts(ids: seq<int32>)
    ensures ParseSegments(Texts(ids)) == (ids, None)
  {
    var texts := Texts(ids);
    forall k | 0 <= k < |texts|
      ensures ParseInt32(texts[k]) == Success(ids[k])
    {
      ParseFormatRoundTrip(ids[k]);
    }
    var p := ParseSegments(texts);
    assert p.1.None?;
    assert p.0 == ids;
  }

  /** The comma-joined text of a non-empty id list is not blank. */
  lemma JoinedTextNotBlank(ids: seq<int32>)
    requires |ids| >= 1
    ensures !IsNullOrWhiteSpace(Some(Join(Texts(ids), ',')))
  {
    var texts := Texts(ids);
    JoinFirstChar(texts, ',');
    var first := IntToString(ids[0])[0];
    assert first == '-' || IsDecimalDigit(first);
    assert !IsWhiteSpace(Join(texts, ',')[0]);
  }

  /** Parsing the comma-joined text of a list of ids gives the list back, so a
      role-id claim written by joining ids round-trips through SetUserRoleIds. */
  lemma RoleIdsRoundTrip(ids: seq<int32>)
    requires |ids| >= 1
    ensures !IsNullOrWhiteSpace(Some(Join(Texts(ids), ',')))
    ensures ParseSegments(Split(Join(Texts(ids), ','), ',')) == (ids, None)
  {
    var texts := Texts(ids);
    forall k | 0 <= k < |texts|
      ensures ',' !in texts[k]
    {
      FormatHasNoSeparator(ids[k], ',');
    }
    SplitJoin(texts, ',');
    JoinedTextNotBlank(ids);
    ParseTexts(ids);
  }

  /** When every segment parses, there is one role id per comma, plus one. */
  lemma RoleIdCount(text: string)
    requires ParseSegments(Split(text, ',')).1.None?
    ensures |ParseSegments(Split(text, ',')).0| == Occurrences(text, ',') + 1
  {
    SplitShape(text, ',');
  }

  /** "1,,2" splits into "1", "" and "2". */
  lemma SplitEmptySegment()
    ensures Split("1,,2", ',') == ["1", "", "2"]
  {
    SplitSingle("1", ',');
    assert "1," == "1" + [','] + "";
    SplitAppendPiece("1", ',', "");
    assert "1,,2" == "1," + [','] + "2";
    SplitAppendPiece("1,", ',', "2");
  }

  /** A failure in the second of three segments keeps the first value only. */
  lemma ParseStopsAtSecond(a: string, b: string, c: string, x: int32, e: Exception)
    requires ParseInt32(a) == Success(x) && ParseInt32(b) == Failure(e)
    ensures ParseSegments([a, b, c]) == ([x], Some(e))
  {
    var segments := [a, b, c];
    var r := ParseSegments(segments);
    assert |r.0| < 2 by {
      assert ParseInt32(segments[1]).Failure?;
    }
    assert r.1.Some?;
    assert |r.0| >= 1 by {
      assert ParseInt32(segments[0]).Success?;
    }
    assert ParseInt32(segments[0]) == Success(r.0[0]);
    assert r.0 == [x];
    assert ParseInt32(segments[1]) == Failure(r.1.value);
  }

  /** An empty segment stops the parse: "1,,2" keeps 1 and throws FormatException. */
  lemma EmptySegmentRejected()
    ensures ParseSegments(Split("1,,2", ',')) == ([1], Some(FormatException))
  {
    SplitEmptySegment();
    ParseFormatRoundTrip(1);
    ParseRejectsMalformed();
    ParseStopsAtSecond("1", "", "2", 1, FormatException);
  }
}
