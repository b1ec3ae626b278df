/** AdminHandler (root-level version): the authorization requirement that
    the user's single roles claim lists the Administrator role id. The claim
    type name and the enum value are parameters. The LINQ chain is lazy:
    segments are parsed one by one and `Contains` stops at the first match, so
    a malformed segment after the administrator id is never parsed. */
module AdminHandler {
  import opened Common
  import opened Numbers
  import opened ServiceModel
  import opened UserAuthenticationService
  import opened LegacyUserContextService

  /** The one call the handler makes on the context. */
  datatype Verdict = Succeed | Fail

  /** The claims of one type, in order: each claim of that type as often as
      the list holds it, and no other. */
  function ClaimsOfType(claims: seq<Claim>, claimType: string): (r: seq<Claim>)
    ensures |r| <= |claims|
    ensures forall k :: 0 <= k < |r| ==> r[k].claimType == claimType && r[k] in claims
    ensures forall c :: c in claims && c.claimType == claimType ==> c in r
    ensures forall c :: multiset(r)[c] == (if c.claimType == claimType then multiset(claims)[c] else 0)
  {
    if claims == [] then []
    else
      var front := ClaimsOfType(claims[..|claims| - 1], claimType);
      var last := claims[|claims| - 1];
      assert claims == claims[..|claims| - 1] + [last];
      assert multiset(claims) == multiset(claims[..|claims| - 1]) + multiset{last};
      if last.claimType == claimType then front + [last] else front
  }

  /** Selecting from two lists one after the other keeps the order: the
      selected claims of the first list come before those of the second. */
  lemma {:induction false} ClaimsOfTypeAppend(a: seq<Claim>, b: seq<Claim>, claimType: string)
    ensures ClaimsOfType(a + b, claimType) == ClaimsOfType(a, claimType) + ClaimsOfType(b, claimType)
    decreases |b|
  {
    if b == [] {
      assert a + b == a;
    } else {
      var front := b[..|b| - 1];
      assert (a + b)[..|a + b| - 1] == a + front;
      ClaimsOfTypeAppend(a, front, claimType);
    }
  }

  /** `segments.Select(int.Parse).Contains(target)`, evaluated lazily from the front. */
  function ContainsParsed(segments: seq<string>, target: int): (r: Result<bool, Exception>)
    ensures r.Failure? ==> r.error == FormatException || r.error == OverflowException
    ensures r == Success(true) ==> exists k :: 0 <= k < |segments| && ParseInt32(segments[k]) == Success(target)
  {
    if segments == [] then Success(false)
    else match ContainsParsed(segments[..|segments| - 1], target)
      case Failure(e) => Failure(e)
      case Success(true) => Success(true)
      case Success(false) =>
        match ParseInt32(segments[|segments| - 1])
        case Failure(e) => Failure(e)
        case Success(v) => Success(v == target)
  }

  /** HandleRequirementAsync: no roles claim fails, several throw, one is scanned for the administrator id. */
  function HandleRequirement(claims: seq<Claim>, rolesClaimType: string, n: RoleNumbering): (r: Result<Verdict, Exception>)
    ensures |ClaimsOfType(claims, rolesClaimType)| == 0 ==> r == Success(Fail)
    ensures |ClaimsOfType(claims, rolesClaimType)| > 1 ==> r == Failure(InvalidOperationException)
    ensures r.Failure? ==> r.error == InvalidOperationException || r.error == FormatException || r.error == OverflowException
  {
    var matching := ClaimsOfType(claims, rolesClaimType);
    if |matching| == 0 then Success(Fail)
    else if |matching| > 1 then Failure(InvalidOperationException)
    else match ContainsParsed(Split(matching[0].value, ','), n.administrator)
      case Failure(e) => Failure(e)
      case Success(found) => Success(if found then Succeed else Fail)
  }

  /** The lazy scan agrees with parsing everything and then searching, except
      that a match before the first malformed segment wins over its exception. */
  lemma {:induction false} ContainsParsedMeaning(segments: seq<string>, target: int)
    ensures var p := ParseSegments(segments);
      ContainsParsed(segments, target) ==
        if target in p.0 then Success(true)
        else if p.1.Some? then Failure(p.1.value)
        else Success(false)
    decreases |segments|
  {
    if segments != [] {
      ContainsParsedMeaning(segments[..|segments| - 1], target);
    }
  }

  /** The handler succeeds exactly when there is one roles claim and its
      segments, parsed up to the first malformed one, include the administrator id. */
  lemma SucceedIff(claims: seq<Claim>, rolesClaimType: string, n: RoleNumbering)
    ensures HandleRequirement(claims, rolesClaimType, n) == Success(Succeed) <==>
      var matching := ClaimsOfType(claims, rolesClaimType);
      |matching| == 1 && n.administrator in ParseSegments(Split(matching[0].value, ',')).0
  {
    var matching := ClaimsOfType(claims, rolesClaimType);
    if |matching| == 1 {
      ContainsParsedMeaning(Split(matching[0].value, ','), n.administrator);
    }
  }

  /** Claims of other types contribute nothing. */
  lemma {:induction false} NoClaimsOfType(claims: seq<Claim>, claimType: string)
    requires forall c :: c in claims ==> c.claimType != claimType
    ensures ClaimsOfType(claims, claimType) == []
    decreases |claims|
  {
    if claims != [] {
      NoClaimsOfType(claims[..|claims| - 1], claimType);
    }
  }

  /** A roles claim written by joining role ids lets the user in exactly when
      the ids include the administrator's. */
  lemma JoinedRoleIdsDecide(others: seq<Claim>, rolesClaimType: string, n: RoleNumbering, ids: seq<int32>)
    requires |ids| >= 1
    requires forall c :: c in others ==> c.claimType != rolesClaimType
    ensures HandleRequirement(others + [Claim(rolesClaimType, Join(Texts(ids), ','))], rolesClaimType, n) ==
      Success(if n.administrator in ids then Succeed else Fail)
  {
    var claim := Claim(rolesClaimType, Join(Texts(ids), ','));
    var claims := others + [claim];
    var matching := ClaimsOfType(claims, rolesClaimType);
    assert claims[..|claims| - 1] == others;
    NoClaimsOfType(others, rolesClaimType);
    assert matching == [claim];
    RoleIdsRoundTrip(ids);
    ContainsParsedMeaning(Split(claim.value, ','), n.administrator);
  }

  /** Laziness: with the administrator id first, a malformed later segment is never parsed. */
  lemma AdminBeforeMalformed(n: RoleNumbering, rolesClaimType: string)
    requires 0 <= n.administrator < 10
    ensures HandleRequirement([Claim(rolesClaimType, [DigitChar(n.administrator), ',', 'x'])], rolesClaimType, n) == Success(Succeed)
  {
    var text := [DigitChar(n.administrator), ',', 'x'];
    assert text == [DigitChar(n.administrator)] + [','] + "x";
    SplitSingle([DigitChar(n.administrator)], ',');
    SplitAppendPiece([DigitChar(n.administrator)], ',', "x");
    assert IntToString(n.administrator) == [DigitChar(n.administrator)];
    ParseFormatRoundTrip(n.administrator);
    var digit := [DigitChar(n.administrator)];
    var segments := Split(text, ',');
    assert segments == [digit, "x"];
    assert segments[..1] == [digit];
    assert [digit][..0] == [];
    assert ContainsParsed([digit], n.administrator) == Success(true);
    assert ContainsParsed(segments, n.administrator) == Success(true);
    var claims := [Claim(rolesClaimType, text)];
    assert claims[..0] == [];
    assert ClaimsOfType(claims, rolesClaimType) == claims;
  }

  /** More than one roles claim makes SingleOrDefault throw. */
  lemma SeveralRolesClaimsThrow(claims: seq<Claim>, rolesClaimType: string, n: RoleNumbering, a: Claim, b: Claim)
    requires a.claimType == rolesClaimType && b.claimType == rolesClaimType
    ensures HandleRequirement([a] + claims + [b], rolesClaimType, n) == Failure(InvalidOperationException)
  {
    var all := [a] + claims + [b];
    var matching := ClaimsOfType(all, rolesClaimType);
    assert all[..|all| - 1] == [a] + claims;
    var front := ClaimsOfType([a] + claims, rolesClaimType);
    assert a in [a] + claims;
    assert |front| >= 1;
    assert matching == front + [b];
  }
}
