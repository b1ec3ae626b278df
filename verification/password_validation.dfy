/** UserPasswordValidationService: the password policy. A blank password gets
    exactly the EmptyWhiteSpace message; any other password is matched against
    the two rules of the rule table, in table order, and every rule that does
    not match contributes its message. */
module UserPasswordValidationService {
  import opened Common
  import opened Enums
  import PasswordValidationDescription
  import opened ValidationResults

  // Character classes of the two regular expressions (`\d` taken as ASCII 0-9).

  predicate IsAsciiLetter(c: char) { 'A' <= c <= 'Z' || 'a' <= c <= 'z' }
  predicate IsAsciiLower(c: char) { 'a' <= c <= 'z' }
  predicate IsAsciiUpper(c: char) { 'A' <= c <= 'Z' }
  predicate IsDigit(c: char) { '0' <= c <= '9' }

  function Min(a: int, b: int): int { if a <= b then a else b }
  function Max(a: int, b: int): int { if a <= b then b else a }

  ghost predicate LettersBetween(p: string, a: int, b: int)
    requires 0 <= a <= b <= |p|
  {
    forall t :: a <= t < b ==> IsAsciiLetter(p[t])
  }

  ghost predicate DigitsBetween(p: string, a: int, b: int)
    requires 0 <= a <= b <= |p|
  {
    forall t :: a <= t < b ==> IsDigit(p[t])
  }

  /** `.` of a .NET regex without RegexOptions.Singleline matches any character but '\n'. */
  predicate NoNewlineBetween(p: string, a: int, b: int)
    requires 0 <= a <= b <= |p|
  {
    forall t :: a <= t < b ==> p[t] != '\n'
  }

  /** Regex.IsMatch with `[A-Za-z]+\d+.*`: some substring p[i..j] splits into
      one or more letters, one or more digits, and characters other than '\n'. */
  ghost predicate LetterAndNumberIsMatch(p: string) {
    exists i, a, b, j :: 0 <= i < a < b <= j <= |p| &&
      LettersBetween(p, i, a) && DigitsBetween(p, a, b) && NoNewlineBetween(p, b, j)
  }

  /** The lookahead `(?=.*[a-z])` succeeds at position i. */
  ghost predicate LowerAhead(p: string, i: int)
    requires 0 <= i <= |p|
  {
    exists j :: i <= j < |p| && NoNewlineBetween(p, i, j) && IsAsciiLower(p[j])
  }

  /** The lookahead `(?=.*[A-Z])` succeeds at position i. */
  ghost predicate UpperAhead(p: string, i: int)
    requires 0 <= i <= |p|
  {
    exists k :: i <= k < |p| && NoNewlineBetween(p, i, k) && IsAsciiUpper(p[k])
  }

  /** Regex.IsMatch with `(?=.*[a-z])(?=.*[A-Z]).*`: both lookaheads succeed at
      one position; the trailing `.*` then matches the empty string. */
  ghost predicate UpperAndLowerIsMatch(p: string) {
    exists i :: 0 <= i <= |p| && LowerAhead(p, i) && UpperAhead(p, i)
  }

  /** Some ASCII letter is immediately followed by a digit. */
  predicate HasLetterThenDigit(p: string) {
    exists i :: 0 <= i < |p| - 1 && IsAsciiLetter(p[i]) && IsDigit(p[i + 1])
  }

  /** Some lower-case and some upper-case ASCII letter lie on one line. */
  predicate HasLowerAndUpperOnOneLine(p: string) {
    exists j, k :: 0 <= j < |p| && 0 <= k < |p| && IsAsciiLower(p[j]) && IsAsciiUpper(p[k]) &&
      NoNewlineBetween(p, Min(j, k), Max(j, k))
  }

  lemma LetterAndNumberMeaning(p: string)
    ensures LetterAndNumberIsMatch(p) <==> HasLetterThenDigit(p)
  {
    if LetterAndNumberIsMatch(p) {
      var i, a, b, j :| 0 <= i < a < b <= j <= |p| &&
        LettersBetween(p, i, a) && DigitsBetween(p, a, b) && NoNewlineBetween(p, b, j);
      assert IsAsciiLetter(p[a - 1]) && IsDigit(p[a]);
    }
    if HasLetterThenDigit(p) {
      var i :| 0 <= i < |p| - 1 && IsAsciiLetter(p[i]) && IsDigit(p[i + 1]);
      assert LettersBetween(p, i, i + 1) && DigitsBetween(p, i + 1, i + 2) && NoNewlineBetween(p, i + 2, i + 2);
    }
  }

  lemma UpperAndLowerMeaning(p: string)
    ensures UpperAndLowerIsMatch(p) <==> HasLowerAndUpperOnOneLine(p)
  {
    if UpperAndLowerIsMatch(p) {
      var i :| 0 <= i <= |p| && LowerAhead(p, i) && UpperAhead(p, i);
      var j :| i <= j < |p| && NoNewlineBetween(p, i, j) && IsAsciiLower(p[j]);
      var k :| i <= k < |p| && NoNewlineBetween(p, i, k) && IsAsciiUpper(p[k]);
      assert NoNewlineBetween(p, Min(j, k), Max(j, k));
    }
    if HasLowerAndUpperOnOneLine(p) {
      var j, k :| 0 <= j < |p| && 0 <= k < |p| && IsAsciiLower(p[j]) && IsAsciiUpper(p[k]) &&
        NoNewlineBetween(p, Min(j, k), Max(j, k));
      var i := Min(j, k);
      assert NoNewlineBetween(p, i, j) && NoNewlineBetween(p, i, k);
      assert LowerAhead(p, i) && UpperAhead(p, i);
    }
  }

  /** The two regular expressions of the rule table. */
  datatype Rule = LetterAndNumberRegex | UpperAndLowerRegex

  predicate IsMatch(rule: Rule, p: string) {
    match rule
    case LetterAndNumberRegex => HasLetterThenDigit(p)
    case UpperAndLowerRegex => HasLowerAndUpperOnOneLine(p)
  }

  function Message(error: PasswordValidationError): string {
    PasswordValidationDescription.ToDescriptionString(error)
  }

  /** The rule table, in the dictionary's insertion (and enumeration) order. */
  const ValidationRules: seq<(Rule, string)> := [
    (LetterAndNumberRegex, Message(LetterAndNumber)),
    (UpperAndLowerRegex, Message(UpperAndLower))
  ]

  /** The messages of the rules in `rules` that do not match `p`, in order. */
  function FailedRuleMessages(rules: seq<(Rule, string)>, p: string): (r: seq<string>)
    ensures |r| <= |rules|
  {
    if rules == [] then []
    else
      var last := rules[|rules| - 1];
      FailedRuleMessages(rules[..|rules| - 1], p) + (if IsMatch(last.0, p) then [] else [last.1])
  }

  /** The error list Validate produces, stated with the regular expressions' meaning. */
  function PolicyErrors(password: Option<string>): (r: seq<string>)
    ensures IsNullOrWhiteSpace(password) ==> r == [Message(EmptyWhiteSpace)]
    ensures !IsNullOrWhiteSpace(password) ==>
      r == (if LetterAndNumberIsMatch(password.value) then [] else [Message(LetterAndNumber)]) +
           (if UpperAndLowerIsMatch(password.value) then [] else [Message(UpperAndLower)])
  {
    if IsNullOrWhiteSpace(password) then [Message(EmptyWhiteSpace)]
    else
      var p := password.value;
      LetterAndNumberMeaning(p);
      UpperAndLowerMeaning(p);
      RuleTableErrors(p);
      FailedRuleMessages(ValidationRules, p)
  }

  /** The rule table's verdict on a password, rule by rule. */
  lemma RuleTableErrors(p: string)
    ensures FailedRuleMessages(ValidationRules, p) ==
      (if HasLetterThenDigit(p) then [] else [Message(LetterAndNumber)]) +
      (if HasLowerAndUpperOnOneLine(p) then [] else [Message(UpperAndLower)])
  {
    var first := ValidationRules[..1];
    assert first[..0] == [];
    assert ValidationRules[..|ValidationRules| - 1] == first;
    assert FailedRuleMessages(first, p) == (if HasLetterThenDigit(p) then [] else [Message(LetterAndNumber)]);
  }

  method Validate(password: Option<string>) returns (result: PasswordValidationResult)
    ensures result.Errors.Items == PolicyErrors(password)
  {
    result := new PasswordValidationResult();
    if IsNullOrWhiteSpace(password) {
      result.Errors.Add(Message(EmptyWhiteSpace));
      return;
    }
    var p := password.value;
    for k := 0 to |ValidationRules|
      invariant result.Errors.Items == FailedRuleMessages(ValidationRules[..k], p)
    {
      var rule := ValidationRules[k];
      assert ValidationRules[..k + 1][..k] == ValidationRules[..k];
      if !IsMatch(rule.0, p) {
        result.Errors.Add(rule.1);
      }
    }
    assert ValidationRules[..|ValidationRules|] == ValidationRules;
  }

  /** Zero to two errors, never the same one twice, and valid exactly when the
      password is non-blank and both expressions match. */
  lemma PolicyErrorsShape(password: Option<string>)
    ensures |PolicyErrors(password)| <= 2
    ensures forall a, b :: 0 <= a < b < |PolicyErrors(password)| ==> PolicyErrors(password)[a] != PolicyErrors(password)[b]
    ensures |PolicyErrors(password)| == 0 <==>
      !IsNullOrWhiteSpace(password) && LetterAndNumberIsMatch(password.value) && UpperAndLowerIsMatch(password.value)
  {
    PasswordValidationDescription.DescriptionsDistinct(LetterAndNumber, UpperAndLower);
  }

  /** A non-blank password's errors, stated with the two rules' plain meaning. */
  lemma NonBlankErrors(p: string)
    requires !IsNullOrWhiteSpace(Some(p))
    ensures PolicyErrors(Some(p)) ==
      (if HasLetterThenDigit(p) then [] else [Message(LetterAndNumber)]) +
      (if HasLowerAndUpperOnOneLine(p) then [] else [Message(UpperAndLower)])
  {
    LetterAndNumberMeaning(p);
    UpperAndLowerMeaning(p);
  }

  /** The cases of the service's unit tests, and the bootstrap administrator's password. */
  lemma PolicyAcceptsTest1()
    ensures PolicyErrors(Some("Test1")) == []
  {
    var p := "Test1";
    assert !IsWhiteSpace(p[0]);
    assert HasLetterThenDigit(p) by {
      assert IsAsciiLetter(p[3]) && IsDigit(p[4]);
    }
    assert HasLowerAndUpperOnOneLine(p) by {
      assert IsAsciiLower(p[1]) && IsAsciiUpper(p[0]) && NoNewlineBetween(p, 0, 1);
    }
    NonBlankErrors(p);
  }

  lemma PolicyAcceptsAdminPassword()
    ensures PolicyErrors(Some("Admin1!")) == []
  {
    var p := "Admin1!";
    assert !IsWhiteSpace(p[0]);
    assert HasLetterThenDigit(p) by {
      assert IsAsciiLetter(p[4]) && IsDigit(p[5]);
    }
    assert HasLowerAndUpperOnOneLine(p) by {
      assert IsAsciiLower(p[1]) && IsAsciiUpper(p[0]) && NoNewlineBetween(p, 0, 1);
    }
    NonBlankErrors(p);
  }

  lemma PolicyRejectsLowerCaseOnly()
    ensures PolicyErrors(Some("test1")) == [Message(UpperAndLower)]
  {
    var p := "test1";
    assert !IsWhiteSpace(p[0]);
    assert HasLetterThenDigit(p) by {
      assert IsAsciiLetter(p[3]) && IsDigit(p[4]);
    }
    assert !HasLowerAndUpperOnOneLine(p) by {
      assert forall k :: 0 <= k < |p| ==> !IsAsciiUpper(p[k]);
    }
    NonBlankErrors(p);
  }

  lemma PolicyRejectsNoDigit()
    ensures PolicyErrors(Some("Test")) == [Message(LetterAndNumber)]
  {
    var p := "Test";
    assert !IsWhiteSpace(p[0]);
    assert !HasLetterThenDigit(p) by {
      assert forall k :: 0 <= k < |p| ==> !IsDigit(p[k]);
    }
    assert HasLowerAndUpperOnOneLine(p) by {
      assert IsAsciiLower(p[1]) && IsAsciiUpper(p[0]) && NoNewlineBetween(p, 0, 1);
    }
    NonBlankErrors(p);
  }

  lemma PolicyRejectsBoth()
    ensures PolicyErrors(Some("test")) == [Message(LetterAndNumber), Message(UpperAndLower)]
  {
    var p := "test";
    assert !IsWhiteSpace(p[0]);
    assert !HasLetterThenDigit(p) by {
      assert forall k :: 0 <= k < |p| ==> !IsDigit(p[k]);
    }
    assert !HasLowerAndUpperOnOneLine(p) by {
      assert forall k :: 0 <= k < |p| ==> !IsAsciiUpper(p[k]);
    }
    NonBlankErrors(p);
  }

  lemma PolicyRejectsBlank()
    ensures PolicyErrors(Some("")) == [Message(EmptyWhiteSpace)]
    ensures PolicyErrors(Some("   ")) == [Message(EmptyWhiteSpace)]
    ensures PolicyErrors(None) == [Message(EmptyWhiteSpace)]
  {
    assert IsBlank("   ");
  }

  /** A password whose digits all come before its letters, whatever else it
      holds, fails the letter-and-number rule. */
  lemma DigitsBeforeLettersFail(p: string)
    requires forall i, j :: 0 <= i < j < |p| && IsAsciiLetter(p[i]) ==> !IsDigit(p[j])
    ensures !LetterAndNumberIsMatch(p)
  {
    LetterAndNumberMeaning(p);
    forall i | 0 <= i < |p| - 1
      ensures !(IsAsciiLetter(p[i]) && IsDigit(p[i + 1]))
    {
    }
  }
}
