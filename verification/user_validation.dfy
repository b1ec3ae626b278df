/** UserValidationService.ValidateUser: the password policy's errors, then the
    taken-username error. The service's username lookup is a parameter: the
    user it finds, if any. */
module UserValidationService {
  import opened Common
  import opened Enums
  import opened ServiceModel
  import opened ValidationResults
  import UserPasswordValidationService
  import UserValidationDescription
  import PasswordValidationDescription

  /** The message for a username that is already taken. */
  function TakenMessage(): string {
    UserValidationDescription.ToDescriptionString(EmailExists)
  }

  /** The error list ValidateUser produces. */
  function UserErrors(password: Option<string>, existing: Option<User>): seq<string> {
    UserPasswordValidationService.PolicyErrors(password) + (if existing.Some? then [TakenMessage()] else [])
  }

  method ValidateUser(user: User, existing: Option<User>) returns (result: UserValidationResult)
    ensures result.Errors.Items == UserErrors(user.password, existing)
  {
    result := new UserValidationResult();
    var passwordResult := UserPasswordValidationService.Validate(user.password);
    result.Errors.AddRange(passwordResult.Errors.Items);
    if existing.Some? {
      result.Errors.Add(TakenMessage());
    }
  }

  /** No password policy message is the taken-username message. */
  lemma TakenMessageNotAPolicyMessage(password: Option<string>)
    ensures TakenMessage() !in UserPasswordValidationService.PolicyErrors(password)
  {
    var errors := UserPasswordValidationService.PolicyErrors(password);
    PasswordValidationDescription.MessageLengths();
    assert |TakenMessage()| == 20;
    forall k | 0 <= k < |errors|
      ensures errors[k] != TakenMessage()
    {
      var e :| e in {EmptyWhiteSpace, LetterAndNumber, UpperAndLower} && errors[k] == PasswordValidationDescription.ToDescriptionString(e);
    }
  }

  /** A user is valid exactly when the password passes the policy and the username is free. */
  lemma ValidIff(password: Option<string>, existing: Option<User>)
    ensures |UserErrors(password, existing)| == 0 <==>
      UserPasswordValidationService.PolicyErrors(password) == [] && existing.None?
  {
  }

  /** The taken-username message is reported exactly when the username is taken, and it comes last. */
  lemma TakenReportedIff(password: Option<string>, existing: Option<User>)
    ensures TakenMessage() in UserErrors(password, existing) <==> existing.Some?
    ensures existing.Some? ==> UserErrors(password, existing)[|UserErrors(password, existing)| - 1] == TakenMessage()
  {
    TakenMessageNotAPolicyMessage(password);
  }
}
