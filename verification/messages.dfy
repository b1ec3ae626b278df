/** The closed error enumerations (SourceName.Utils.Enums). */
module Enums {

  datatype PasswordValidationError =
    | EmptyWhiteSpace
    | PasswordLength
    | LetterAndNumber
    | UpperAndLower
    | Expected64ByteHash
    | Expected128ByteSalt

  datatype UserError = EmailExists
}

/** The extension method PasswordValidationError.ToDescriptionString. The
    source's fallback arm throws NotImplementedException for a value outside
    the enumeration; a datatype has no such value, so the arm is absent. */
module PasswordValidationDescription {
  import opened Enums
  import opened Common

  function ToDescriptionString(error: PasswordValidationError): string {
    match error
    case EmptyWhiteSpace => "Value cannot be empty or whitespace"
    case PasswordLength => "Password must be between 6 and 20 characters in length"
    case LetterAndNumber => "Password must contain at least one letter and one number"
    case UpperAndLower => "Password must contain at least one upper case and lower case letter"
    case Expected64ByteHash => "Expected 64-byte password hash"
    case Expected128ByteSalt => "Expected 128-byte password salt"
  }

  /** Reads a message back to the error it describes. */
  function ErrorOfDescription(message: string): (r: Option<PasswordValidationError>)
    ensures r.Some? ==> ToDescriptionString(r.value) == message
  {
    if message == ToDescriptionString(EmptyWhiteSpace) then Some(EmptyWhiteSpace)
    else if message == ToDescriptionString(PasswordLength) then Some(PasswordLength)
    else if message == ToDescriptionString(LetterAndNumber) then Some(LetterAndNumber)
    else if message == ToDescriptionString(UpperAndLower) then Some(UpperAndLower)
    else if message == ToDescriptionString(Expected64ByteHash) then Some(Expected64ByteHash)
    else if message == ToDescriptionString(Expected128ByteSalt) then Some(Expected128ByteSalt)
    else None
  }

  /** The six messages have six different lengths. */
  lemma MessageLengths()
    ensures |ToDescriptionString(EmptyWhiteSpace)| == 35
    ensures |ToDescriptionString(PasswordLength)| == 54
    ensures |ToDescriptionString(LetterAndNumber)| == 56
    ensures |ToDescriptionString(UpperAndLower)| == 67
    ensures |ToDescriptionString(Expected64ByteHash)| == 30
    ensures |ToDescriptionString(Expected128ByteSalt)| == 31
  {
  }

  /** Every message reads back to its own error, so no two errors share a message. */
  lemma DescriptionRoundTrip(error: PasswordValidationError)
    ensures ErrorOfDescription(ToDescriptionString(error)) == Some(error)
  {
    MessageLengths();
  }

  lemma DescriptionsDistinct(a: PasswordValidationError, b: PasswordValidationError)
    ensures ToDescriptionString(a) == ToDescriptionString(b) ==> a == b
  {
    DescriptionRoundTrip(a);
    DescriptionRoundTrip(b);
  }
}

/** The two switch tables of ErrorStringProvider. */
module ErrorStringProvider {
  import opened Enums
  import PasswordValidationDescription
  import UserValidationDescription

  function PasswordValidationErrorToString(error: PasswordValidationError): string {
    match error
    case EmptyWhiteSpace => "Value cannot be empty or whitespace"
    case PasswordLength => "Password must be between 6 and 20 characters in length"
    case LetterAndNumber => "Password must contain at least one letter and one number"
    case UpperAndLower => "Password must contain at least one upper case and lower case letter"
    case Expected64ByteHash => "Expected 64-byte password hash"
    case Expected128ByteSalt => "Expected 128-byte password salt"
  }

  function UserErrorToString(error: UserError): string {
    match error
    case EmailExists => "Email Already Exists"
  }

  /** The provider and the extension method give the same message for every error. */
  lemma PasswordMessagesAgree(error: PasswordValidationError)
    ensures PasswordValidationErrorToString(error) == PasswordValidationDescription.ToDescriptionString(error)
  {
  }

  lemma PasswordMessagesDistinct(a: PasswordValidationError, b: PasswordValidationError)
    ensures PasswordValidationErrorToString(a) == PasswordValidationErrorToString(b) ==> a == b
  {
    PasswordMessagesAgree(a);
    PasswordMessagesAgree(b);
    PasswordValidationDescription.DescriptionsDistinct(a, b);
  }

  lemma UserMessagesAgree(error: UserError)
    ensures UserErrorToString(error) == UserValidationDescription.ToDescriptionString(error)
    ensures UserErrorToString(error) == "Email Already Exists"
  {
  }
}

/** The extension method UserError.ToDescriptionString. */
module UserValidationDescription {
  import opened Enums

  function ToDescriptionString(error: UserError): string {
    match error
    case EmailExists => "Email Already Exists"
  }
}
