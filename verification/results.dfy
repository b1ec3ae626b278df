/** The two validation-result classes of the service model. Each exposes a
    get-only `Errors` list (a `const` reference here: the list object is never
    replaced, only appended to) and computes `IsValid` from it. */
module ValidationResults {
  import opened Common

  class PasswordValidationResult {
    const Errors: MutableList<string>

    predicate IsValid()
      reads this, Errors
    {
      |Errors.Items| == 0
    }

    constructor ()
      ensures fresh(Errors) && Errors.Items == []
      ensures IsValid()
    {
      Errors := new MutableList<string>();
    }
  }

  /** Adding a message to a result's list leaves it invalid, with the message last. */
  twostate lemma PasswordErrorAddedInvalidates(r: PasswordValidationResult, message: string)
    requires r.Errors.Items == old(r.Errors.Items) + [message]
    ensures !r.IsValid() && r.Errors.Items[|r.Errors.Items| - 1] == message
  {
  }

  class UserValidationResult {
    const Errors: MutableList<string>

    predicate IsValid()
      reads this, Errors
    {
      |Errors.Items| == 0
    }

    constructor ()
      ensures fresh(Errors) && Errors.Items == []
      ensures IsValid()
    {
      Errors := new MutableList<string>();
    }
  }

  twostate lemma UserErrorAddedInvalidates(r: UserValidationResult, message: string)
    requires r.Errors.Items == old(r.Errors.Items) + [message]
    ensures !r.IsValid() && r.Errors.Items[|r.Errors.Items| - 1] == message
  {
  }
}
