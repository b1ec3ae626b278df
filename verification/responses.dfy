/** GenericResponse. Its `Errors` property builds a new empty list on every
    read, so nothing added through it is kept and `IsSuccessful` is always
    true. `CheckedResponse` is the response with a kept error list, the
    behaviour the error-carrying constructor evidently intends. */
module ResponseObjects {
  import opened Common

  class GenericResponse<T> {
    var responseCode: Option<int>
    var content: Option<T>

    constructor ()
      ensures responseCode == None && content == None
    {
      responseCode := None;
      content := None;
    }

    /** The error-carrying constructor: the error goes into a list that is dropped at once. */
    constructor WithError(error: string, content: Option<T>)
      ensures responseCode == None && this.content == content
    {
      responseCode := None;
      this.content := content;
      new;
      var errors := Errors();
      errors.Add(error);
    }

    /** The `Errors` property: a new empty list on each read. */
    method Errors() returns (list: MutableList<string>)
      ensures fresh(list) && list.Items == []
    {
      list := new MutableList<string>();
    }

    /** `!Errors.Any()` */
    method IsSuccessful() returns (successful: bool)
      ensures successful
    {
      var errors := Errors();
      successful := |errors.Items| == 0;
    }
  }

  /** A response built with an error still reports success and shows no errors. */
  method ErrorIsLost<T>(error: string, content: Option<T>) returns (successful: bool, errors: seq<string>)
    ensures successful && errors == []
  {
    var response := new GenericResponse<T>.WithError(error, content);
    successful := response.IsSuccessful();
    var list := response.Errors();
    errors := list.Items;
  }

  /** The response with one error list for its lifetime. */
  class CheckedResponse<T> {
    var responseCode: Option<int>
    var content: Option<T>
    const errors: MutableList<string>

    function IsSuccessful(): (successful: bool)
      reads this, errors
      ensures successful <==> |errors.Items| == 0
    {
      errors.Items == []
    }

    constructor ()
      ensures responseCode == None && content == None && errors.Items == []
    {
      responseCode := None;
      content := None;
      errors := new MutableList<string>();
    }

    constructor WithError(error: string, content: Option<T>)
      ensures responseCode == None && this.content == content && errors.Items == [error]
    {
      responseCode := None;
      this.content := content;
      errors := new MutableList<string>();
      new;
      errors.Add(error);
    }
  }

  /** A response built with an error reports failure and carries exactly that error. */
  method ErrorIsKept<T>(error: string, content: Option<T>) returns (successful: bool, errors: seq<string>)
    ensures !successful && errors == [error]
  {
    var response := new CheckedResponse<T>.WithError(error, content);
    successful := response.IsSuccessful();
    errors := response.errors.Items;
  }
}
