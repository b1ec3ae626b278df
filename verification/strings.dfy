/** The static messages and the two interpolated messages of StringUtils. */
module StringUtils {

  const GenericDatabaseError: string := "Encountered an error when connecting to the database. Please try again."
  const GenericServerError: string := "Encountered an error on the server. Please try again."
  const GenericUnauthorizedException: string := "Resource unauthorized."
  const GenericTimeoutException: string := "Connection has timed out. Please try again."

  const NotFoundPrefix: string := "Could not find "
  const NotFoundSuffix: string := "."
  const UnsupportedSuffix: string := " not supported"

  /** $"Could not find {resource}." */
  function DynamicNotFoundError(resource: string): (r: string)
    ensures |r| == |resource| + 16
    ensures r[..15] == NotFoundPrefix && r[|r| - 1..] == NotFoundSuffix
    ensures r[15..|r| - 1] == resource
  {
    NotFoundPrefix + resource + NotFoundSuffix
  }

  /** $"{mediaType} not supported" */
  function DynamicUnsupportedMediaTypeError(mediaType: string): (r: string)
    ensures |r| == |mediaType| + 14
    ensures r[..|mediaType|] == mediaType && r[|mediaType|..] == UnsupportedSuffix
  {
    mediaType + UnsupportedSuffix
  }

  /** Recovers the resource from a not-found message; the inverse of DynamicNotFoundError. */
  function NotFoundResource(message: string): (r: string)
    requires |message| >= 16
    ensures |r| == |message| - 16
  {
    message[15..|message| - 1]
  }

  lemma NotFoundRoundTrip(resource: string)
    ensures NotFoundResource(DynamicNotFoundError(resource)) == resource
  {
  }

  lemma {:induction false} NotFoundInjective(a: string, b: string)
    ensures DynamicNotFoundError(a) == DynamicNotFoundError(b) ==> a == b
  {
    if DynamicNotFoundError(a) == DynamicNotFoundError(b) {
      NotFoundRoundTrip(a);
      NotFoundRoundTrip(b);
    }
  }

  lemma {:induction false} UnsupportedMediaTypeInjective(a: string, b: string)
    ensures DynamicUnsupportedMediaTypeError(a) == DynamicUnsupportedMediaTypeError(b) ==> a == b
  {
    var ra, rb := DynamicUnsupportedMediaTypeError(a), DynamicUnsupportedMediaTypeError(b);
    if ra == rb {
      assert |a| == |b|;
      assert a == ra[..|a|] == rb[..|b|] == b;
    }
  }
}

/** The older copy of the same messages in StringResources. */
module StringResources {
  import StringUtils

  const GenericDatabaseError: string := "Encountered an error when connecting to the database. Please try again."
  const GenericServerError: string := "Encountered an error on the server. Please try again."
  const GenericUnauthorizedException: string := "Resource unauthorized."
  const GenericTimeoutException: string := "Connection has timed out. Please try again."

  /** $"Could not find {resource}." */
  function GenericNotFoundError(resource: string): (r: string)
    ensures |r| == |resource| + 16
    ensures r[..15] == "Could not find " && r[|r| - 1] == '.'
    ensures r[15..|r| - 1] == resource
  {
    "Could not find " + resource + "."
  }

  /** Both classes give the same not-found message and the same four static messages. */
  lemma AgreesWithStringUtils(resource: string)
    ensures GenericNotFoundError(resource) == StringUtils.DynamicNotFoundError(resource)
    ensures GenericDatabaseError == StringUtils.GenericDatabaseError
    ensures GenericServerError == StringUtils.GenericServerError
    ensures GenericUnauthorizedException == StringUtils.GenericUnauthorizedException
    ensures GenericTimeoutException == StringUtils.GenericTimeoutException
  {
  }

  lemma {:induction false} GenericNotFoundInjective(a: string, b: string)
    ensures GenericNotFoundError(a) == GenericNotFoundError(b) ==> a == b
  {
    AgreesWithStringUtils(a);
    AgreesWithStringUtils(b);
    StringUtils.NotFoundInjective(a, b);
  }
}
