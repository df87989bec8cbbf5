/**
 * The exceptions the services raise. The JavaScript hierarchy (ClientError and
 * its four subclasses, plus the built-in Error) becomes one closed datatype.
 */
module Errors {

  import opened Wrappers

  datatype Error =
    | ClientError(message: string, statusCode: int)
    | AuthenticationError(message: string)
    | AuthorizationError(message: string)
    | InvariantError(message: string)
    | NotFoundError(message: string)
      /** A plain `Error`: a driver failure or a message wrapped by a catch block. */
    | PlainError(message: string)
  {
    /** Whether the error is a ClientError, i.e. one the HTTP layer answers with its status code. */
    predicate IsClient() {
      !PlainError?
    }

    /** The `statusCode` property; a plain Error has none. */
    function StatusCode(): (code: Option<int>)
      ensures code.Some? <==> IsClient()
      ensures AuthenticationError? ==> code == Some(401)
      ensures AuthorizationError? ==> code == Some(403)
      ensures NotFoundError? ==> code == Some(404)
      ensures InvariantError? ==> code == Some(400)
      ensures ClientError? ==> code == Some(statusCode)
    {
      match this
      case ClientError(_, c) => Some(c)
      case AuthenticationError(_) => Some(401)
      case AuthorizationError(_) => Some(403)
      case InvariantError(_) => Some(ClientDefaultStatus)
      case NotFoundError(_) => Some(404)
      case PlainError(_) => None
    }

    /** The `name` property each class sets in its constructor; only a plain Error is named "Error". */
    function Name(): (n: string)
      ensures n == "Error" <==> !IsClient()
    {
      match this
      case ClientError(_, _) => "Client Error"
      case AuthenticationError(_) => "Authentication Error"
      case AuthorizationError(_) => "Authorization Error"
      case InvariantError(_) => "Invariant Error"
      case NotFoundError(_) => "NotFound Error"
      case PlainError(_) => "Error"
    }
  }

  /** The status code a ClientError gets when its constructor is given none. */
  const ClientDefaultStatus := 400

  /** `new ClientError(message, statusCode)`, where an omitted status code defaults. */
  function NewClientError(message: string, statusCode: Option<int>): (e: Error)
    ensures e.IsClient() && e.message == message
    ensures statusCode.None? ==> e.StatusCode() == Some(400)
    ensures statusCode.Some? ==> e.StatusCode() == statusCode
  {
    ClientError(message, statusCode.GetOr(ClientDefaultStatus))
  }

  /** The two errors are instances of the same class. */
  predicate SameClass(a: Error, b: Error) {
    || (a.ClientError? && b.ClientError?)
    || (a.AuthenticationError? && b.AuthenticationError?)
    || (a.AuthorizationError? && b.AuthorizationError?)
    || (a.InvariantError? && b.InvariantError?)
    || (a.NotFoundError? && b.NotFoundError?)
    || (a.PlainError? && b.PlainError?)
  }

  /** The `name` property tells the classes apart: equal names, same class. */
  lemma NameIdentifiesClass(a: Error, b: Error)
    ensures a.Name() == b.Name() <==> SameClass(a, b)
  {
  }

  /** What an async service method resolves to: a value, or the exception it throws. */
  datatype Result<+T> = Ok(value: T) | Err(error: Error)

  /** What a service method that returns nothing resolves to. */
  datatype Outcome = Pass | Fail(error: Error)
}
