/** Values shared by every part of the file server: optional request fields,
    the error kinds a handler can answer with, directory entries and the
    outcome of one request. */
module Outcomes {

  /** A request field that may be absent (`data.get('path')` returning None). */
  datatype Option<+T> = None | Some(value: T) {
    function GetOr(default: T): T {
      match this
      case Some(v) => v
      case None => default
    }
  }

  /** The error kinds a request can end with. */
  datatype Error =
    | Unauthorized    // missing or wrong `passwd`
    | Forbidden       // secure_path aborted: the resolved path fails the prefix check
    | NotFound        // the path does not exist
    | NotADirectory   // listing something that is not a directory
    | MissingPath     // `path` field absent or empty
    | IsADirectory    // reading or writing a directory
    | ServerError     // an exception the handler does not catch

  /** The HTTP status each error kind is answered with: 401 only for the
      password gate, 403 only for the sandbox, 404 only for a missing path,
      500 only for an exception, and 400 for every other refusal. */
  function StatusOf(e: Error): (code: int)
    ensures 400 <= code <= 500
    ensures code == 401 <==> e == Unauthorized
    ensures code == 403 <==> e == Forbidden
    ensures code == 404 <==> e == NotFound
    ensures code == 500 <==> e == ServerError
    ensures code in {400, 401, 403, 404, 500}
  {
    match e
    case Unauthorized => 401
    case Forbidden => 403
    case NotFound => 404
    case NotADirectory => 400
    case MissingPath => 400
    case IsADirectory => 400
    case ServerError => 500
  }

  datatype Result<T> = Ok(value: T) | Err(error: Error)

  datatype Kind = FileKind | DirectoryKind

  /** One element of a listing's `contents`. */
  datatype Entry = Entry(name: string, kind: Kind, path: string, size: nat)

  /** The payload of a successful answer. */
  datatype Body =
    | Preflight
    | Listing(path: string, contents: seq<Entry>)
    | FileCreated(path: string)
    | ContentWritten(path: string)
    | FileContent(path: string, content: string)
    | PathDeleted(path: string, wasDirectory: bool)

  datatype Outcome = Success(code: int, body: Body) | Failure(error: Error) {
    /** The HTTP status the client receives. */
    function Status(): int {
      match this
      case Success(code, _) => code
      case Failure(e) => StatusOf(e)
    }
  }
}
