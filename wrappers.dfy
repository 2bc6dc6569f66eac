/** Failure-carrying values shared by the client and the server model. */
module Wrappers {

  /** JavaScript `null` / `undefined`, Python `None` and SQL NULL. */
  datatype Option<+T> = None | Some(value: T) {
    function GetOr(default: T): T {
      match this
      case Some(v) => v
      case None => default
    }
  }

  /** The outcome of a remote call or of a request handler: a value, or an
      error whose text is shown to the user. */
  datatype Result<+R, +E> = Ok(value: R) | Err(error: E)

  /** A nullable text with NULL read as the empty string: `value || ''` in
      the controller, `value or ''` on the server. */
  function OrEmpty(o: Option<string>): string {
    o.GetOr("")
  }
}
