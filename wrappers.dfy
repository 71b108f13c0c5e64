/** Optional values and the handlers' error outcomes. */
module Wrappers {

  datatype Option<+T> = None | Some(value: T) {
    /** The value if present, `default` otherwise: how an optional update field is applied. */
    function GetOr(default: T): (r: T)
      ensures Some? ==> r == value
      ensures None? ==> r == default
    {
      match this
      case Some(v) => v
      case None => default
    }
  }

  /** The HTTP errors the handlers raise: 404, 403 and 400 through `HTTPException`,
      and 500 for an unhandled Python exception (an attribute read on a missing row). */
  datatype Error = NotFound | Forbidden | BadRequest | Internal

  /** A handler either returns a value or raises one of the errors above. */
  datatype Result<+T> = Ok(value: T) | Err(error: Error)

  /** The status code the web framework sends for each error. */
  function StatusCode(e: Error): (code: int)
    ensures 400 <= code < 600
    ensures code == 404 <==> e == NotFound
    ensures code == 403 <==> e == Forbidden
  {
    match e
    case NotFound => 404
    case Forbidden => 403
    case BadRequest => 400
    case Internal => 500
  }
}
