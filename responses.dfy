/** Optional values and the two outcomes of a route handler: a body, or an
    HTTP 404 carrying its `detail` message. */
module Responses {

  datatype Option<+T> = None | Some(value: T)

  /** `NotFound(detail)` stands for `HTTPException(404, detail=...)`. */
  datatype Response<+T> = Ok(value: T) | NotFound(detail: string)

}
