/** Nullable values and the outcome of a controller action. */
module Responses {

  /** A value that may be absent; `None` plays the part of a C# `null`. */
  datatype Option<+T> = None | Some(value: T)

  /** The result of an action: a value, or the 404 response the action throws
      (`HttpResponseException(HttpStatusCode.NotFound)`). */
  datatype Response<+T> = Ok(value: T) | NotFound
}
