/** Shapes shared by the four request handlers: an optional value, the shape a
    request-body field arrives in, and the response a handler sends back. */
module Boundary {

  datatype Option<+T> = None | Some(value: T)

  /** A request-body field that should hold a JSON array.  `Absent` stands for
      every falsy value (missing, `null`, `false`, `0`, `""`), `NotArray` for a
      truthy value that is not an array, `Array` for an array. */
  datatype Payload<+T> = Absent | NotArray | Array(items: seq<T>)

  /** What a handler answers: a 200 with a body, a 400 with the handler's
      message, or a 500 when the handler throws before answering. */
  datatype Response<+T> = Ok(body: T) | BadRequest(message: string) | ServerError
}
