/** The small part of hyper's HTTP types that the file server touches:
    request methods, status codes, a response with an optional
    `Content-Length` header and a byte body, and the error type of a
    response future. */
module Http {

  type Byte = bv8

  /** Success or failure of a future or of an `io::Result`. */
  datatype Result<+T, +E> = Ok(value: T) | Err(error: E)

  /** hyper's `Method` enumeration. */
  datatype Method =
    | Options | Get | Post | Put | Delete | Head | Trace | Connect | Patch
    | Extension(name: string)

  /** A request as the routing closure sees it: its verb and its path. */
  datatype Request = Request(verb: Method, path: string)

  const STATUS_OK: nat := 200
  const STATUS_NOT_FOUND: nat := 404
  const STATUS_METHOD_NOT_ALLOWED: nat := 405

  /** A response: its status code, the `Content-Length` header if one was
      set, and the body. */
  datatype Response = Response(status: nat, contentLength: Option<nat>, body: seq<Byte>)

  datatype Option<+T> = None | Some(value: T)

  /** Why a file could not be delivered: `File::open` failed, `io::copy`
      failed, or the worker's oneshot sender was dropped (the receiver's
      `Canceled`, wrapped as an `io::Error` of kind `Other`). */
  datatype IoError = OpenError | CopyError | Canceled

  /** `hyper::Error`; every one the server produces comes from an `io::Error`. */
  datatype HyperError = Io(cause: IoError)

  /** `Response::new()`: status 200, no headers, empty body. */
  function NewResponse(): Response {
    Response(STATUS_OK, None, [])
  }

  /** `response.with_status(status)`: replaces the status only. */
  function WithStatus(r: Response, status: nat): Response {
    r.(status := status)
  }

  /** `response.with_header(ContentLength(n))`. */
  function WithContentLength(r: Response, n: nat): Response {
    r.(contentLength := Some(n))
  }

  /** `response.with_body(body)`. */
  function WithBody(r: Response, body: seq<Byte>): Response {
    r.(body := body)
  }
}
