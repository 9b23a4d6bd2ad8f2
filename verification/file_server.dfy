/** The request-to-response decision of the static file server: routing,
    resolution of a request path to a disk path, turning the outcome of a
    worker's file read into a response, and the `not_found.html` fallback. */
module FileServer {
  import opened Http

  /** What a read worker reports for one disk path: the whole file, a
      failed open, a failed copy, or nothing at all because the worker went
      away without sending. */
  datatype ReadOutcome = Bytes(data: seq<Byte>) | OpenFailed | ReadFailed | WorkerGone

  /** The filesystem as seen by the workers: a disk path that is not a key
      cannot be opened. */
  type FileSystem = map<string, ReadOutcome>

  const ROOT_DIR: string := "files/"
  const INDEX_PAGE: string := "index.html"
  const NOT_FOUND_PAGE: string := "not_found.html"
  const INVALID_METHOD_PAGE: string := "invalid_method.html"

  /** The handler the routing closure picks. */
  datatype Handler = Root | GetFile(file: string) | InvalidMethod

  /** The routing closure: the first matching arm wins, so `GET "/"` goes to
      the root handler and never reaches the pass-through arm. */
  function Route(verb: Method, path: string): (h: Handler)
    ensures h == Root <==> verb == Get && path == "/"
    ensures h.GetFile? <==> verb == Get && path != "/"
    ensures h.GetFile? ==> h.file == path
    ensures h == InvalidMethod <==> verb != Get
  {
    match (verb, path)
    case (Get, "/") => Root
    case (Get, file) => GetFile(file)
    case _ => InvalidMethod
  }

  /** `path_on_disk`: the root directory prefixed to the logical path, with
      no normalisation of any kind. */
  function PathOnDisk(path: string): (disk: string)
    ensures |disk| == |ROOT_DIR| + |path|
    ensures disk[..|ROOT_DIR|] == ROOT_DIR && disk[|ROOT_DIR|..] == path
  {
    ROOT_DIR + path
  }

  /** What the worker for `disk` delivers. */
  function Read(fs: FileSystem, disk: string): ReadOutcome {
    if disk in fs then fs[disk] else OpenFailed
  }

  /** `try_to_send_file`: the outer result is the channel's (an error only
      when the worker vanished), the inner one the worker's `io::Result`. */
  function TryToSendFile(fs: FileSystem, path: string): (r: Result<Result<Response, IoError>, HyperError>)
    ensures r.Err? <==> Read(fs, PathOnDisk(path)) == WorkerGone
    ensures r.Err? ==> r.error == Io(Canceled)
    ensures r.Ok? && r.value.Ok? <==> Read(fs, PathOnDisk(path)).Bytes?
    ensures r.Ok? && r.value.Ok? ==>
              var data := Read(fs, PathOnDisk(path)).data;
              r.value.value == Response(STATUS_OK, Some(|data|), data)
  {
    match Read(fs, PathOnDisk(path))
    case Bytes(buf) => Ok(Ok(WithBody(WithContentLength(NewResponse(), |buf|), buf)))
    case OpenFailed => Ok(Err(OpenError))
    case ReadFailed => Ok(Err(CopyError))
    case WorkerGone => Err(Io(Canceled))
  }

  /** The `not_found_future` of `send_file_or_404`: the `not_found.html`
      response as read, or a bare `NotFound` response when that read failed
      with an io error. A vanished worker stays an error. */
  function NotFoundFallback(fs: FileSystem): (r: Result<Response, HyperError>)
    ensures var o := Read(fs, PathOnDisk(NOT_FOUND_PAGE));
            && (o.Bytes? ==> r == Ok(Response(STATUS_OK, Some(|o.data|), o.data)))
            && (o == WorkerGone ==> r == Err(Io(Canceled)))
            && ((o == OpenFailed || o == ReadFailed) ==> r == Ok(Response(STATUS_NOT_FOUND, None, [])))
  {
    match TryToSendFile(fs, NOT_FOUND_PAGE)
    case Err(e) => Err(e)
    case Ok(result) =>
      Ok(match result
         case Ok(response) => response
         case Err(_) => WithStatus(NewResponse(), STATUS_NOT_FOUND))
  }

  /** `send_file_or_404`: the primary file's response when it was read;
      after ANY failure (open, copy or channel) the fallback's result. */
  function SendFileOr404(fs: FileSystem, path: string): (r: Result<Response, HyperError>)
    ensures var o := Read(fs, PathOnDisk(path));
            && (o.Bytes? ==> r == Ok(Response(STATUS_OK, Some(|o.data|), o.data)))
            && (!o.Bytes? ==> r == NotFoundFallback(fs))
  {
    var primary: Result<Response, HyperError> :=
      match TryToSendFile(fs, path)
      case Err(e) => Err(e)
      case Ok(result) =>
        match result
        case Ok(response) => Ok(response)
        case Err(io) => Err(Io(io));
    if primary.Ok? then primary else NotFoundFallback(fs)
  }

  /** `handle_root`: serves `files/index.html`, falling back to
      `not_found.html`. */
  function HandleRoot(fs: FileSystem): (r: Result<Response, HyperError>)
    ensures var o := Read(fs, "files/index.html");
            && (o.Bytes? ==> r == Ok(Response(STATUS_OK, Some(|o.data|), o.data)))
            && (!o.Bytes? ==> r == NotFoundFallback(fs))
  {
    assert PathOnDisk(INDEX_PAGE) == "files/index.html";
    SendFileOr404(fs, INDEX_PAGE)
  }

  /** `handle_get_file`: serves the raw path below `files/`, falling back to
      `not_found.html`. */
  function HandleGetFile(fs: FileSystem, file: string): (r: Result<Response, HyperError>)
    ensures var o := Read(fs, ROOT_DIR + file);
            && (o.Bytes? ==> r == Ok(Response(STATUS_OK, Some(|o.data|), o.data)))
            && (!o.Bytes? ==> r == NotFoundFallback(fs))
  {
    SendFileOr404(fs, file)
  }

  /** `handle_invalid_method`: the `invalid_method.html` result with only its
      status overwritten by 405; an error passes through unchanged. */
  function HandleInvalidMethod(fs: FileSystem): (r: Result<Response, HyperError>)
    ensures var inner := SendFileOr404(fs, INVALID_METHOD_PAGE);
            && r.Ok? == inner.Ok?
            && (r.Err? ==> r.error == inner.error)
            && (r.Ok? ==> r.value == inner.value.(status := STATUS_METHOD_NOT_ALLOWED))
  {
    match SendFileOr404(fs, INVALID_METHOD_PAGE)
    case Ok(response) => Ok(WithStatus(response, STATUS_METHOD_NOT_ALLOWED))
    case Err(e) => Err(e)
  }

  /** The service: route the request and run the chosen handler. A GET is
      the fallback-guarded attempt on its primary file; every other method
      is the 405 handler. */
  function Serve(fs: FileSystem, req: Request): (r: Result<Response, HyperError>)
    ensures req.verb == Get ==> r == SendFileOr404(fs, RequestedFile(req))
    ensures req.verb != Get ==> r == HandleInvalidMethod(fs)
  {
    match Route(req.verb, req.path)
    case Root => HandleRoot(fs)
    case GetFile(file) => HandleGetFile(fs, file)
    case InvalidMethod => HandleInvalidMethod(fs)
  }

  /** The logical path of a request's primary file: the one its handler
      passes to `send_file_or_404`, as opposed to the `not_found.html`
      fallback. */
  function RequestedFile(req: Request): (file: string)
    ensures req.verb != Get ==> file == INVALID_METHOD_PAGE
    ensures req.verb == Get && req.path == "/" ==> file == INDEX_PAGE
    ensures req.verb == Get && req.path != "/" ==> file == req.path
  {
    match Route(req.verb, req.path)
    case Root => INDEX_PAGE
    case GetFile(file) => file
    case InvalidMethod => INVALID_METHOD_PAGE
  }
}
