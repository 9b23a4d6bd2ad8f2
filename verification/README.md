# Static file server: request-to-response model

A model of the request handling of the small hyper file server in
`chapter-nine/src/bin/file_server.rs`. The server routes each request to a
file name: `index.html` for `GET /`, the raw path for any other GET, and
`invalid_method.html` for any other method. It then reads `files/` followed
by that name on a worker thread, and turns the read into a response. Nothing
normalises the raw path, so a `../` in it is passed through. When the file
cannot be read it falls back to `not_found.html`. For a method other than
GET, the status of the answer is forced to 405.

The model is a set of pure functions of three inputs: the request method,
the request path and an abstract filesystem. The filesystem is a map from
disk paths to what a read worker reports for that path. A worker reports the
file's bytes, a failed open, a failed copy, or nothing at all because it went
away without sending. A disk path that is not in the map cannot be opened.

- `http.dfy` (module `Http`): the parts of hyper the server uses: `Method`,
  the request, the response (status, optional `Content-Length`, body),
  `Response::new()` and its `with_*` builders, and the error types.
- `file_server.dfy` (module `FileServer`): the routing closure, the three
  handlers, `send_file_or_404` with its `not_found.html` fallback, the
  outcome-to-response logic of `try_to_send_file`, and `path_on_disk`.
- `file_server_properties.dfy` (module `FileServerProperties`): lemmas about
  the responses, over all filesystems and requests.

Two places where the code differs from how the server is usually described.
The model follows the code in both:

- A missing file whose `not_found.html` fallback can be read is answered
  with status **200**, not 404. `send_file_or_404` sets `NotFound` only on
  the `unwrap_or` default (`file_server.rs:49`). That default is used only
  when `not_found.html` itself cannot be read. See
  `FallbackPageKeepsStatus200`.
- `GET /` and `GET /index.html` are not the same request at the string
  level. The first reads `files/index.html` and the second
  `files//index.html`, because `path_on_disk` prepends `files/` to the raw
  path. They give the same answer whenever the filesystem treats the
  doubled slash as a single one (`RootMatchesIndexWhenSlashesCollapse`).
  That condition is sufficient, not necessary: two different failures at
  the two paths also give the same fallback answer.

## Model

| member | source | states |
|---|---|---|
| `FileServer.Route` | chapter-nine/src/bin/file_server.rs:20-26 | `GET "/"` and only it goes to the root handler; any other GET passes its path through unchanged; every other method goes to the invalid-method handler |
| `FileServer.PathOnDisk` | chapter-nine/src/bin/file_server.rs:88-90 | the disk path is `files/` followed by the logical path, character for character, with no normalisation |
| `FileServer.TryToSendFile` | chapter-nine/src/bin/file_server.rs:60-86 | the channel fails exactly when the worker vanished, and the error is then the cancelled channel; a response is delivered exactly when the read gave bytes, and it has status 200, the bytes as body and their count as `Content-Length` |
| `FileServer.NotFoundFallback` | chapter-nine/src/bin/file_server.rs:48-50 | a readable `not_found.html` is answered as read, with status 200; an io failure gives a bare 404 with no body and no `Content-Length`; a vanished worker stays an error |
| `FileServer.SendFileOr404` | chapter-nine/src/bin/file_server.rs:47-57 | a readable file gives status 200 with its bytes and length; any other outcome (open failure, copy failure, vanished worker) gives the fallback's result |
| `FileServer.HandleRoot` | chapter-nine/src/bin/file_server.rs:33-35 | a readable `files/index.html` is served with status 200, its bytes and their count as `Content-Length`; any failure gives the `not_found.html` result |
| `FileServer.HandleGetFile` | chapter-nine/src/bin/file_server.rs:37-39 | a readable `files/` + raw path is served with status 200, its bytes and their count as `Content-Length`; any failure gives the `not_found.html` result |
| `FileServer.HandleInvalidMethod` | chapter-nine/src/bin/file_server.rs:41-45 | it succeeds exactly when the `invalid_method.html` attempt does; only the status changes, to 405; an error passes through unchanged |
| `FileServer.Serve` | chapter-nine/src/bin/file_server.rs:20-26 | a GET is answered by the fallback-guarded attempt on its primary file; every other method by the 405 handler |
| `FileServer.RequestedFile` | chapter-nine/src/bin/file_server.rs:20-45 | the primary file a request's handler hands to `send_file_or_404` is `index.html` for `GET /`, the path itself for any other GET, and `invalid_method.html` for every other method |
| `FileServerProperties.PathOnDiskInjective` | chapter-nine/src/bin/file_server.rs:88-90 | two different logical paths never produce the same path string (on a real filesystem two strings such as `files/index.html` and `files//index.html` can still name one file) |
| `FileServerProperties.RootAndIndexReadDifferentPaths` | chapter-nine/src/bin/file_server.rs:33-39 | `GET /` reads `files/index.html` and `GET /index.html` reads `files//index.html`, two different disk paths |
| `FileServerProperties.RootMatchesIndexWhenSlashesCollapse` | chapter-nine/src/bin/file_server.rs:33-39 | `GET /` and `GET /index.html` give the same answer whenever the filesystem gives both disk paths the same outcome |
| `FileServerProperties.ReadableFileIsServed` | chapter-nine/src/bin/file_server.rs:71-79 | a GET whose file is readable is answered with status 200, the file's bytes, and a `Content-Length` equal to their number |
| `FileServerProperties.PrimaryFailureFallsBack` | chapter-nine/src/bin/file_server.rs:52-54 | a GET whose file read fails in any way is answered with the `not_found.html` result |
| `FileServerProperties.FailureKindIsInvisible` | chapter-nine/src/bin/file_server.rs:52-54 | swapping one kind of primary failure for another (open, copy, vanished worker) does not change the answer, unless the request names `not_found.html` itself |
| `FileServerProperties.FallbackPageKeepsStatus200` | chapter-nine/src/bin/file_server.rs:48-49 | a failed GET whose `not_found.html` is readable is answered with that page, its length and status 200, not 404 |
| `FileServerProperties.BothReadsFailGives404` | chapter-nine/src/bin/file_server.rs:49 | a failed GET whose `not_found.html` fails with an io error is answered 404 with an empty body and no `Content-Length` |
| `FileServerProperties.NotFoundStatusExactly` | chapter-nine/src/bin/file_server.rs:47-57 | an answer has status 404 if and only if the request is a GET, its primary read failed, and the `not_found.html` read failed with an io error |
| `FileServerProperties.OtherMethodsGive405` | chapter-nine/src/bin/file_server.rs:41-45 | any method other than GET is answered 405 whenever it is answered, with the headers and body of the `invalid_method.html` attempt |
| `FileServerProperties.ErrorOnlyWhenFallbackWorkerVanishes` | chapter-nine/src/bin/file_server.rs:48-54 | a request ends in an error exactly when its primary read failed and the `not_found.html` worker vanished, and the error is the cancelled channel |
| `FileServerProperties.ResponsesAreWellFormed` | chapter-nine/src/bin/file_server.rs:41-86 | every response has status 200, 404 or 405; 200 only for GET; 405 exactly for other methods; and either a `Content-Length` equal to the body length or an empty body, no `Content-Length` and a non-200 status |
| `FileServerProperties.HelloScenario` | chapter-nine/src/bin/file_server.rs:20-57 | with only `index.html` = "hello" on disk: `GET /` gives 200 with those 5 bytes, `GET /missing.html` a bare 404, `POST /` a bare 405 |
| `FileServerProperties.AnswerDependsOnlyOnItsReads` | chapter-nine/src/bin/file_server.rs:20-57 | two filesystems that agree on a request's primary file and on `not_found.html` give it the same answer, so a request repeated with both reads reporting the same outcomes gets the same answer |

## Left out

- Server start-up (`file_server.rs:14-17, 28-29`): parsing the address
  `[::1]:3000`, binding, running the server, and the `expect` panics when
  these fail. These are network I/O with fatal start-up errors.
- Worker threads and oneshot channels (`file_server.rs:62-63, 67, 77, 81,
  85`). A worker that ends without sending is the `WorkerGone` outcome of
  the read.
- `File::open` and `io::copy` (`file_server.rs:64, 72`). The filesystem map
  gives their result: `OpenFailed`, `ReadFailed`, or the whole file.
- The eager spawn of the `not_found.html` read in `send_file_or_404`
  (`file_server.rs:48`). It happens even when the primary read succeeds.
  That worker's `expect` on a send to a dropped receiver can panic in its
  own thread, but this has no effect on the response.
- Transient read failures. A filesystem value fixes one outcome per disk
  path, including a failed copy or a vanished worker. In the running server
  these happen to a single read, so the same request against unchanged files
  can be answered differently from one time to the next. The model does not
  capture that.
- Interleaving and timing of concurrent requests. Each request's answer is a
  function of the filesystem at the moment it is read. The model does not
  capture a file that changes between the primary read and the fallback
  read.
- `FileServer.TryToSendFile`: the `buf.len() as u64` cast in the
  `Content-Length` header is modelled as the exact length. A `Vec<u8>`
  cannot hold more than `isize::MAX` bytes, so the cast never truncates.
- hyper's response builder internals, its default headers and the
  `Box<Future>` types. A response is a plain value with a status, an
  optional `Content-Length` and a body.
