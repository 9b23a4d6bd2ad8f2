/** What the file server promises about the responses it gives, stated over
    every filesystem and every request. */
module FileServerProperties {
  import opened Http
  import opened FileServer

  /** Distinct logical paths never produce the same path string. (This is
      about strings: an operating system may still open one file under two
      strings, such as `files/index.html` and `files//index.html`.) */
  lemma PathOnDiskInjective(a: string, b: string)
    requires PathOnDisk(a) == PathOnDisk(b)
    ensures a == b
  {
  }

  /** `GET /` reads `files/index.html`, while `GET /index.html` reads
      `files//index.html`: the resolver does not collapse the slash, so the
      two are different disk paths. */
  lemma RootAndIndexReadDifferentPaths()
    ensures PathOnDisk(RequestedFile(Request(Get, "/"))) == "files/index.html"
    ensures PathOnDisk(RequestedFile(Request(Get, "/index.html"))) == "files//index.html"
    ensures PathOnDisk(RequestedFile(Request(Get, "/"))) != PathOnDisk(RequestedFile(Request(Get, "/index.html")))
  {
  }

  /** `GET /` and `GET /index.html` answer alike whenever the filesystem
      gives the two disk paths the same outcome, as an operating system that
      treats a doubled slash as a single one does. */
  lemma RootMatchesIndexWhenSlashesCollapse(fs: FileSystem)
    requires Read(fs, "files/index.html") == Read(fs, "files//index.html")
    ensures Serve(fs, Request(Get, "/")) == Serve(fs, Request(Get, "/index.html"))
  {
    assert PathOnDisk(INDEX_PAGE) == "files/index.html";
    assert PathOnDisk("/index.html") == "files//index.html";
  }

  /** A readable file is served as it is: status 200, the file's bytes, and a
      `Content-Length` equal to their number. */
  lemma ReadableFileIsServed(fs: FileSystem, req: Request, data: seq<Byte>)
    requires req.verb == Get
    requires Read(fs, PathOnDisk(RequestedFile(req))) == Bytes(data)
    ensures Serve(fs, req) == Ok(Response(STATUS_OK, Some(|data|), data))
  {
  }

  /** Any failure of the primary read, whatever its kind, gives the
      `not_found.html` result. */
  lemma PrimaryFailureFallsBack(fs: FileSystem, req: Request)
    requires req.verb == Get
    requires !Read(fs, PathOnDisk(RequestedFile(req))).Bytes?
    ensures Serve(fs, req) == NotFoundFallback(fs)
  {
  }

  /** The kind of primary failure is not visible in the answer: replacing one
      failure by another leaves the response unchanged. The request must not
      name `not_found.html` itself, whose read then doubles as the fallback. */
  lemma FailureKindIsInvisible(fs: FileSystem, req: Request, o1: ReadOutcome, o2: ReadOutcome)
    requires RequestedFile(req) != NOT_FOUND_PAGE
    requires !o1.Bytes? && !o2.Bytes?
    ensures var disk := PathOnDisk(RequestedFile(req));
            Serve(fs[disk := o1], req) == Serve(fs[disk := o2], req)
  {
  }

  /** When the requested file cannot be read but `not_found.html` can, the
      answer is that page with the default status 200, not 404. */
  lemma FallbackPageKeepsStatus200(fs: FileSystem, req: Request, page: seq<Byte>)
    requires req.verb == Get
    requires !Read(fs, PathOnDisk(RequestedFile(req))).Bytes?
    requires Read(fs, PathOnDisk(NOT_FOUND_PAGE)) == Bytes(page)
    ensures Serve(fs, req) == Ok(Response(STATUS_OK, Some(|page|), page))
  {
  }

  /** When `not_found.html` also fails with an io error the status is 404,
      the body is empty and there is no `Content-Length`. */
  lemma BothReadsFailGives404(fs: FileSystem, req: Request)
    requires req.verb == Get
    requires !Read(fs, PathOnDisk(RequestedFile(req))).Bytes?
    requires Read(fs, PathOnDisk(NOT_FOUND_PAGE)) in {OpenFailed, ReadFailed}
    ensures Serve(fs, req) == Ok(Response(STATUS_NOT_FOUND, None, []))
  {
  }

  /** A 404 answer comes from exactly one situation: a GET whose primary
      read failed and whose `not_found.html` read failed with an io error. */
  lemma NotFoundStatusExactly(fs: FileSystem, req: Request)
    ensures (Serve(fs, req).Ok? && Serve(fs, req).value.status == STATUS_NOT_FOUND) <==>
              && req.verb == Get
              && !Read(fs, PathOnDisk(RequestedFile(req))).Bytes?
              && Read(fs, PathOnDisk(NOT_FOUND_PAGE)) in {OpenFailed, ReadFailed}
  {
  }

  /** Every method other than GET is answered 405 (whenever it is answered),
      with the headers and body of the `invalid_method.html` attempt. */
  lemma OtherMethodsGive405(fs: FileSystem, req: Request)
    requires req.verb != Get
    ensures var inner := SendFileOr404(fs, INVALID_METHOD_PAGE);
            && Serve(fs, req).Ok? == inner.Ok?
            && (inner.Ok? ==> Serve(fs, req) == Ok(inner.value.(status := STATUS_METHOD_NOT_ALLOWED)))
  {
  }

  /** A request ends in an error instead of a response exactly when its
      primary read failed and the `not_found.html` worker vanished; the error
      is then the cancelled channel. */
  lemma ErrorOnlyWhenFallbackWorkerVanishes(fs: FileSystem, req: Request)
    ensures Serve(fs, req).Err? <==>
              !Read(fs, PathOnDisk(RequestedFile(req))).Bytes?
              && Read(fs, PathOnDisk(NOT_FOUND_PAGE)) == WorkerGone
    ensures Serve(fs, req).Err? ==> Serve(fs, req).error == Io(Canceled)
  {
  }

  /** Every response carries 200, 404 or 405; 200 only for GET; and either a
      `Content-Length` equal to the body's length or an empty body with no
      `Content-Length` and a 404 or 405 status. */
  lemma ResponsesAreWellFormed(fs: FileSystem, req: Request)
    requires Serve(fs, req).Ok?
    ensures var r := Serve(fs, req).value;
            && r.status in {STATUS_OK, STATUS_NOT_FOUND, STATUS_METHOD_NOT_ALLOWED}
            && (r.status == STATUS_OK ==> req.verb == Get)
            && (r.status == STATUS_METHOD_NOT_ALLOWED <==> req.verb != Get)
            && (r.contentLength == Some(|r.body|)
                || (r.contentLength == None && r.body == [] && r.status != STATUS_OK))
  {
  }

  /** A root holding only `index.html` = "hello": `GET /` gives 200 with the
      five bytes, `GET /missing.html` a bare 404, and `POST /` a bare 405. */
  lemma HelloScenario()
    ensures var hello: seq<Byte> := [0x68, 0x65, 0x6c, 0x6c, 0x6f];
            var fs: FileSystem := map["files/index.html" := Bytes(hello)];
            && Serve(fs, Request(Get, "/")) == Ok(Response(STATUS_OK, Some(5), hello))
            && Serve(fs, Request(Get, "/missing.html")) == Ok(Response(STATUS_NOT_FOUND, None, []))
            && Serve(fs, Request(Post, "/")) == Ok(Response(STATUS_METHOD_NOT_ALLOWED, None, []))
  {
  }

  /** An answer depends on nothing but the outcomes of its two reads: two
      filesystems that agree on the request's primary file and on
      `not_found.html` give the same answer, so repeating a request whose two
      reads report the same outcomes repeats the answer. */
  lemma AnswerDependsOnlyOnItsReads(fs1: FileSystem, fs2: FileSystem, req: Request)
    requires Read(fs1, PathOnDisk(RequestedFile(req))) == Read(fs2, PathOnDisk(RequestedFile(req)))
    requires Read(fs1, PathOnDisk(NOT_FOUND_PAGE)) == Read(fs2, PathOnDisk(NOT_FOUND_PAGE))
    ensures Serve(fs1, req) == Serve(fs2, req)
  {
  }
}
