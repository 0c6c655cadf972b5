/**
 * `handle_request` of src/main.rs: a request that is not a multipart form is
 * refused before anything is read; otherwise the form goes through the upload
 * handler and its outcome becomes the status and text of the response.
 */
module Http {
  import opened Types
  import opened Paths
  import opened FileSystem
  import opened Multipart

  /** What the multipart decoder makes of a request: not a form at all, or a decoded form. */
  datatype Request = NotMultipart | MultipartRequest(form: Form)

  datatype Response = Response(status: int, body: string)

  const StatusOk: int := 200
  const StatusBadRequest: int := 400
  const StatusInternalServerError: int := 500

  const NotMultipartBody: string := "Expecting multipart/form-data"
  const NoFileBody: string := "No file in request"
  const UploadedPrefix: string := "Uploaded "

  /** The response for an upload outcome. */
  function Respond(outcome: Outcome): (resp: Response)
    ensures resp.status == StatusOk <==> outcome.Ok? && outcome.value.Some?
    ensures resp.status == StatusBadRequest <==> outcome == Ok(None)
    ensures resp.status == StatusInternalServerError <==> outcome.Err?
    ensures outcome.Err? ==> resp.body == ""
  {
    match outcome
    case Ok(Some(path)) => Response(StatusOk, UploadedPrefix + path)
    case Ok(None) => Response(StatusBadRequest, NoFileBody)
    case Err(_) => Response(StatusInternalServerError, "")
  }

  /** The refusal of a request that is not a multipart form. */
  function RefuseNotMultipart(): (resp: Response)
    ensures resp.status == StatusBadRequest && resp.body != NoFileBody
  {
    Response(StatusBadRequest, NotMultipartBody)
  }

  /**
   * `handle_request`: a request that is not multipart is answered 400 and
   * leaves the files alone; a form is handled by `HandleMultipart` and its
   * outcome is answered by `Respond`.
   */
  method HandleRequest(root: Path, req: Request, token: string, io: IoFaults, files: Files)
    returns (resp: Response, after: Files)
    requires IsSimpleUuid(token)
    ensures req.NotMultipart? ==> resp == RefuseNotMultipart() && after == files
    ensures req.MultipartRequest? ==>
      var (outcome, written) := Upload(root, req.form, token, io, files);
      resp == Respond(outcome) && after == written
  {
    match req
    case NotMultipart =>
      resp, after := RefuseNotMultipart(), files;
    case MultipartRequest(form) =>
      var outcome;
      outcome, after := HandleMultipart(root, form, token, io, files);
      resp := Respond(outcome);
  }

  /** What a client learns from a response. */
  datatype Reading = Stored(path: Path) | NoFile | NotAForm | ServerError | Unrecognised

  /** The client's reading of a response: the status first, then the text. */
  function Read(resp: Response): Reading {
    if resp.status == StatusOk && IsPrefix(UploadedPrefix, resp.body) then Stored(resp.body[|UploadedPrefix|..])
    else if resp.status == StatusBadRequest && resp.body == NoFileBody then NoFile
    else if resp.status == StatusBadRequest && resp.body == NotMultipartBody then NotAForm
    else if resp.status == StatusInternalServerError then ServerError
    else Unrecognised
  }

  /**
   * Every response the server gives can be read back: the stored relative name
   * is recovered from a success, and the two kinds of 400 are told apart by their text.
   */
  lemma ResponsesAreReadable(outcome: Outcome)
    ensures Read(RefuseNotMultipart()) == NotAForm
    ensures outcome.Ok? && outcome.value.Some? ==> Read(Respond(outcome)) == Stored(outcome.value.value)
    ensures outcome == Ok(None) ==> Read(Respond(outcome)) == NoFile
    ensures outcome.Err? ==> Read(Respond(outcome)) == ServerError
  {
    if outcome.Ok? && outcome.value.Some? {
      var body := UploadedPrefix + outcome.value.value;
      assert body[..|UploadedPrefix|] == UploadedPrefix;
      assert body[|UploadedPrefix|..] == outcome.value.value;
    }
  }

  /**
   * End to end: a request answered 200 stored the first "file" field's chunks, in
   * order, under the name the response reports, and changed no other path.
   */
  lemma OkMeansStored(root: Path, req: Request, token: string, io: IoFaults, files: Files, path: Path)
    requires IsSimpleUuid(token)
    requires req.MultipartRequest?
    requires Read(Respond(Upload(root, req.form, token, io, files).0)) == Stored(path)
    ensures FirstFileField(req.form.fields).Some?
    ensures Upload(root, req.form, token, io, files).1
         == files[Join(root, path) := Concat(req.form.fields[FirstFileField(req.form.fields).value].chunks)]
    ensures IsNormalComponent(path) && FileName(Join(root, path)) == Some(path)
    ensures Components(Join(root, path)) == Components(root) + [path]
  {
    var outcome := Upload(root, req.form, token, io, files).0;
    ResponsesAreReadable(outcome);
    assert outcome.Ok? && outcome.value.Some?;
    assert outcome.value.value == path;
    StoredFileHoldsChunks(root, req.form, token, io, files, path);
    var field := req.form.fields[FirstFileField(req.form.fields).value];
    StoredNameStaysInRoot(root, token, field.filename);
  }
}
