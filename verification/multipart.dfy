/**
 * `handle_multipart` of src/main.rs: walk the decoded form fields in arrival order,
 * skip every field not named "file", and stream the first "file" field to a fresh
 * name under the upload root.  The form arrives already decoded; its field stream
 * and each field's chunk stream may end with an error.  The random token, the
 * filesystem and its failures are inputs.
 */
module Multipart {
  import opened Types
  import opened Paths
  import opened FileSystem

  /** A failure of the request body stream as the multipart decoder reports it. */
  datatype StreamError = StreamError(reason: string)

  /** How a lazily read stream stopped: it ran out, or it reported an error. */
  datatype StreamEnd = Finished | Broken(cause: StreamError)

  /**
   * One decoded form field: its name, the client's filename if any, its data
   * chunks in arrival order, and how its data stream stopped.  The handler reads
   * the data of the "file" field it stores; the data of a field it skips is
   * drained by the decoder inside the next `next_field`, so a break there is
   * reported as an error of the field stream.
   */
  datatype Field = Field(name: string, filename: Option<string>, chunks: seq<Bytes>, dataEnd: StreamEnd)

  /** A multipart form: its fields in arrival order and how the field stream stopped after them. */
  datatype Form = Form(fields: seq<Field>, fieldsEnd: StreamEnd)

  /** The environment's answer to the file operations: whether creating fails, and which chunk writes fail. */
  datatype IoFaults = IoFaults(create: Option<IoError>, writes: map<nat, WriteFault>)

  /** Why processing a form aborted; one variant per `?` in the handler. */
  datatype UploadError =
    | NextField(cause: StreamError)
    | CreatingFile(path: Path, ioCause: IoError)
    | NextChunk(cause: StreamError)
    | WritingFile(path: Path, ioCause: IoError)

  /** `Ok(Some(name))` for a stored file, `Ok(None)` for a form without a "file" field. */
  type Outcome = Result<Option<Path>, UploadError>

  const FileFieldName: string := "file"
  const DefaultExtension: string := "pdf"

  predicate IsLowerHexDigit(c: char) {
    ('0' <= c <= '9') || ('a' <= c <= 'f')
  }

  /** The text of `Uuid::to_simple`: 32 lower-case hexadecimal digits. */
  predicate IsSimpleUuid(t: string) {
    |t| == 32 && forall k :: 0 <= k < |t| ==> IsLowerHexDigit(t[k])
  }

  /** A token is a bare name: one normal component without any '.'. */
  lemma SimpleUuidIsBareName(t: string)
    requires IsSimpleUuid(t)
    ensures IsNormalComponent(t) && '.' !in t
  {
    assert IsLowerHexDigit(t[0]);
    assert IsLowerHexDigit(t[1]);
  }

  /** Index of the first field named "file". */
  function FirstFileField(fields: seq<Field>): (i: Option<nat>)
    ensures i.None? <==> forall k :: 0 <= k < |fields| ==> fields[k].name != FileFieldName
    ensures i.Some? ==> i.value < |fields| && fields[i.value].name == FileFieldName
    ensures i.Some? ==> forall k :: 0 <= k < i.value ==> fields[k].name != FileFieldName
    decreases |fields|
  {
    if |fields| == 0 then None
    else if fields[0].name == FileFieldName then Some(0)
    else
      match FirstFileField(fields[1..])
      case None =>
        assert forall k :: 1 <= k < |fields| ==> fields[k] == fields[1..][k - 1];
        None
      case Some(j) =>
        assert forall k :: 1 <= k <= j + 1 ==> fields[k] == fields[1..][k - 1];
        Some(j + 1)
  }

  /** The first "file" field is found from the fields up to and including it alone. */
  lemma FirstFileFieldOfPrefix(fields: seq<Field>, other: seq<Field>, i: nat)
    requires FirstFileField(fields) == Some(i)
    requires i < |other| && other[..i + 1] == fields[..i + 1]
    ensures FirstFileField(other) == Some(i)
  {
    forall k | 0 <= k <= i ensures other[k] == fields[k] {
      assert other[k] == other[..i + 1][k];
    }
  }

  /** The number of fields skipped ahead of the first "file" field: all of them when there is none. */
  function SkippedCount(fields: seq<Field>): (n: nat)
    ensures n <= |fields|
    ensures forall k :: 0 <= k < n ==> fields[k].name != FileFieldName
    ensures n < |fields| <==> FirstFileField(fields).Some?
    ensures n < |fields| ==> FirstFileField(fields) == Some(n)
  {
    match FirstFileField(fields)
    case None => |fields|
    case Some(i) => i
  }

  /** Index of the first field whose data stream broke. */
  function FirstBroken(fields: seq<Field>): (k: Option<nat>)
    ensures k.None? <==> forall j :: 0 <= j < |fields| ==> fields[j].dataEnd == Finished
    ensures k.Some? ==> k.value < |fields| && fields[k.value].dataEnd.Broken?
    ensures k.Some? ==> forall j :: 0 <= j < k.value ==> fields[j].dataEnd == Finished
    decreases |fields|
  {
    if |fields| == 0 then None
    else if fields[0].dataEnd.Broken? then Some(0)
    else
      match FirstBroken(fields[1..])
      case None =>
        assert forall j :: 1 <= j < |fields| ==> fields[j] == fields[1..][j - 1];
        None
      case Some(j) =>
        assert forall i :: 1 <= i <= j + 1 ==> fields[i] == fields[1..][i - 1];
        Some(j + 1)
  }

  /** Every field skipped ahead of the first "file" field was drained without error. */
  predicate SkippedCleanly(fields: seq<Field>) {
    forall k :: 0 <= k < SkippedCount(fields) ==> fields[k].dataEnd == Finished
  }

  /** A break while draining a skipped field is the first break of the form, and comes before the first "file" field. */
  lemma BrokenWhileSkipping(fields: seq<Field>)
    ensures SkippedCleanly(fields) <==> !(FirstBroken(fields).Some? && FirstBroken(fields).value < SkippedCount(fields))
  {
  }

  /** Two field lists that agree on their first `m` fields agree on whether, and where, a break occurs among them. */
  lemma FirstBrokenOfPrefix(fields: seq<Field>, other: seq<Field>, m: nat)
    requires m <= |fields| && m <= |other| && fields[..m] == other[..m]
    ensures (FirstBroken(fields).Some? && FirstBroken(fields).value < m) <==>
            (FirstBroken(other).Some? && FirstBroken(other).value < m)
    ensures FirstBroken(fields).Some? && FirstBroken(fields).value < m ==> FirstBroken(fields) == FirstBroken(other)
  {
    forall j | 0 <= j < m ensures fields[j] == other[j] {
      assert fields[j] == fields[..m][j];
      assert other[j] == other[..m][j];
    }
  }

  /**
   * The extension for the stored name: the extension of the client filename's
   * last component when there is one, and "pdf" otherwise.  It is copied
   * as sent, without any change of case.
   */
  function UploadExtension(filename: Option<string>): (ext: string)
    ensures '.' !in ext && Separator !in ext
  {
    match filename
    case None => DefaultExtension
    case Some(f) =>
      match PathExtension(f)
      case None => DefaultExtension
      case Some(e) => e
  }

  /** A name has a '.' somewhere after its first character. */
  predicate HasInnerDot(name: string) {
    exists i :: 0 < i < |name| && name[i] == '.'
  }

  /**
   * The extension rule stated over the client's text: when the last component of
   * the client filename holds a '.' after its first character, the extension is
   * what follows its last '.'; in every other case, no filename included, it is "pdf".
   */
  lemma UploadExtensionRule(filename: Option<string>)
    ensures var ext := UploadExtension(filename);
      (filename.Some? && FileName(filename.value).Some? && HasInnerDot(FileName(filename.value).value)) ==>
        exists stem :: stem != "" && FileName(filename.value).value == stem + "." + ext
    ensures (filename.None? || FileName(filename.value).None? || !HasInnerDot(FileName(filename.value).value)) ==>
      UploadExtension(filename) == DefaultExtension
  {
    if filename.Some? && FileName(filename.value).Some? {
      var n := FileName(filename.value).value;
      ExtensionExists(n);
      if HasInnerDot(n) {
        ExtensionSplitsName(n);
        var stem := FileStem(n);
        assert n == stem + "." + UploadExtension(filename);
      }
    }
  }

  /** The client's extension is kept as sent: "report.PDF" gives "PDF", not "pdf". */
  lemma ExtensionCaseIsKept()
    ensures UploadExtension(Some("report.PDF")) == "PDF"
  {
    var name := "report.PDF";
    assert IsNormalComponent(name);
    NormalComponentIsFileName(name);
    assert PathExtension(name) == Extension(name);
    assert "report" + "." + "PDF" == name;
    ExtensionOfStemDotExt("report", "PDF");
  }

  /**
   * Whatever directories the client filename names before its last component,
   * "../../etc" included, only the last component's extension reaches the
   * stored name: "../../etc/cron.d" gives "d".
   */
  lemma TraversalKeepsOnlyExtension(dirs: Path, stem: string, ext: string)
    requires stem != "" && '.' !in ext
    requires Separator !in stem && Separator !in ext && stem + "." + ext != ".."
    ensures UploadExtension(Some(Join(dirs, stem + "." + ext))) == ext
  {
    var last := stem + "." + ext;
    assert Separator !in last;
    JoinNormalComponent(dirs, last);
    ExtensionOfStemDotExt(stem, ext);
  }

  /**
   * A client filename whose last component has no '.' gets the default
   * extension, whatever directories precede it: "../../etc/passwd" gives "pdf".
   */
  lemma TraversalWithoutDotGetsDefault(dirs: Path, last: string)
    requires IsNormalComponent(last) && '.' !in last
    ensures UploadExtension(Some(Join(dirs, last))) == DefaultExtension
  {
    JoinNormalComponent(dirs, last);
  }

  /** The name the upload is stored under: the token, with the upload extension unless that is empty. */
  function StoredName(token: string, filename: Option<string>): (name: string)
    requires IsSimpleUuid(token)
    ensures IsNormalComponent(name) && IsPrefix(token, name)
    ensures UploadExtension(filename) == "" ==> name == token
    ensures UploadExtension(filename) != "" ==>
      Extension(name) == Some(UploadExtension(filename)) && FileStem(name) == token
  {
    SimpleUuidIsBareName(token);
    WithExtensionRoundTrip(token, UploadExtension(filename));
    WithExtension(token, UploadExtension(filename))
  }

  /**
   * Whatever the client sends as filename, the stored name is one normal component
   * that starts with the token and carries the chosen extension, so joining it onto
   * the root gives a path directly inside the root.
   */
  lemma StoredNameStaysInRoot(root: Path, token: string, filename: Option<string>)
    requires IsSimpleUuid(token)
    ensures var name := StoredName(token, filename);
      && IsNormalComponent(name)
      && IsPrefix(token, name)
      && (UploadExtension(filename) == "" ==> name == token)
      && (UploadExtension(filename) != "" ==> Extension(name) == Some(UploadExtension(filename)))
      && (UploadExtension(filename) != "" ==> FileStem(name) == token)
      && (UploadExtension(filename) != "" ==> name == token + "." + UploadExtension(filename))
      && Components(Join(root, name)) == Components(root) + [name]
      && FileName(Join(root, name)) == Some(name)
  {
    SimpleUuidIsBareName(token);
    var ext := UploadExtension(filename);
    WithExtensionRoundTrip(token, ext);
    JoinNormalComponent(root, StoredName(token, filename));
  }

  /** Create the file for `field` under `root` and stream its chunks into it. */
  function StoreField(root: Path, field: Field, token: string, io: IoFaults, files: Files): (Outcome, Files)
    requires IsSimpleUuid(token)
  {
    var name := StoredName(token, field.filename);
    var path := Join(root, name);
    match Create(files, path, io.create)
    case Err(e) => (Err(CreatingFile(path, e)), files)
    case Ok(created) =>
      var (written, err) := WriteChunks(created, path, field.chunks, 0, io.writes);
      if err.Some? then (Err(WritingFile(path, err.value)), written)
      else if field.dataEnd.Broken? then (Err(NextChunk(field.dataEnd.cause)), written)
      else (Ok(Some(name)), written)
  }

  /**
   * The outcome of a form and the files it leaves: a break while draining a
   * skipped field ends the call with that error; otherwise the first "file"
   * field is stored, or the field stream's own ending decides.
   */
  function Upload(root: Path, form: Form, token: string, io: IoFaults, files: Files): (Outcome, Files)
    requires IsSimpleUuid(token)
  {
    var broken := FirstBroken(form.fields);
    if broken.Some? && broken.value < SkippedCount(form.fields) then
      (Err(NextField(form.fields[broken.value].dataEnd.cause)), files)
    else
    match FirstFileField(form.fields)
    case None =>
      (if form.fieldsEnd.Finished? then Ok(None) else Err(NextField(form.fieldsEnd.cause)), files)
    case Some(i) => StoreField(root, form.fields[i], token, io, files)
  }

  /**
   * The inner loop of `handle_multipart`: read the field's chunks one at a time
   * and write each with `write_all` before reading the next, stopping at the
   * first failing write.
   */
  method WriteField(files: Files, path: Path, chunks: seq<Bytes>, writes: map<nat, WriteFault>)
    returns (after: Files, err: Option<IoError>)
    requires path in files
    ensures (after, err) == WriteChunks(files, path, chunks, 0, writes)
  {
    after := files;
    var j := 0;
    while j < |chunks|
      invariant 0 <= j <= |chunks|
      invariant path in after
      invariant WriteChunks(files, path, chunks, 0, writes) == WriteChunks(after, path, chunks[j..], j, writes)
    {
      var (next, e) := WriteAll(after, path, chunks[j], FaultAt(writes, j));
      assert chunks[j..][1..] == chunks[j + 1..];
      if e.Some? {
        return next, e;
      }
      after := next;
      j := j + 1;
    }
    err := None;
  }

  /**
   * The body of `handle_multipart` for the first "file" field: name it, create its
   * file, write it.  It stores the chunks under the token's name exactly when
   * nothing fails; otherwise it reports the first failure, and in every case it
   * changes no path but the one it creates.
   */
  method StoreUpload(root: Path, field: Field, token: string, io: IoFaults, files: Files)
    returns (outcome: Outcome, after: Files)
    requires IsSimpleUuid(token)
    ensures (outcome, after) == StoreField(root, field, token, io, files)
    ensures var path := Join(root, StoredName(token, field.filename));
      && OnlyChanged(files, after, path)
      && (outcome.Ok? <==> io.create.None? && WritesSucceed(field.chunks, 0, io.writes) && field.dataEnd == Finished)
      && (outcome.Ok? ==>
            outcome == Ok(Some(StoredName(token, field.filename))) && after == files[path := Concat(field.chunks)])
      && (io.create.Some? ==> outcome == Err(CreatingFile(path, io.create.value)) && after == files)
      && (io.create.None? && !WritesSucceed(field.chunks, 0, io.writes) ==>
            && outcome == Err(WritingFile(path, io.writes[FirstFailedWrite(field.chunks, 0, io.writes).value].cause))
            && path in after && |after[path]| < |Concat(field.chunks)| && IsPrefix(after[path], Concat(field.chunks)))
      && (io.create.None? && WritesSucceed(field.chunks, 0, io.writes) && field.dataEnd.Broken? ==>
            outcome == Err(NextChunk(field.dataEnd.cause)) && after == files[path := Concat(field.chunks)])
  {
    var filename := StoredName(token, field.filename);
    var path := Join(root, filename);
    var created := Create(files, path, io.create);
    if created.Err? {
      return Err(CreatingFile(path, created.error)), files;
    }
    var err;
    after, err := WriteField(created.value, path, field.chunks, io.writes);
    OnlyChangedTrans(files, created.value, after, path);
    assert created.value[path] + Concat(field.chunks) == Concat(field.chunks);
    if err.None? {
      OnlyChangedIsUpdate(files, after, path);
    }
    if err.Some? {
      return Err(WritingFile(path, err.value)), after;
    }
    if field.dataEnd.Broken? {
      return Err(NextChunk(field.dataEnd.cause)), after;
    }
    return Ok(Some(filename)), after;
  }

  /**
   * `handle_multipart` as the server runs it: a loop over the fields that
   * skips every field not named "file" and hands the first "file" field to
   * `StoreUpload`.  Fetching the field after a skipped one first drains the
   * skipped field's data, and a break there is the error of that fetch.
   * Running out of fields gives `None`.
   */
  method HandleMultipart(root: Path, form: Form, token: string, io: IoFaults, files: Files)
    returns (outcome: Outcome, after: Files)
    requires IsSimpleUuid(token)
    ensures (outcome, after) == Upload(root, form, token, io, files)
  {
    var i := 0;
    while i < |form.fields|
      invariant 0 <= i <= |form.fields|
      invariant forall k :: 0 <= k < i ==> form.fields[k].name != FileFieldName
      invariant forall k :: 0 <= k < i ==> form.fields[k].dataEnd == Finished
    {
      var field := form.fields[i];
      if field.name != FileFieldName {
        if field.dataEnd.Broken? {
          assert FirstBroken(form.fields) == Some(i);
          assert SkippedCount(form.fields) > i;
          return Err(NextField(field.dataEnd.cause)), files;
        }
        i := i + 1;
        continue;
      }
      assert FirstFileField(form.fields) == Some(i);
      outcome, after := StoreUpload(root, field, token, io, files);
      return;
    }
    assert FirstFileField(form.fields).None?;
    assert FirstBroken(form.fields).None?;
    if form.fieldsEnd.Broken? {
      return Err(NextField(form.fieldsEnd.cause)), files;
    }
    return Ok(None), files;
  }

  /**
   * Without a "file" field nothing on disk changes.  The result is `None` exactly
   * when every field was drained cleanly and the field stream ended cleanly;
   * otherwise it is the first break, a field's before the stream's own.
   */
  lemma NoFileFieldLeavesFilesAlone(root: Path, form: Form, token: string, io: IoFaults, files: Files)
    requires IsSimpleUuid(token)
    requires forall k :: 0 <= k < |form.fields| ==> form.fields[k].name != FileFieldName
    ensures var (outcome, after) := Upload(root, form, token, io, files);
      && after == files
      && (outcome == Ok(None) <==>
            (forall k :: 0 <= k < |form.fields| ==> form.fields[k].dataEnd == Finished) && form.fieldsEnd == Finished)
      && (FirstBroken(form.fields).Some? ==>
            outcome == Err(NextField(form.fields[FirstBroken(form.fields).value].dataEnd.cause)))
      && (FirstBroken(form.fields).None? && form.fieldsEnd.Broken? ==> outcome == Err(NextField(form.fieldsEnd.cause)))
  {
    assert FirstFileField(form.fields).None?;
  }

  /**
   * The result is `None` exactly when no field is named "file", every field was
   * drained cleanly and the field stream ended cleanly.
   */
  lemma NoneExactlyWithoutFileField(root: Path, form: Form, token: string, io: IoFaults, files: Files)
    requires IsSimpleUuid(token)
    ensures Upload(root, form, token, io, files).0 == Ok(None) <==>
      && (forall k :: 0 <= k < |form.fields| ==> form.fields[k].name != FileFieldName)
      && (forall k :: 0 <= k < |form.fields| ==> form.fields[k].dataEnd == Finished)
      && form.fieldsEnd == Finished
  {
    var broken := FirstBroken(form.fields);
    if !(broken.Some? && broken.value < SkippedCount(form.fields)) {
      match FirstFileField(form.fields)
      case None =>
      case Some(i) =>
        var field := form.fields[i];
        assert StoreField(root, field, token, io, files).0 != Ok(None);
    }
  }

  /**
   * A field not named "file" in front of the form is skipped: drained cleanly it
   * changes nothing, and a break while draining it ends the call with that error
   * before anything is created.
   */
  lemma SkippedFieldHasNoEffect(root: Path, skipped: Field, form: Form, token: string, io: IoFaults, files: Files)
    requires IsSimpleUuid(token)
    requires skipped.name != FileFieldName
    ensures skipped.dataEnd == Finished ==>
      Upload(root, Form([skipped] + form.fields, form.fieldsEnd), token, io, files)
      == Upload(root, form, token, io, files)
    ensures skipped.dataEnd.Broken? ==>
      Upload(root, Form([skipped] + form.fields, form.fieldsEnd), token, io, files)
      == (Err(NextField(skipped.dataEnd.cause)), files)
  {
    var fields := [skipped] + form.fields;
    assert fields[1..] == form.fields;
    assert fields[0] == skipped;
    var n := SkippedCount(form.fields);
    assert SkippedCount(fields) == n + 1 by {
      match FirstFileField(form.fields)
      case None =>
      case Some(i) =>
    }
    if skipped.dataEnd == Finished {
      var b := FirstBroken(form.fields);
      assert FirstBroken(fields) == if b.None? then None else Some(b.value + 1);
      if b.Some? {
        assert fields[b.value + 1] == form.fields[b.value];
      }
      match FirstFileField(form.fields)
      case None =>
      case Some(i) =>
        assert fields[i + 1] == form.fields[i];
    } else {
      assert FirstBroken(fields) == Some(0);
    }
  }

  /**
   * Processing stops at the first "file" field: two forms that agree up to and
   * including it give the same result and the same files, whatever follows it,
   * further "file" fields and a broken field stream included.
   */
  lemma LaterFieldsNeverExamined(root: Path, form: Form, other: Form, i: nat, token: string, io: IoFaults, files: Files)
    requires IsSimpleUuid(token)
    requires FirstFileField(form.fields) == Some(i)
    requires i < |other.fields| && other.fields[..i + 1] == form.fields[..i + 1]
    ensures Upload(root, other, token, io, files) == Upload(root, form, token, io, files)
  {
    FirstFileFieldOfPrefix(form.fields, other.fields, i);
    assert other.fields[i] == other.fields[..i + 1][i];
    assert form.fields[i] == form.fields[..i + 1][i];
    assert other.fields[..i] == form.fields[..i] by {
      assert other.fields[..i] == other.fields[..i + 1][..i];
      assert form.fields[..i] == form.fields[..i + 1][..i];
    }
    FirstBrokenOfPrefix(form.fields, other.fields, i);
    assert SkippedCount(form.fields) == i && SkippedCount(other.fields) == i;
    var b := FirstBroken(form.fields);
    if b.Some? && b.value < i {
      assert other.fields[b.value] == form.fields[b.value] by {
        assert other.fields[b.value] == other.fields[..i][b.value];
        assert form.fields[b.value] == form.fields[..i][b.value];
      }
    }
  }

  /**
   * A stored upload: the result names the relative stored name of the first
   * "file" field, every field skipped ahead of it was drained cleanly, and the
   * files differ from before only in that the path under the root now holds the
   * field's chunks laid end to end, in arrival order.  A file already at that
   * path is truncated and replaced.
   */
  lemma StoredFileHoldsChunks(root: Path, form: Form, token: string, io: IoFaults, files: Files, name: Path)
    requires IsSimpleUuid(token)
    requires Upload(root, form, token, io, files).0 == Ok(Some(name))
    ensures FirstFileField(form.fields).Some?
    ensures forall k :: 0 <= k < FirstFileField(form.fields).value ==> form.fields[k].dataEnd == Finished
    ensures var field := form.fields[FirstFileField(form.fields).value];
      && name == StoredName(token, field.filename)
      && Upload(root, form, token, io, files).1 == files[Join(root, name) := Concat(field.chunks)]
  {
    BrokenWhileSkipping(form.fields);
    var field := form.fields[FirstFileField(form.fields).value];
    var path := Join(root, name);
    assert name == StoredName(token, field.filename);
    var created := Create(files, path, io.create).value;
    var (after, err) := WriteChunks(created, path, field.chunks, 0, io.writes);
    assert err.None?;
    assert after == Upload(root, form, token, io, files).1;
    assert after[path] == [] + Concat(field.chunks) == Concat(field.chunks);
    OnlyChangedTrans(files, created, after, path);
    OnlyChangedIsUpdate(files, after, path);
  }

  /**
   * A file is stored exactly when there is a "file" field, every field ahead of
   * it was drained cleanly, creating its file succeeds, no write of a non-empty
   * chunk fails and its data stream ends cleanly.
   */
  lemma StoredExactlyWithoutFaults(root: Path, form: Form, token: string, io: IoFaults, files: Files)
    requires IsSimpleUuid(token)
    ensures var outcome := Upload(root, form, token, io, files).0;
      (outcome.Ok? && outcome.value.Some?) <==>
        && FirstFileField(form.fields).Some?
        && (forall k :: 0 <= k < FirstFileField(form.fields).value ==> form.fields[k].dataEnd == Finished)
        && io.create.None?
        && WritesSucceed(form.fields[FirstFileField(form.fields).value].chunks, 0, io.writes)
        && form.fields[FirstFileField(form.fields).value].dataEnd == Finished
  {
    BrokenWhileSkipping(form.fields);
  }

  /**
   * Every failure aborts the call with the matching error and never yields a
   * stored name.  A break while draining a field ahead of the "file" field is
   * reported before anything is created.  Otherwise a failing create leaves the
   * files as they were, a failing write leaves a strict prefix of the chunks in
   * the file, and a broken chunk stream leaves every chunk read before the error.
   * No other path is touched.
   */
  lemma FailuresAbort(root: Path, form: Form, token: string, io: IoFaults, files: Files)
    requires IsSimpleUuid(token)
    requires FirstFileField(form.fields).Some?
    ensures var i := FirstFileField(form.fields).value;
      var field := form.fields[i];
      var path := Join(root, StoredName(token, field.filename));
      var broken := FirstBroken(form.fields);
      var (outcome, after) := Upload(root, form, token, io, files);
      && OnlyChanged(files, after, path)
      && (broken.Some? && broken.value < i ==>
            outcome == Err(NextField(form.fields[broken.value].dataEnd.cause)) && after == files)
      && (!(broken.Some? && broken.value < i) ==>
          && (io.create.Some? ==> outcome == Err(CreatingFile(path, io.create.value)) && after == files)
          && (io.create.None? && !WritesSucceed(field.chunks, 0, io.writes) ==>
                outcome == Err(WritingFile(path, io.writes[FirstFailedWrite(field.chunks, 0, io.writes).value].cause))
                && |after[path]| < |Concat(field.chunks)| && IsPrefix(after[path], Concat(field.chunks)))
          && (io.create.None? && WritesSucceed(field.chunks, 0, io.writes) && field.dataEnd.Broken? ==>
                outcome == Err(NextChunk(field.dataEnd.cause)) && after[path] == Concat(field.chunks)))
  {
    var field := form.fields[FirstFileField(form.fields).value];
    var path := Join(root, StoredName(token, field.filename));
    if io.create.None? {
      var created := Create(files, path, io.create).value;
      var (written, err) := WriteChunks(created, path, field.chunks, 0, io.writes);
      assert created[path] + Concat(field.chunks) == Concat(field.chunks);
    }
  }
}
