# Upload server core, modelled in Dafny

The upload server accepts document uploads over HTTP. A request carries a
`multipart/form-data` form. The first field named `file` is stored under the
upload root with a fresh name: a random token followed by the extension of the
client's filename, or `pdf` when there is none. The response reports the
stored name. When the binary is a container's init process, its `cleanup`
reaps orphaned children until the kernel reports that none remain.

This project models three parts of that program and proves properties about
them:

- `handle_multipart` (src/main.rs:112-148) is modelled in `multipart.dfy`.
  It walks the decoded fields, derives the stored name, creates the file and
  writes the field's chunks. Three things support it:
  - `Paths` (`paths.dfy`) gives the Unix path operations the handler uses, on strings:
    `file_name`, `extension`, `with_extension` and `join`. A simplified
    `components` supports them.
  - `FileSystem` (`filesystem.dfy`) is a map from path to bytes, with `File::create` and `write_all`.
  - `Types` (`types.dfy`) holds `Option`, `Result`, bytes and chunk concatenation.
- `handle_request` (src/main.rs:83-110) is modelled in `http.dfy`. It maps
  the upload outcome to a status code and a body.
- `cleanup` (src/container.rs:21-30) is modelled in `reaper.dfy`. It is the
  reap-until-`ECHILD` loop over a finite process table.

The model follows the code as written:

- The client's stem is discarded, and only its extension is kept.
- The extension is copied without any change of case.
- `File::create` truncates an existing file at the chosen path.
- Success is answered with status 200.
- An error is answered with 500 and an empty body.

These are the inputs in place of things the model cannot see:

- The random token: any 32-character lower-case hexadecimal string, the text of `Uuid::to_simple`.
- Faults:
  - failure of file creation, and which chunk writes fail and how many bytes they land;
  - how the field stream and each chunk stream end;
  - which `wait` calls are interrupted.

`HandleMultipart` and `Cleanup` are loops that verify against functional
references. `HandleMultipart` checks against `Upload`. `Cleanup` checks
against an explicit postcondition on its trace of `wait` results.

`Multipart.Upload` and `Multipart.StoreField` are those references: the
handler (src/main.rs:112-148) and its per-field body (src/main.rs:122-144)
written as functions. They carry no contract of their own. The `Multipart`
lemma rows below and the postconditions of `Multipart.StoreUpload` state what
they compute.

## Model

| member | source | states |
|---|---|---|
| Multipart.HandleMultipart | src/main.rs:112-148 | The field loop's result and final files are exactly those of the reference `Upload`. The first field named "file" is stored. A break while draining a field skipped ahead of it gives that error. No such field gives `None`, and a broken field stream gives its error. |
| Multipart.StoreUpload | src/main.rs:122-144 | It always changes only the created path. It stores the name and chunks exactly when creation succeeds, no non-empty write fails and the chunk stream ends cleanly; the file then holds the chunks' concatenation. A create fault returns `CreatingFile` with the files unchanged. A write fault returns `WritingFile` with the cause of the first faulted non-empty chunk and leaves a strict prefix. A broken chunk stream returns `NextChunk` after all chunks are written. |
| Multipart.StoredName | src/main.rs:128-129 | The stored name is a single normal component. It is exactly the token when the extension is empty. Otherwise its stem is exactly the token and its extension is the chosen one. |
| Multipart.WriteField | src/main.rs:135-140 | The chunk loop writes chunk after chunk with `write_all` and stops at the first failing write, with the same effect as `WriteChunks` from chunk 0. |
| Multipart.FirstFileField | src/main.rs:116-120 | The index found is the first field named "file": every earlier field has another name; `None` exactly when no field has that name. |
| Multipart.FirstFileFieldOfPrefix | src/main.rs:116-120 | The first "file" field is determined by the fields up to and including it. |
| Multipart.FirstBroken | src/main.rs:116 | The index found is the first field whose data stream broke: every earlier field ended cleanly; `None` exactly when every field ended cleanly. |
| Multipart.FirstBrokenOfPrefix | src/main.rs:116-120 | Whether and where a break occurs among the first fields depends on those fields alone. |
| Multipart.NoFileFieldLeavesFilesAlone | src/main.rs:116-147 | Without a "file" field the files are unchanged. The result is `None` exactly when every field was drained cleanly and the field stream ended cleanly. Otherwise it is the first field's break, or failing that the field stream's error. |
| Multipart.NoneExactlyWithoutFileField | src/main.rs:116-147 | The result is `Ok(None)` if and only if no field is named "file", every field was drained without error, and the field stream ended without error. |
| Multipart.SkippedFieldHasNoEffect | src/main.rs:117-120 | A field with another name put in front of a form, drained cleanly, changes neither the result nor the files. If draining it breaks, the call ends with that error and the files unchanged. |
| Multipart.LaterFieldsNeverExamined | src/main.rs:117-144 | Two forms that agree up to and including the first "file" field give the same result and files, whatever follows. |
| Multipart.UploadExtensionRule | src/main.rs:122-127 | When the client filename's last component has a '.' after its first character, the extension is the text after its last '.', preceded by a non-empty stem. In every other case, including no filename, it is "pdf". |
| Multipart.UploadExtension | src/main.rs:122-127 | The chosen extension never contains a '.' or a separator. |
| Multipart.ExtensionCaseIsKept | src/main.rs:126 | "report.PDF" gives the extension "PDF": case is not normalised. |
| Multipart.TraversalKeepsOnlyExtension | src/main.rs:122-130 | Whatever directories precede the client's last component, `..` included, only that component's extension is used. |
| Multipart.TraversalWithoutDotGetsDefault | src/main.rs:122-127 | A last component without '.' gives "pdf", whatever directories precede it. |
| Multipart.SimpleUuidIsBareName | src/main.rs:129 | The token is one normal component with no '.'. |
| Multipart.StoredNameStaysInRoot | src/main.rs:126-130 | The stored name is one normal component. It is the bare token when the extension is empty, and otherwise exactly the token, '.', and the extension, with the token as its stem. Joining it onto the root adds exactly one component, its file name. |
| Multipart.StoredFileHoldsChunks | src/main.rs:132-144 | On `Ok(Some(name))`, `name` is the relative stored name of the first "file" field, and every field ahead of it was drained cleanly. The files differ from before only at root/name, which holds the field's chunks end to end in arrival order; an existing file there is replaced. |
| Multipart.StoredExactlyWithoutFaults | src/main.rs:132-144 | A name is returned if and only if a "file" field exists, every field ahead of it was drained cleanly, creation succeeds, no non-empty chunk write fails and the chunk stream ends cleanly. |
| Multipart.FailuresAbort | src/main.rs:116-140 | A break while draining a field ahead of the "file" field returns `NextField` with the files unchanged. Otherwise a failing create returns `CreatingFile` and leaves the files as they were. A failing write returns `WritingFile` with the first faulted chunk's cause and leaves a strict prefix of the chunks. A broken chunk stream returns `NextChunk` after the chunks read so far. No other path changes. |
| FileSystem.Create | src/main.rs:132-133 | `File::create` succeeds exactly when no fault is given; it leaves an empty file at the path (truncating one that exists) and touches no other path. |
| FileSystem.WriteAll | src/main.rs:137-139 | `write_all` appends the whole buffer on success; an empty buffer never fails; a failure leaves a strict prefix of the buffer appended. |
| FileSystem.WriteChunks | src/main.rs:135-140 | Writing chunks in order succeeds exactly when no non-empty chunk meets a fault, and then appends their concatenation. On failure the error is the cause of the first faulted non-empty chunk; the file keeps its old contents as a prefix and holds a strict prefix of the full result. |
| FileSystem.FirstFailedWrite | src/main.rs:135-139 | The first non-empty chunk that meets a fault: none exactly when every write succeeds, and no earlier non-empty chunk is faulted. |
| FileSystem.OnlyChangedIsUpdate | src/main.rs:132-140 | A change confined to one path that leaves a file there is a single map update. |
| Paths.Components | src/main.rs:126 | Components are never empty, never "." and never contain a separator. |
| Paths.FileName | src/main.rs:126 | A file name is always a normal component. |
| Paths.FileNameIgnoresTrailingSeparator | src/main.rs:126 | A trailing '/' changes neither the components nor the file name. |
| Paths.FileNameIgnoresTrailingCur | src/main.rs:126 | A trailing "/." changes neither the components nor the file name. |
| Paths.FileNameOfParent | src/main.rs:126 | A path that ends in ".." has no file name. |
| Paths.JoinComponent | src/main.rs:126-130 | Joining a non-empty piece that is not "." and has no separator (a normal name or "..") adds exactly that piece as the last component. |
| Paths.UnsplitSplit | src/main.rs:125 | Splitting a path at separators loses nothing: rejoining the pieces gives the path back. |
| Paths.SplitUnsplit | src/main.rs:125 | Rejoining separator-free pieces and splitting again gives the pieces back. |
| Paths.NormalComponentIsFileName | src/main.rs:129-130 | A normal component is its own single component and its own file name. |
| Paths.Extension | src/main.rs:126 | An extension never contains '.', is shorter than its name, and has no separator when the name has none. |
| Paths.PathExtension | src/main.rs:126 | The extension of a path's file name never contains '.' or a separator. |
| Paths.ExtensionExists | src/main.rs:126 | A name has an extension if and only if it is not ".." and has a '.' after its first character. |
| Paths.ExtensionSplitsName | src/main.rs:126 | An extension splits its name into a non-empty stem, a '.', and the extension. |
| Paths.ExtensionOfStemDotExt | src/main.rs:126 | Conversely, a non-empty stem, '.', and dot-free text has that text as its extension and that stem as its stem. |
| Paths.WithExtensionRoundTrip | src/main.rs:129 | Setting an extension on the token and reading it back agree: "" adds no dot and leaves no extension; otherwise the extension reads back and the stem is unchanged. |
| Paths.JoinNormalComponent | src/main.rs:130 | Joining a normal component onto a directory adds exactly that component, makes it the file name, and keeps the directory as a prefix. |
| Paths.Join | src/main.rs:130 | An absolute argument replaces the base. Otherwise the result is the base, then one separator exactly when the base is neither empty nor ends in one, then the argument. |
| Types.ConcatSplit | src/main.rs:135-140 | The bytes of a chunk list are those of any prefix of it followed by those of the rest. |
| Http.Respond | src/main.rs:89-103 | Status 200 if and only if a name was stored; 400 if and only if there was no file field; 500 if and only if an error occurred, with an empty body. |
| Http.RefuseNotMultipart | src/main.rs:105-108 | A request that is not a form gets 400 with a text different from the no-file text. |
| Http.HandleRequest | src/main.rs:83-110 | A request that is not a form is refused without touching the files. A form's response is `Respond` of the reference upload outcome, and the files are those the upload leaves. |
| Http.ResponsesAreReadable | src/main.rs:89-108 | Every response reads back uniquely: the stored name is recovered from "Uploaded " + name, and the two kinds of 400 are told apart by their text. |
| Http.OkMeansStored | src/main.rs:83-148 | A response read as "stored at name" implies the first "file" field's chunks are at root/name and nothing else changed. The name is a single normal component and the file name of root/name, so root/name lies directly inside root. |
| Reaper.Wait | src/container.rs:24 | `wait` fails with ECHILD exactly when no children remain; otherwise it reports the scheduled interruption or reaps one child, which leaves the table. |
| Reaper.Cleanup | src/container.rs:21-30 | The loop makes at most one more call than there are children. Every call but the last reaps a distinct child; the last fails. The result is `Ok` iff that failure is ECHILD iff no children remain iff no call among the first ones was interrupted. Any other error is returned unchanged. The children left are exactly those not reaped. |
| Reaper.ReapStep | src/container.rs:25 | A successful wait keeps the loop state consistent: one more distinct child reaped, one fewer remaining. |
| Reaper.FinalWait | src/container.rs:26-27 | The failing wait that ends the loop fixes the result: ECHILD gives `Ok`, any other errno is returned as the error. |
| Reaper.ErrnoOf | src/container.rs:27 | An interruption is never reported as ECHILD. |

## Left out

- Server setup, the accept loop, per-connection wiring and graceful shutdown (src/main.rs:66-78). These are network I/O and async plumbing.
- `wait_for_shutdown` (src/container.rs:32-38). It is signal handling.
- src/host.rs is not part of this model. Its `cleanup` always returns `Ok(())`.
- Command-line parsing and the log-level mapping (src/main.rs:36-64). They are configuration and logging. The `debug!`, `trace!`, `info!` and `error!` calls in the core are dropped too.
- Decoding the body and the boundary (`Multipart::try_from_request`, `next_field`) belongs to the multipart library. A request is either "not multipart" or an already-decoded sequence of fields. Each stream carries an ending that is either clean or an error.
  - A skipped field's data is never read by the handler. The decoder drains it when `next_field` fetches the following field, so the ending of a skipped field stands for the outcome of that drain. A break there is an error of the `next_field` call at src/main.rs:116, and no later field is examined.
  - The ending of the stored "file" field is what its chunk stream at src/main.rs:135 reports.
  - Fields after the first "file" field are never reached, and their endings play no part.
- UUID generation (src/main.rs:129). The token is an input constrained to the 32-digit lower-case hexadecimal form.
- The error context strings added by `.context(...)` are not modelled as text. The kind of error and the path it concerns are kept.
- A failure of the response builder (the `?` on `.context("creating response")`) is not modelled. With a fixed status and body it does not fail.
- Paths.WithExtension: modelled only for a single component without '.', which is the only way the server calls `with_extension`.
- Reaper.Wait: a call with children present returns at once, reaping one or reporting an interruption. The real `wait` blocks until some child exits, so a child that never exits leaves `cleanup` blocked forever. The model does not cover that case.
- Reaper.Cleanup: the process table is fixed when the loop starts. Orphans reparented to the init process during the loop would add further calls. So termination and the bound of `|children| + 1` calls hold only when no child is added and every child eventually exits.
- Paths.Components: a leading root and a leading "." are dropped, whereas Rust's `components` keeps them as `RootDir` and `CurDir`. So `Components("/a")` and `Components("./a")` are both `["a"]`. File names and extensions, which are all the handler reads, agree with Rust's.
- The kernel's choice of which child `wait` reaps is left open. Child exit statuses are not modelled.
- A partially written file after a failed write is left on disk, as in the code. The model records its contents but adds no cleanup.
- Paths are strings with '/' as the only separator. Non-UTF-8 file names (`OsString`) are not modelled.
