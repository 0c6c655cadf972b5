/**
 * The part of the filesystem the upload handler touches, as a map from path to
 * file contents.  Whether an operation fails is decided by the environment and is
 * passed in as a fault; the model says what each outcome leaves on disk.
 */
module FileSystem {
  import opened Types
  import opened Paths

  type Files = map<Path, Bytes>

  /** An operating-system error reported by `File::create` or a write. */
  datatype IoError = IoError(code: int)

  /** A write that fails after `landed` bytes of its buffer reached the file. */
  datatype WriteFault = WriteFault(landed: nat, cause: IoError)

  /** Every path other than `path` is present in `after` exactly when in `before`, with the same contents. */
  predicate OnlyChanged(before: Files, after: Files, path: Path) {
    && (forall p :: p in before && p != path ==> p in after && after[p] == before[p])
    && (forall p :: p in after && p != path ==> p in before)
  }

  /** A change confined to one path that leaves a file there is an update of that one entry. */
  lemma OnlyChangedIsUpdate(before: Files, after: Files, path: Path)
    requires OnlyChanged(before, after, path) && path in after
    ensures after == before[path := after[path]]
  {
    assert after.Keys == before[path := after[path]].Keys;
  }

  /** Two changes confined to the same path are together confined to it. */
  lemma OnlyChangedTrans(a: Files, b: Files, c: Files, path: Path)
    requires OnlyChanged(a, b, path) && OnlyChanged(b, c, path)
    ensures OnlyChanged(a, c, path)
  {
  }

  /**
   * `File::create`: open `path` for writing, creating the file when it is absent
   * and truncating it when it exists.  An existing file is not an error.
   */
  function Create(files: Files, path: Path, fault: Option<IoError>): (r: Result<Files, IoError>)
    ensures r.Ok? <==> fault.None?
    ensures r.Err? ==> r.error == fault.value
    ensures r.Ok? ==> path in r.value && r.value[path] == [] && OnlyChanged(files, r.value, path)
  {
    match fault
    case Some(e) => Err(e)
    case None => Ok(files[path := []])
  }

  /**
   * `write_all` of one buffer to the open file at `path`.  An empty buffer is never
   * handed to the operating system and cannot fail; a failing write leaves a strict
   * prefix of the buffer appended to the file.
   */
  function WriteAll(files: Files, path: Path, chunk: Bytes, fault: Option<WriteFault>): (r: (Files, Option<IoError>))
    requires path in files
    ensures path in r.0 && OnlyChanged(files, r.0, path)
    ensures r.1.None? <==> fault.None? || chunk == []
    ensures r.1.Some? ==> r.1.value == fault.value.cause
    ensures r.1.None? ==> r.0[path] == files[path] + chunk
    ensures r.1.Some? ==> exists n :: 0 <= n < |chunk| && r.0[path] == files[path] + chunk[..n]
  {
    match fault
    case None => (files[path := files[path] + chunk], None)
    case Some(f) =>
      if chunk == [] then (files, None)
      else
        var n := if f.landed < |chunk| then f.landed else |chunk| - 1;
        (files[path := files[path] + chunk[..n]], Some(f.cause))
  }

  /** The write fault scheduled for the `j`-th chunk of a field, if any. */
  function FaultAt(writes: map<nat, WriteFault>, j: nat): Option<WriteFault> {
    if j in writes then Some(writes[j]) else None
  }

  /** No chunk from index `k` on meets a scheduled fault with a non-empty buffer. */
  predicate WritesSucceed(chunks: seq<Bytes>, k: nat, writes: map<nat, WriteFault>) {
    forall j :: 0 <= j < |chunks| && chunks[j] != [] ==> k + j !in writes
  }

  /** The first chunk, counted from `k`, that is non-empty and meets a scheduled fault. */
  function FirstFailedWrite(chunks: seq<Bytes>, k: nat, writes: map<nat, WriteFault>): (j: Option<nat>)
    ensures j.None? <==> WritesSucceed(chunks, k, writes)
    ensures j.Some? ==> j.value < |chunks| && chunks[j.value] != [] && k + j.value in writes
    ensures j.Some? ==> forall i :: 0 <= i < j.value ==> chunks[i] == [] || k + i !in writes
    decreases |chunks|
  {
    if |chunks| == 0 then None
    else
      WritesSucceedStep(chunks, k, writes);
      if chunks[0] != [] && k in writes then Some(0)
      else
        match FirstFailedWrite(chunks[1..], k + 1, writes)
        case None => None
        case Some(j) =>
          assert forall i :: 1 <= i <= j + 1 ==> chunks[i] == chunks[1..][i - 1];
          Some(j + 1)
  }

  /**
   * Writes `chunks` one after another to `path`, numbering them from `k`, and stops
   * at the first failing write.  On success the file has gained exactly the chunks'
   * bytes in order; on failure it has gained a strict prefix of them.
   */
  function WriteChunks(files: Files, path: Path, chunks: seq<Bytes>, k: nat, writes: map<nat, WriteFault>)
    : (r: (Files, Option<IoError>))
    requires path in files
    ensures path in r.0 && OnlyChanged(files, r.0, path)
    ensures r.1.None? <==> WritesSucceed(chunks, k, writes)
    ensures r.1.Some? ==> r.1.value == writes[k + FirstFailedWrite(chunks, k, writes).value].cause
    ensures r.1.None? ==> r.0[path] == files[path] + Concat(chunks)
    ensures r.1.Some? ==> IsPrefix(files[path], r.0[path])
    ensures r.1.Some? ==> |r.0[path]| < |files[path] + Concat(chunks)| && IsPrefix(r.0[path], files[path] + Concat(chunks))
    decreases |chunks|
  {
    if |chunks| == 0 then (files, None)
    else
      var (after, err) := WriteAll(files, path, chunks[0], FaultAt(writes, k));
      ConcatFirst(chunks);
      WritesSucceedStep(chunks, k, writes);
      if err.Some? then
        assert !WritesSucceed(chunks, k, writes);
        var n :| 0 <= n < |chunks[0]| && after[path] == files[path] + chunks[0][..n];
        PrefixOfFirstChunk(files[path], chunks[0], Concat(chunks[1..]), n);
        (after, err)
      else
        var r := WriteChunks(after, path, chunks[1..], k + 1, writes);
        PrefixExtend(files[path], chunks[0], Concat(chunks[1..]), r.0[path]);
        r
  }

  /** The writes from `k` succeed exactly when the first does (or has nothing to write) and the rest succeed from `k + 1`. */
  lemma WritesSucceedStep(chunks: seq<Bytes>, k: nat, writes: map<nat, WriteFault>)
    requires |chunks| > 0
    ensures WritesSucceed(chunks, k, writes) <==>
      (chunks[0] == [] || k !in writes) && WritesSucceed(chunks[1..], k + 1, writes)
  {
    if (chunks[0] == [] || k !in writes) && WritesSucceed(chunks[1..], k + 1, writes) {
      forall j | 0 <= j < |chunks| && chunks[j] != [] ensures k + j !in writes {
        if j > 0 { assert chunks[1..][j - 1] == chunks[j]; }
      }
    }
  }

  /** A failed first write leaves a strict prefix of everything that was to be written. */
  lemma PrefixOfFirstChunk(before: Bytes, first: Bytes, rest: Bytes, n: nat)
    requires n < |first|
    ensures IsPrefix(before, before + first[..n])
    ensures |before + first[..n]| < |before + (first + rest)|
    ensures IsPrefix(before + first[..n], before + (first + rest))
  {
    assert (before + (first + rest))[..|before| + n] == before + first[..n];
    assert (before + first[..n])[..|before|] == before;
  }

  /** What follows a successful first write keeps the file's old contents as a prefix and regroups the concatenation. */
  lemma PrefixExtend(before: Bytes, first: Bytes, rest: Bytes, now: Bytes)
    requires IsPrefix(before + first, now)
    ensures IsPrefix(before, now)
    ensures now == before + first + rest ==> now == before + (first + rest)
    ensures |now| < |before + first + rest| && IsPrefix(now, before + first + rest) ==>
      |now| < |before + (first + rest)| && IsPrefix(now, before + (first + rest))
  {
    assert before + first + rest == before + (first + rest);
    assert now[..|before + first|][..|before|] == before;
  }
}
