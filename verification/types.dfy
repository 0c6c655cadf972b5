/** Small value types shared by the upload server model. */
module Types {

  /** An optional value, the model of Rust's `Option`. */
  datatype Option<+T> = None | Some(value: T)

  /** A success value or an error, the model of Rust's `Result`. */
  datatype Result<+T, +E> = Ok(value: T) | Err(error: E)

  type Byte = bv8
  type Bytes = seq<Byte>

  /** The bytes of a chunk stream laid end to end, in arrival order. */
  function Concat(chunks: seq<Bytes>): (all: Bytes)
    decreases |chunks|
  {
    if |chunks| == 0 then [] else Concat(chunks[..|chunks| - 1]) + chunks[|chunks| - 1]
  }

  /** `a` is an initial segment of `b`. */
  predicate IsPrefix<T(==)>(a: seq<T>, b: seq<T>) {
    |a| <= |b| && b[..|a|] == a
  }

  /** Writing the chunks one after the other gives the same bytes as writing them in two runs. */
  lemma {:induction false} ConcatSplit(chunks: seq<Bytes>, j: nat)
    requires j <= |chunks|
    ensures Concat(chunks) == Concat(chunks[..j]) + Concat(chunks[j..])
    decreases |chunks|
  {
    if j == |chunks| {
      assert chunks[..j] == chunks;
      assert chunks[j..] == [];
    } else {
      var init := chunks[..|chunks| - 1];
      ConcatSplit(init, j);
      assert init[..j] == chunks[..j];
      assert init[j..] == chunks[j..|chunks| - 1];
      var rest := chunks[j..];
      assert rest[..|rest| - 1] == chunks[j..|chunks| - 1];
      assert rest[|rest| - 1] == chunks[|chunks| - 1];
    }
  }

  /** A single chunk's bytes are the chunk itself. */
  lemma ConcatSingle(c: Bytes)
    ensures Concat([c]) == c
  {
    assert [c][..0] == [];
  }

  /** The bytes of a non-empty chunk list are its first chunk followed by the rest. */
  lemma ConcatFirst(chunks: seq<Bytes>)
    requires |chunks| > 0
    ensures Concat(chunks) == chunks[0] + Concat(chunks[1..])
  {
    ConcatSplit(chunks, 1);
    assert chunks[..1] == [chunks[0]];
    ConcatSingle(chunks[0]);
  }
}
