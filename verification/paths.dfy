/**
 * Unix path handling as the upload server relies on it: splitting a path into
 * components, its final file name, its extension, replacing the extension of a
 * bare name, and joining a relative name onto a directory.  Paths are strings;
 * the only separator is '/'.
 */
module Paths {
  import opened Types

  type Path = string

  const Separator: char := '/'

  /** A component that names an entry of its directory: not empty, not "." or "..", no separator. */
  predicate IsNormalComponent(s: string) {
    s != "" && s != "." && s != ".." && Separator !in s
  }

  /** The pieces of `p` between separators, empty pieces included. */
  function Split(p: Path): (segs: seq<string>)
    ensures |segs| >= 1
    decreases |p|
  {
    if |p| == 0 then [""]
    else
      var init := Split(p[..|p| - 1]);
      if p[|p| - 1] == Separator then init + [""]
      else init[..|init| - 1] + [init[|init| - 1] + [p[|p| - 1]]]
  }

  /** No piece holds a separator. */
  lemma {:induction false} SplitHasNoSeparator(p: Path)
    ensures forall k :: 0 <= k < |Split(p)| ==> Separator !in Split(p)[k]
    decreases |p|
  {
    if |p| > 0 {
      SplitHasNoSeparator(p[..|p| - 1]);
    }
  }

  /** The pieces joined back with one separator between neighbours. */
  function Unsplit(segs: seq<string>): Path
    requires |segs| >= 1
    decreases |segs|
  {
    if |segs| == 1 then segs[0]
    else Unsplit(segs[..|segs| - 1]) + [Separator] + segs[|segs| - 1]
  }

  /** Reassembling one more piece adds a separator and that piece. */
  lemma {:induction false} UnsplitSnoc(segs: seq<string>, s: string)
    requires |segs| >= 1
    ensures Unsplit(segs + [s]) == Unsplit(segs) + [Separator] + s
  {
    assert (segs + [s])[..|segs|] == segs;
  }

  /** Extending the last piece extends the reassembled path by the same text. */
  lemma {:induction false} UnsplitExtendLast(segs: seq<string>, x: string)
    requires |segs| >= 1
    ensures Unsplit(segs[..|segs| - 1] + [segs[|segs| - 1] + x]) == Unsplit(segs) + x
  {
    var init := segs[..|segs| - 1];
    var last := segs[|segs| - 1];
    assert init + [last] == segs;
    if |init| > 0 {
      var a := Unsplit(init);
      UnsplitSnoc(init, last + x);
      UnsplitSnoc(init, last);
      assert a + [Separator] + (last + x) == a + [Separator] + last + x;
    } else {
      assert init + [last + x] == [last + x];
    }
  }

  /** Splitting loses nothing: the pieces reassemble into the path. */
  lemma {:induction false} UnsplitSplit(p: Path)
    ensures Unsplit(Split(p)) == p
    decreases |p|
  {
    if |p| > 0 {
      var q := p[..|p| - 1];
      var c := p[|p| - 1];
      assert q + [c] == p;
      UnsplitSplit(q);
      if c == Separator {
        SplitAppendSeparator(q);
        UnsplitSnoc(Split(q), "");
      } else {
        SplitAppendPlain(q, [c]);
        UnsplitExtendLast(Split(q), [c]);
      }
    }
  }

  /** Appending separator-free text extends the last piece. */
  lemma {:induction false} SplitAppendPlain(a: Path, n: string)
    requires Separator !in n
    ensures var s := Split(a); Split(a + n) == s[..|s| - 1] + [s[|s| - 1] + n]
    decreases |n|
  {
    var s := Split(a);
    if |n| == 0 {
      assert a + n == a;
      assert s[|s| - 1] + n == s[|s| - 1];
      assert s[..|s| - 1] + [s[|s| - 1] + n] == s;
    } else {
      var m := n[..|n| - 1];
      SplitAppendPlain(a, m);
      assert (a + n)[..|a + n| - 1] == a + m;
      assert s[|s| - 1] + m + [n[|n| - 1]] == s[|s| - 1] + n;
    }
  }

  /** Appending a separator closes the last piece and opens an empty one. */
  lemma SplitAppendSeparator(a: Path)
    ensures Split(a + [Separator]) == Split(a) + [""]
  {
    var b := a + [Separator];
    assert b[..|b| - 1] == a;
  }

  /** Appending a separator and then separator-free text adds exactly one piece. */
  lemma SplitAppendSegment(a: Path, n: string)
    requires Separator !in n
    ensures Split(a + [Separator] + n) == Split(a) + [n]
  {
    var b := a + [Separator];
    SplitAppendSeparator(a);
    var s := Split(b);
    SplitAppendPlain(b, n);
    assert s[..|s| - 1] == Split(a);
    assert s[|s| - 1] + n == n;
  }

  /** Reassembling separator-free pieces and splitting again gives back the pieces. */
  lemma {:induction false} SplitUnsplit(segs: seq<string>)
    requires |segs| >= 1
    requires forall k :: 0 <= k < |segs| ==> Separator !in segs[k]
    ensures Split(Unsplit(segs)) == segs
    decreases |segs|
  {
    if |segs| == 1 {
      SplitSingle(segs[0]);
    } else {
      var init := segs[..|segs| - 1];
      var last := segs[|segs| - 1];
      assert init + [last] == segs;
      SplitUnsplit(init);
      UnsplitSnoc(init, last);
      SplitAppendSegment(Unsplit(init), last);
    }
  }

  predicate IsCurOrEmpty(s: string) {
    s == "" || s == "."
  }

  /** A piece that survives as a component: a normal name or "..". */
  predicate IsKeptPiece(s: string) {
    !IsCurOrEmpty(s) && Separator !in s
  }

  /**
   * The pieces that name a directory entry or its parent: empty pieces and "." are
   * dropped.  Unlike Rust's `components`, a leading root or "." is not kept as a
   * component of its own; the file name is the same either way.
   */
  function Keep(segs: seq<string>): (kept: seq<string>)
    ensures |kept| <= |segs|
    ensures forall k :: 0 <= k < |kept| ==> !IsCurOrEmpty(kept[k]) && kept[k] in segs
    decreases |segs|
  {
    if |segs| == 0 then []
    else
      var last := segs[|segs| - 1];
      Keep(segs[..|segs| - 1]) + (if IsCurOrEmpty(last) then [] else [last])
  }

  lemma {:induction false} KeepAppend(a: seq<string>, b: seq<string>)
    ensures Keep(a + b) == Keep(a) + Keep(b)
    decreases |b|
  {
    if |b| == 0 {
      assert a + b == a;
    } else {
      var c := b[..|b| - 1];
      KeepAppend(a, c);
      assert (a + b)[..|a + b| - 1] == a + c;
      assert (a + b)[|a + b| - 1] == b[|b| - 1];
    }
  }

  /** The normal and parent-directory components of `p`, in order. */
  function Components(p: Path): (cs: seq<string>)
    ensures forall k :: 0 <= k < |cs| ==> cs[k] != "" && cs[k] != "." && Separator !in cs[k]
  {
    SplitHasNoSeparator(p);
    Keep(Split(p))
  }

  /** Rust's `Path::file_name`: the last component when it is a normal one. */
  function FileName(p: Path): (name: Option<string>)
    ensures name.Some? ==> IsNormalComponent(name.value)
  {
    var cs := Components(p);
    if |cs| == 0 || cs[|cs| - 1] == ".." then None else Some(cs[|cs| - 1])
  }

  /** A name is its own single component, and so its own file name. */
  lemma NormalComponentIsFileName(n: string)
    requires IsNormalComponent(n)
    ensures Components(n) == [n]
    ensures FileName(n) == Some(n)
  {
    SplitSingle(n);
    KeepSingle(n);
  }

  /** Text without a separator is a single piece. */
  lemma SplitSingle(n: string)
    requires Separator !in n
    ensures Split(n) == [n]
  {
    var s := Split("");
    assert s == [""];
    SplitAppendPlain("", n);
    assert "" + n == n;
    assert s[..|s| - 1] + [s[|s| - 1] + n] == [n];
  }

  /** A single piece is kept unless it is empty or ".". */
  lemma KeepSingle(n: string)
    ensures Keep([n]) == if IsCurOrEmpty(n) then [] else [n]
  {
    assert [n][..0] == [];
  }

  /** Index of the last occurrence of `c` in `s`. */
  function LastIndexOf(s: string, c: char): (i: Option<nat>)
    ensures i.None? <==> c !in s
    ensures i.Some? ==> i.value < |s| && s[i.value] == c && c !in s[i.value + 1..]
    decreases |s|
  {
    if |s| == 0 then None
    else if s[|s| - 1] == c then Some(|s| - 1)
    else
      match LastIndexOf(s[..|s| - 1], c)
      case None => None
      case Some(j) =>
        assert s[j + 1..] == s[..|s| - 1][j + 1..] + [s[|s| - 1]];
        Some(j)
  }

  /**
   * Rust's extension split of a file name: the text after the last '.', unless the
   * name is ".." or its only '.' is the first character (a hidden file such as ".profile").
   */
  function Extension(name: string): (ext: Option<string>)
    ensures ext.Some? ==> '.' !in ext.value && |ext.value| < |name|
    ensures ext.Some? && Separator !in name ==> Separator !in ext.value
  {
    if name == ".." then None
    else
      match LastIndexOf(name, '.')
      case None => None
      case Some(i) => if i == 0 then None else Some(name[i + 1..])
  }

  /** The part of `name` before its extension. */
  function FileStem(name: string): string
    requires Extension(name).Some?
  {
    var i := LastIndexOf(name, '.').value;
    name[..i]
  }

  /** A name has an extension exactly when it is not ".." and holds a '.' after its first character. */
  lemma ExtensionExists(name: string)
    ensures Extension(name).Some? <==> name != ".." && exists i :: 0 < i < |name| && name[i] == '.'
  {
    if name != ".." && exists i :: 0 < i < |name| && name[i] == '.' {
      var i :| 0 < i < |name| && name[i] == '.';
      var j := LastIndexOf(name, '.').value;
    }
  }

  /** An extension splits its name into a non-empty stem, a '.', and itself. */
  lemma ExtensionSplitsName(name: string)
    requires Extension(name).Some?
    ensures name == FileStem(name) + "." + Extension(name).value
    ensures FileStem(name) != ""
  {
  }

  /** Conversely, a non-empty stem, a '.' and dot-free text have that text as extension. */
  lemma ExtensionOfStemDotExt(stem: string, ext: string)
    requires stem != "" && '.' !in ext
    requires stem + "." + ext != ".."
    ensures Extension(stem + "." + ext) == Some(ext)
    ensures FileStem(stem + "." + ext) == stem
  {
    var name := stem + "." + ext;
    assert name[|stem|] == '.';
    assert name[|stem| + 1..] == ext;
  }

  /** The extension of the file name of `p`, as `PathBuf::extension` gives it. */
  function PathExtension(p: Path): (ext: Option<string>)
    ensures ext.Some? ==> '.' !in ext.value && Separator !in ext.value
  {
    match FileName(p)
    case None => None
    case Some(n) => Extension(n)
  }

  /**
   * `PathBuf::with_extension` applied to a path that is one dot-free normal
   * component: the name itself, followed by '.' and the extension unless that is empty.
   */
  function WithExtension(stem: string, ext: string): (name: string)
    requires IsNormalComponent(stem) && '.' !in stem
    requires '.' !in ext && Separator !in ext
  {
    if ext == "" then stem else stem + "." + ext
  }

  /** Setting an extension and reading it back agree, and the stem survives unchanged. */
  lemma WithExtensionRoundTrip(stem: string, ext: string)
    requires IsNormalComponent(stem) && '.' !in stem
    requires '.' !in ext && Separator !in ext
    ensures IsNormalComponent(WithExtension(stem, ext))
    ensures |stem| <= |WithExtension(stem, ext)| && WithExtension(stem, ext)[..|stem|] == stem
    ensures ext == "" ==> Extension(WithExtension(stem, ext)) == None
    ensures ext != "" ==> Extension(WithExtension(stem, ext)) == Some(ext)
    ensures ext != "" ==> FileStem(WithExtension(stem, ext)) == stem
  {
    var name := WithExtension(stem, ext);
    if ext == "" {
      assert LastIndexOf(name, '.').None?;
    } else {
      ExtensionOfStemDotExt(stem, ext);
      assert name[|stem|] == '.';
      assert name != "..";
      assert name != "." by { assert |name| >= 2; }
      assert Separator !in name by {
        forall k | 0 <= k < |name| ensures name[k] != Separator {
          if k < |stem| { assert name[k] == stem[k]; }
          else if k > |stem| { assert name[k] == ext[k - |stem| - 1]; }
        }
      }
    }
  }

  /**
   * `PathBuf::join` on Unix: an absolute `rel` replaces `base`; otherwise `rel` is
   * appended, with a separator unless `base` is empty or already ends in one.
   */
  function Join(base: Path, rel: Path): (j: Path)
    ensures |rel| > 0 && rel[0] == Separator ==> j == rel
    ensures !(|rel| > 0 && rel[0] == Separator) ==>
      && IsPrefix(base, j) && |j| >= |base| + |rel| && j[|j| - |rel|..] == rel
      && (|j| == |base| + |rel| || (|j| == |base| + |rel| + 1 && j[|base|] == Separator))
      && (|j| == |base| + |rel| <==> base == "" || base[|base| - 1] == Separator)
  {
    if |rel| > 0 && rel[0] == Separator then rel
    else if base == "" || base[|base| - 1] == Separator then base + rel
    else base + [Separator] + rel
  }

  /**
   * Joining a normal component onto a directory yields a path directly inside it:
   * the directory's components plus that one name, which is also the file name.
   */
  lemma JoinNormalComponent(base: Path, name: string)
    requires IsNormalComponent(name)
    ensures Components(Join(base, name)) == Components(base) + [name]
    ensures FileName(Join(base, name)) == Some(name)
    ensures IsPrefix(base, Join(base, name))
  {
    JoinComponent(base, name);
  }

  /** Joining a piece that survives as a component adds exactly that component. */
  lemma JoinComponent(base: Path, name: string)
    requires IsKeptPiece(name)
    ensures Components(Join(base, name)) == Components(base) + [name]
  {
    if base == "" {
      JoinOntoEmpty(name);
    } else if base[|base| - 1] == Separator {
      KeepAfterSeparator(base, name);
    } else {
      JoinAddingSeparator(base, name);
    }
  }

  /** Joining onto the empty path gives the piece alone as the only component. */
  lemma JoinOntoEmpty(name: string)
    requires IsKeptPiece(name)
    ensures Components(Join("", name)) == Components("") + [name]
  {
    assert Join("", name) == name;
    SplitSingle(name);
    KeepSingle(name);
    assert Split("") == [""];
    KeepSingle("");
  }

  /** A path that ends by climbing to the parent has no file name, as Rust's `file_name` gives for "a/..". */
  lemma FileNameOfParent(p: Path)
    ensures FileName(Join(p, "..")) == None
  {
    JoinComponent(p, "..");
  }

  /** A trailing separator changes neither the components nor the file name: "a/b/" names "b". */
  lemma FileNameIgnoresTrailingSeparator(p: Path)
    ensures Components(p + [Separator]) == Components(p)
    ensures FileName(p + [Separator]) == FileName(p)
  {
    SplitAppendSeparator(p);
    KeepDropsLast(Split(p), "");
  }

  /** A trailing "/." changes neither the components nor the file name: "a/b/." names "b". */
  lemma FileNameIgnoresTrailingCur(p: Path)
    ensures Components(p + [Separator, '.']) == Components(p)
    ensures FileName(p + [Separator, '.']) == FileName(p)
  {
    SplitTrailingCur(p);
    KeepDropsLast(Split(p), ".");
  }

  /** Appending "/." adds one "." piece. */
  lemma SplitTrailingCur(p: Path)
    ensures Split(p + [Separator, '.']) == Split(p) + ["."]
  {
    var dot := ".";
    assert p + [Separator, '.'] == p + [Separator] + dot;
    SplitAppendSegment(p, dot);
  }

  /** An empty or "." piece at the end adds no component. */
  lemma KeepDropsLast(segs: seq<string>, last: string)
    requires IsCurOrEmpty(last)
    ensures Keep(segs + [last]) == Keep(segs)
  {
    assert (segs + [last])[..|segs|] == segs;
  }

  /** After a trailing separator, a kept piece becomes the one new component. */
  lemma KeepAfterSeparator(base: Path, name: string)
    requires IsKeptPiece(name)
    requires base != "" && base[|base| - 1] == Separator
    ensures Keep(Split(base + name)) == Keep(Split(base)) + [name]
  {
    var sq := Split(base[..|base| - 1]);
    SplitAfterSeparator(base, name);
    KeepAppend(sq, [""]);
    KeepSingle("");
    assert Keep(Split(base)) == Keep(sq) + [];
    KeepAppend(sq, [name]);
    KeepSingle(name);
  }

  /** A path ending in a separator splits into the pieces before it and an empty last piece, which appended text fills. */
  lemma SplitAfterSeparator(base: Path, name: string)
    requires Separator !in name
    requires base != "" && base[|base| - 1] == Separator
    ensures Split(base) == Split(base[..|base| - 1]) + [""]
    ensures Split(base + name) == Split(base[..|base| - 1]) + [name]
  {
    var q := base[..|base| - 1];
    assert q + [Separator] == base;
    SplitAppendSeparator(q);
    var s := Split(base);
    SplitAppendPlain(base, name);
    assert s[..|s| - 1] == Split(q);
    assert s[|s| - 1] + name == name;
  }

  /** Adding a separator and a kept piece adds exactly that component. */
  lemma JoinAddingSeparator(base: Path, name: string)
    requires IsKeptPiece(name)
    ensures Components(base + [Separator] + name) == Components(base) + [name]
  {
    SplitAppendSegment(base, name);
    KeepAppend(Split(base), [name]);
    KeepSingle(name);
  }
}
