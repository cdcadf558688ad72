/**
 * Filesystem path handling as the trie and the watcher use it: `String.split`
 * on the path separator, the non-empty segments the trie walks, and Node's
 * posix `path.extname`.
 */
module Paths {
  import opened Wrappers

  /** `path.sep` on a posix host. */
  const Sep: char := '/'

  /** The first index of `ch` in `s`, if any. */
  function IndexOf(s: string, ch: char): (r: Option<nat>)
    ensures r.Some? ==> (r.value < |s| && s[r.value] == ch && ch !in s[..r.value])
    ensures r.None? <==> ch !in s
  {
    if s == [] then None
    else if s[0] == ch then Some(0)
    else match IndexOf(s[1..], ch)
      case None => None
      case Some(i) =>
        assert s[..i + 1] == [s[0]] + s[1..][..i];
        Some(i + 1)
  }

  /** JavaScript `s.split(sep)` for a one-character separator: never empty. */
  function Split(s: string, sep: char): (parts: seq<string>)
    ensures |parts| >= 1
    decreases |s|
  {
    match IndexOf(s, sep)
    case None => [s]
    case Some(i) => [s[..i]] + Split(s[i + 1..], sep)
  }

  /** No piece of a split contains the separator. */
  lemma {:induction false} SplitSeparatorFree(s: string, sep: char)
    ensures forall i :: 0 <= i < |Split(s, sep)| ==> sep !in Split(s, sep)[i]
    decreases |s|
  {
    match IndexOf(s, sep)
    case None =>
    case Some(i) => SplitSeparatorFree(s[i + 1..], sep);
  }

  /** `parts.join(sep)`: the inverse of `Split`. */
  function Join(parts: seq<string>, sep: char): string
    requires |parts| >= 1
  {
    if |parts| == 1 then parts[0] else parts[0] + [sep] + Join(parts[1..], sep)
  }

  /** Splitting then joining gives the string back. */
  lemma {:induction false} JoinSplit(s: string, sep: char)
    ensures Join(Split(s, sep), sep) == s
    decreases |s|
  {
    match IndexOf(s, sep)
    case None =>
    case Some(i) =>
      var rest := Split(s[i + 1..], sep);
      JoinSplit(s[i + 1..], sep);
      assert Split(s, sep)[1..] == rest;
      assert s[..i] + [sep] + s[i + 1..] == s;
  }

  /** The first separator of `a + [sep] + b` is the first of `a`, or the one added. */
  lemma IndexOfAround(a: string, b: string, sep: char)
    ensures IndexOf(a + [sep] + b, sep) == if sep in a then IndexOf(a, sep) else Some(|a|)
    decreases |a|
  {
    if a != [] {
      assert (a + [sep] + b)[1..] == a[1..] + [sep] + b;
      IndexOfAround(a[1..], b, sep);
      assert sep in a <==> a[0] == sep || sep in a[1..];
    }
  }

  /** A separator splits a string into the pieces of either side. */
  lemma {:induction false} SplitAround(a: string, b: string, sep: char)
    ensures Split(a + [sep] + b, sep) == Split(a, sep) + Split(b, sep)
    decreases |a|
  {
    IndexOfAround(a, b, sep);
    if sep in a {
      var i := IndexOf(a, sep).value;
      SliceAround(a, b, sep, i);
      SplitAround(a[i + 1..], b, sep);
      SplitUnfold(a + [sep] + b, sep, i);
      SplitUnfold(a, sep, i);
      ConsAssociates(a[..i], Split(a[i + 1..], sep), Split(b, sep));
    } else {
      SplitAroundLast(a, b, sep);
    }
  }

  /** `Split` takes its first piece up to the first separator. */
  lemma SplitUnfold(s: string, sep: char, i: nat)
    requires IndexOf(s, sep) == Some(i)
    ensures Split(s, sep) == [s[..i]] + Split(s[i + 1..], sep)
  {
  }

  /** Slicing `a + [sep] + b` before the end of `a`. */
  lemma SliceAround(a: string, b: string, sep: char, i: nat)
    requires i < |a|
    ensures (a + [sep] + b)[..i] == a[..i]
    ensures (a + [sep] + b)[i + 1..] == a[i + 1..] + [sep] + b
  {
  }

  /** When `a` holds no separator, the one added ends the first piece, which is `a`. */
  lemma SplitAroundLast(a: string, b: string, sep: char)
    requires IndexOf(a + [sep] + b, sep) == Some(|a|)
    requires sep !in a
    ensures Split(a + [sep] + b, sep) == Split(a, sep) + Split(b, sep)
  {
    var x := a + [sep] + b;
    assert x[..|a|] == a;
    assert x[|a| + 1..] == b;
    assert Split(x, sep) == [a] + Split(b, sep);
    assert Split(a, sep) == [a];
  }

  /** Joining separator-free pieces then splitting gives the pieces back. */
  lemma {:induction false} SplitJoin(parts: seq<string>, sep: char)
    requires |parts| >= 1
    requires forall i :: 0 <= i < |parts| ==> sep !in parts[i]
    ensures Split(Join(parts, sep), sep) == parts
  {
    if |parts| > 1 {
      SplitAround(parts[0], Join(parts[1..], sep), sep);
      SplitJoin(parts[1..], sep);
      assert [parts[0]] + parts[1..] == parts;
    }
  }

  /** A string without the separator is one piece. */
  lemma {:induction false} NoSeparatorSplit(s: string, sep: char)
    requires sep !in s
    ensures Split(s, sep) == [s]
  {
  }

  /** The pieces that are not empty, in order: the `if (!segment) continue` of the trie walks. */
  function NonEmpty(parts: seq<string>): (kept: seq<string>)
    ensures forall i :: 0 <= i < |kept| ==> kept[i] != []
    ensures |kept| <= |parts|
  {
    if parts == [] then []
    else if parts[0] == [] then NonEmpty(parts[1..])
    else [parts[0]] + NonEmpty(parts[1..])
  }

  /** Skipping empty pieces keeps exactly the non-empty ones: nothing is added. */
  lemma {:induction false} NonEmptyMembers(parts: seq<string>)
    ensures forall s :: s in NonEmpty(parts) <==> s in parts && s != []
  {
    if parts != [] {
      NonEmptyMembers(parts[1..]);
      assert parts == [parts[0]] + parts[1..];
    }
  }

  lemma {:induction false} NonEmptyKeepsSeparatorFree(parts: seq<string>, sep: char)
    requires forall i :: 0 <= i < |parts| ==> sep !in parts[i]
    ensures forall i :: 0 <= i < |NonEmpty(parts)| ==> sep !in NonEmpty(parts)[i]
  {
    if parts != [] {
      NonEmptyKeepsSeparatorFree(parts[1..], sep);
    }
  }

  lemma {:induction false} NonEmptyAppend(a: seq<string>, b: seq<string>)
    ensures NonEmpty(a + b) == NonEmpty(a) + NonEmpty(b)
  {
    if a != [] {
      assert (a + b)[0] == a[0];
      assert (a + b)[1..] == a[1..] + b;
      NonEmptyAppend(a[1..], b);
    } else {
      assert a + b == b;
    }
  }

  lemma {:induction false} NonEmptyIdentity(parts: seq<string>)
    requires forall i :: 0 <= i < |parts| ==> parts[i] != []
    ensures NonEmpty(parts) == parts
  {
    if parts != [] {
      NonEmptyIdentity(parts[1..]);
      assert [parts[0]] + parts[1..] == parts;
    }
  }

  /** The segments the trie walks for a filesystem path. */
  function Segments(fsPath: string): (segs: seq<string>)
    ensures forall i :: 0 <= i < |segs| ==> segs[i] != [] && Sep !in segs[i]
  {
    SplitSeparatorFree(fsPath, Sep);
    NonEmptyKeepsSeparatorFree(Split(fsPath, Sep), Sep);
    NonEmpty(Split(fsPath, Sep))
  }

  /** A well-formed segment: what `Segments` can produce. */
  predicate IsSegment(s: string) {
    s != [] && Sep !in s
  }

  /** The absolute path `/s1/s2/.../sn` of a segment sequence. */
  function AbsolutePath(segs: seq<string>): (p: string)
    ensures p == [] || p[0] == Sep
  {
    if segs == [] then [] else [Sep] + segs[0] + AbsolutePath(segs[1..])
  }

  /** Empty segments never reach the trie: separators may be doubled, leading or trailing. */
  lemma {:induction false} SegmentsAround(a: string, b: string)
    ensures Segments(a + [Sep] + b) == Segments(a) + Segments(b)
  {
    SplitAround(a, b, Sep);
    NonEmptyAppend(Split(a, Sep), Split(b, Sep));
  }

  /** Paths without any non-empty segment: the empty path and the lone separator. */
  lemma RootPaths()
    ensures Segments([]) == []
    ensures Segments([Sep]) == []
  {
    assert Split([], Sep) == [[]];
    assert NonEmpty([[]]) == NonEmpty([]);
    assert IndexOf([Sep], Sep) == Some(0);
    assert [Sep][1..] == [];
    assert Split([Sep], Sep) == [[]] + [[]];
    assert NonEmpty([[], []]) == NonEmpty([[]]);
  }

  /** A single well-formed segment is its own segmentation. */
  lemma SegmentsOfSegment(s: string)
    requires IsSegment(s)
    ensures Segments(s) == [s]
  {
    NoSeparatorSplit(s, Sep);
    assert NonEmpty([s]) == [s] + NonEmpty([]);
  }

  /** Every sequence of well-formed segments is the segmentation of its absolute path. */
  lemma {:induction false} SegmentsOfAbsolutePath(segs: seq<string>)
    requires forall i :: 0 <= i < |segs| ==> IsSegment(segs[i])
    ensures Segments(AbsolutePath(segs)) == segs
  {
    if segs == [] {
      RootPaths();
    } else {
      SegmentsOfAbsolutePath(segs[1..]);
      SegmentsPrefixed(segs[0], AbsolutePath(segs[1..]));
      assert [segs[0]] + segs[1..] == segs;
    }
  }

  /** A leading separator and one segment contribute exactly that segment. */
  lemma SegmentsPrefixed(seg: string, tail: string)
    requires IsSegment(seg)
    requires tail == [] || tail[0] == Sep
    ensures Segments([Sep] + seg + tail) == [seg] + Segments(tail)
  {
    Regroup(Sep, seg, tail);
    SegmentsLeadingSeparator(seg + tail);
    if tail == [] {
      RootPaths();
      SegmentsOfSegment(seg);
      AppendEmpty(seg);
      AppendEmpty([seg]);
    } else {
      HeadRest(seg, tail);
      SegmentThenRest(seg, tail[1..]);
      SegmentsLeadingSeparator(tail[1..]);
    }
  }

  /** A segment followed by a separator is the first segment of the path. */
  lemma SegmentThenRest(seg: string, rest: string)
    requires IsSegment(seg)
    ensures Segments(seg + [Sep] + rest) == [seg] + Segments(rest)
  {
    SegmentsAround(seg, rest);
    SegmentsOfSegment(seg);
  }

  /** A doubled separator yields only an empty piece. */
  lemma SegmentsDoubledSeparator(a: string, b: string)
    ensures Segments(a + [Sep, Sep] + b) == Segments(a + [Sep] + b)
  {
    assert a + [Sep, Sep] + b == a + [Sep] + ([Sep] + b);
    SegmentsAround(a, [Sep] + b);
    SegmentsAround(a, b);
    SegmentsLeadingSeparator(b);
  }

  /** A leading separator yields only an empty piece. */
  lemma SegmentsLeadingSeparator(a: string)
    ensures Segments([Sep] + a) == Segments(a)
  {
    RootPaths();
    SegmentsAround([], a);
    assert [] + [Sep] + a == [Sep] + a;
  }

  /** A trailing separator yields only an empty piece. */
  lemma SegmentsTrailingSeparator(a: string)
    ensures Segments(a + [Sep]) == Segments(a)
  {
    RootPaths();
    SegmentsAround(a, []);
    assert a + [Sep] + [] == a + [Sep];
    assert Segments(a) + [] == Segments(a);
  }

  /** The last index of `ch` in `s`, if any. */
  function LastIndexOf(s: string, ch: char): (r: Option<nat>)
    ensures r.Some? ==> (r.value < |s| && s[r.value] == ch
                         && forall j :: r.value < j < |s| ==> s[j] != ch)
    ensures r.None? <==> ch !in s
  {
    if s == [] then None
    else if s[|s| - 1] == ch then Some(|s| - 1)
    else
      var r := LastIndexOf(s[..|s| - 1], ch);
      assert forall j :: 0 <= j < |s| - 1 ==> s[..|s| - 1][j] == s[j];
      r
  }

  /** The path without its trailing separators. */
  function TrimTrailing(p: string): (q: string)
    ensures q <= p
    ensures q == [] || q[|q| - 1] != Sep
    ensures forall j :: |q| <= j < |p| ==> p[j] == Sep
  {
    if p != [] && p[|p| - 1] == Sep then TrimTrailing(p[..|p| - 1]) else p
  }

  /** The last path component, as Node's `path.basename` without a suffix. */
  function BaseName(p: string): (c: string)
    ensures Sep !in c
    ensures Sep !in p ==> c == p
  {
    var q := TrimTrailing(p);
    match LastIndexOf(q, Sep)
    case None => q
    case Some(i) =>
      var c := q[i + 1..];
      assert forall j :: 0 <= j < |c| ==> c[j] == q[i + 1 + j];
      c
  }

  /**
   * Node's posix `path.extname`: from the last dot of the last component to its
   * end, except that a component starting with its only dot, or `..`, has none.
   */
  function ExtName(p: string): (e: string)
    ensures e == [] || (e[0] == '.' && '.' !in e[1..])
    ensures Sep !in e
  {
    ComponentExt(BaseName(p))
  }

  /** The extension of one path component: empty, or its suffix from its last dot. */
  function ComponentExt(c: string): (e: string)
    ensures e == [] || (e[0] == '.' && '.' !in e[1..])
    ensures |e| <= |c| && e == c[|c| - |e|..]
    ensures '.' !in c ==> e == []
  {
    match LastIndexOf(c, '.')
    case None => []
    case Some(d) => if d == 0 || c == ".." then [] else c[d..]
  }

  /** A Java source file name: something before a final `.java`. */
  predicate IsJavaName(c: string) {
    |c| > 5 && c[|c| - 5..] == ".java"
  }

  /** `path.extname(p) === ".java"` exactly when the last component is a Java source file name. */
  lemma JavaExtension(p: string)
    ensures ExtName(p) == ".java" <==> IsJavaName(BaseName(p))
  {
    var c := BaseName(p);
    if IsJavaName(c) {
      JavaNameExt(c);
    }
    if ComponentExt(c) == ".java" {
      ExtJavaName(c);
    }
  }

  lemma JavaNameExt(c: string)
    requires IsJavaName(c)
    ensures ComponentExt(c) == ".java"
  {
    var d := |c| - 5;
    assert c[d] == '.';
    assert forall j :: d < j < |c| ==> c[j] == c[d..][j - d];
    assert LastIndexOf(c, '.') == Some(d);
  }

  lemma ExtJavaName(c: string)
    requires ComponentExt(c) == ".java"
    ensures IsJavaName(c)
  {
    var d := LastIndexOf(c, '.').value;
    assert c[d..] == ".java";
    assert |c| - d == 5;
  }
}
