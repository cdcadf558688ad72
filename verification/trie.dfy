/**
 * The path-segment trie: insert, exact find, nearest cached ancestor and
 * clearing. Every walk skips empty segments, so it is stated over `Segments`.
 */
module Tries {
  import opened Wrappers
  import opened Paths
  import opened Nodes
  import opened TrieNodes

  /** `new Trie()`: a root with no key, no value and no children. */
  function Empty(): (root: TrieNode)
    ensures WellKeyed(root)
    ensures forall segs :: segs != [] ==> FindAt(root, segs) == None
  {
    New(None, None)
  }

  /** The exact walk of `find`, over segments. */
  function FindAt(t: TrieNode, segs: seq<string>): (r: Option<TrieNode>)
    ensures segs == [] ==> r == Some(t)
    ensures segs != [] && segs[0] !in t.children ==> r == None
    decreases |segs|
  {
    if segs == [] then Some(t)
    else if segs[0] in t.children then FindAt(t.children[segs[0]], segs[1..])
    else None
  }

  /** `find(fsPath)`. */
  function Find(root: TrieNode, fsPath: string): (r: Option<TrieNode>)
    ensures Segments(fsPath) == [] ==> r == Some(root)
  {
    FindAt(root, Segments(fsPath))
  }

  /** The value cached at an exact path: `find(p)?.value`. */
  function ValueAt(t: TrieNode, segs: seq<string>): Option<DataNode> {
    match FindAt(t, segs)
    case None => None
    case Some(n) => n.value
  }

  /** The walk of `insert`: missing children become valueless placeholders. */
  function InsertAt(t: TrieNode, segs: seq<string>, v: DataNode): (r: TrieNode)
    ensures r.key == t.key
    ensures segs != [] ==> r.value == t.value && r.children.Keys == t.children.Keys + {segs[0]}
    decreases |segs|
  {
    if segs == [] then SetValue(t, Some(v))
    else
      var child := if segs[0] in t.children then t.children[segs[0]] else New(Some(segs[0]), None);
      t.(children := t.children[segs[0] := InsertAt(child, segs[1..], v)])
  }

  /** `insert(input)`, at the segments of `Uri.parse(input.uri).fsPath`. */
  function Insert(root: TrieNode, parse: string -> Uri, input: DataNode): TrieNode {
    InsertAt(root, Segments(parse(input.uri).fsPath), input)
  }

  /**
   * The loop of `findParentExplorerNode`: `best` is `res`, replaced by each
   * valued node stepped onto; the walk ends at the first missing segment.
   */
  function DeepestValued(t: TrieNode, segs: seq<string>, best: Option<DataNode>): (r: Option<DataNode>)
    ensures best.Some? ==> r.Some?
    decreases |segs|
  {
    if segs == [] || segs[0] !in t.children then best
    else
      var c := t.children[segs[0]];
      DeepestValued(c, segs[1..], if c.value.Some? then c.value else best)
  }

  /** `findParentExplorerNode(fsPath)`: `res?.value?.getParent()`. */
  function FindParentExplorerNode(root: TrieNode, fsPath: string): (r: Option<NodeId>)
    ensures Segments(fsPath) == [] ==> r == None
  {
    match DeepestValued(root, Segments(fsPath), None)
    case None => None
    case Some(v) => v.parent
  }

  /** `clearAll()`: the root drops its children. */
  function ClearAll(root: TrieNode): (r: TrieNode)
    ensures r.value == root.value
    ensures forall segs :: segs != [] ==> FindAt(r, segs) == None
  {
    RemoveChildren(root)
  }

  /** `find(segs)?.removeChildren()`, applied in place inside the trie. */
  function RemoveChildrenAt(t: TrieNode, segs: seq<string>): (r: TrieNode)
    ensures r.key == t.key
    decreases |segs|
  {
    if segs == [] then RemoveChildren(t)
    else if segs[0] in t.children then
      t.(children := t.children[segs[0] := RemoveChildrenAt(t.children[segs[0]], segs[1..])])
    else t
  }

  // ---------------------------------------------------------------- find

  /** A walk of `a + b` is a walk of `a` followed by a walk of `b` from where it landed. */
  lemma {:induction false} FindAtAppend(t: TrieNode, a: seq<string>, b: seq<string>)
    ensures FindAt(t, a + b) == match FindAt(t, a) case None => None case Some(n) => FindAt(n, b)
    decreases |a|
  {
    if a == [] {
      assert a + b == b;
    } else {
      assert (a + b)[0] == a[0];
      assert (a + b)[1..] == a[1..] + b;
      if a[0] in t.children {
        FindAtAppend(t.children[a[0]], a[1..], b);
      }
    }
  }

  /** `find` gives up at the first segment without a child: no longer path is found either. */
  lemma MissingPrefix(t: TrieNode, segs: seq<string>, j: nat)
    requires j <= |segs|
    requires FindAt(t, segs[..j]) == None
    ensures FindAt(t, segs) == None
  {
    FindAtAppend(t, segs[..j], segs[j..]);
    assert segs[..j] + segs[j..] == segs;
  }

  /** Doubled, leading and trailing separators do not change which node `find` reaches. */
  lemma FindIgnoresEmptySegments(root: TrieNode, a: string, b: string)
    ensures Find(root, a + [Sep, Sep] + b) == Find(root, a + [Sep] + b)
    ensures Find(root, [Sep] + a) == Find(root, a)
    ensures Find(root, a + [Sep]) == Find(root, a)
  {
    SegmentsDoubledSeparator(a, b);
    SegmentsLeadingSeparator(a);
    SegmentsTrailingSeparator(a);
  }

  // -------------------------------------------------------------- insert

  /** After `insert`, the exact walk finds the inserted node; a node already there keeps its children. */
  lemma {:induction false} InsertThenFindAt(t: TrieNode, segs: seq<string>, v: DataNode)
    ensures FindAt(InsertAt(t, segs, v), segs).Some?
    ensures FindAt(InsertAt(t, segs, v), segs).value.value == Some(v)
    ensures FindAt(t, segs).Some? ==>
              FindAt(InsertAt(t, segs, v), segs).value.children == FindAt(t, segs).value.children
    decreases |segs|
  {
    if segs != [] {
      var child := if segs[0] in t.children then t.children[segs[0]] else New(Some(segs[0]), None);
      InsertThenFindAt(child, segs[1..], v);
    }
  }

  /** `find(fsPath(n.uri))` after `insert(n)` lands on a node holding `n`. */
  lemma InsertThenFind(root: TrieNode, parse: string -> Uri, input: DataNode)
    ensures Find(Insert(root, parse, input), parse(input.uri).fsPath).Some?
    ensures Find(Insert(root, parse, input), parse(input.uri).fsPath).value.value == Some(input)
  {
    InsertThenFindAt(root, Segments(parse(input.uri).fsPath), input);
  }

  /** `insert` changes the value at no other path. */
  lemma {:induction false} InsertKeepsOtherValues(t: TrieNode, segs: seq<string>, v: DataNode, other: seq<string>)
    requires other != segs
    ensures ValueAt(InsertAt(t, segs, v), other) == ValueAt(t, other)
    decreases |segs|
  {
    if segs == [] {
      assert other != [];
    } else if other != [] && other[0] == segs[0] {
      var child := if segs[0] in t.children then t.children[segs[0]] else New(Some(segs[0]), None);
      SameHead(other, segs);
      InsertKeepsOtherValues(child, segs[1..], v, other[1..]);
      if segs[0] !in t.children {
        NewNodeHasNoValues(segs[0], other[1..]);
      }
    }
  }

  /** A fresh placeholder holds no value anywhere below it. */
  lemma NewNodeHasNoValues(key: string, segs: seq<string>)
    ensures ValueAt(New(Some(key), None), segs) == None
  {
  }

  /** `insert` removes no path and adds only the inserted path and its ancestors. */
  lemma {:induction false} InsertAddsOnlyAncestors(t: TrieNode, segs: seq<string>, v: DataNode, other: seq<string>)
    ensures FindAt(InsertAt(t, segs, v), other).Some? <==> FindAt(t, other).Some? || other <= segs
    decreases |segs|
  {
    if segs != [] && other != [] && other[0] == segs[0] {
      var child := if segs[0] in t.children then t.children[segs[0]] else New(Some(segs[0]), None);
      InsertAddsOnlyAncestors(child, segs[1..], v, other[1..]);
      SameHead(other, segs);
      if segs[0] !in t.children {
        assert FindAt(child, other[1..]).Some? ==> other[1..] == [];
      }
    }
  }

  /** `insert` keeps every child stored under its own segment. */
  lemma {:induction false} InsertKeepsWellKeyed(t: TrieNode, segs: seq<string>, v: DataNode)
    requires WellKeyed(t)
    ensures WellKeyed(InsertAt(t, segs, v))
    decreases |segs|
  {
    if segs != [] {
      var child := if segs[0] in t.children then t.children[segs[0]] else New(Some(segs[0]), None);
      InsertKeepsWellKeyed(child, segs[1..], v);
      var r := InsertAt(t, segs, v);
      forall k | k in r.children
        ensures r.children[k].key == Some(k) && WellKeyed(r.children[k])
      {
      }
    }
  }

  // ------------------------------------------------------------- clearing

  /** Clearing a node's children leaves it findable with its value and every deeper path unfindable. */
  lemma {:induction false} RemoveChildrenAtSpec(t: TrieNode, segs: seq<string>)
    ensures FindAt(t, segs).Some? ==> FindAt(RemoveChildrenAt(t, segs), segs) == Some(RemoveChildren(FindAt(t, segs).value))
    ensures FindAt(t, segs).None? ==> RemoveChildrenAt(t, segs) == t
    decreases |segs|
  {
    if segs != [] && segs[0] in t.children {
      RemoveChildrenAtSpec(t.children[segs[0]], segs[1..]);
      if FindAt(t, segs).None? {
        assert t.children[segs[0] := t.children[segs[0]]] == t.children;
      }
    }
  }

  /** After clearing below `segs`, no strictly longer path through it is found. */
  lemma {:induction false} RemoveChildrenAtDeeper(t: TrieNode, segs: seq<string>, deeper: seq<string>)
    requires segs < deeper
    ensures FindAt(RemoveChildrenAt(t, segs), deeper) == None
    decreases |segs|
  {
    if segs == [] {
    } else if segs[0] in t.children {
      assert deeper[0] == segs[0];
      assert segs[1..] < deeper[1..];
      RemoveChildrenAtDeeper(t.children[segs[0]], segs[1..], deeper[1..]);
    } else {
      assert deeper[0] == segs[0];
    }
  }

  /** Clearing below `segs` changes nothing at a path that does not strictly extend it. */
  lemma {:induction false} RemoveChildrenAtFrame(t: TrieNode, segs: seq<string>, other: seq<string>)
    requires !(segs < other)
    ensures ValueAt(RemoveChildrenAt(t, segs), other) == ValueAt(t, other)
    ensures FindAt(RemoveChildrenAt(t, segs), other).Some? <==> FindAt(t, other).Some?
    decreases |segs|
  {
    if segs != [] && segs[0] in t.children && other != [] && other[0] == segs[0] {
      SameHead(segs, other);
      RemoveChildrenAtFrame(t.children[segs[0]], segs[1..], other[1..]);
    }
  }

  /** Clearing below a node keeps every child stored under its own segment. */
  lemma {:induction false} RemoveChildrenAtKeepsWellKeyed(t: TrieNode, segs: seq<string>)
    requires WellKeyed(t)
    ensures WellKeyed(RemoveChildrenAt(t, segs))
    decreases |segs|
  {
    if segs != [] && segs[0] in t.children {
      RemoveChildrenAtKeepsWellKeyed(t.children[segs[0]], segs[1..]);
      var r := RemoveChildrenAt(t, segs);
      forall k | k in r.children
        ensures r.children[k].key == Some(k) && WellKeyed(r.children[k])
      {
      }
    }
  }

  // ------------------------------------------------ nearest cached ancestor

  function Or(a: Option<DataNode>, b: Option<DataNode>): Option<DataNode> {
    if a.Some? then a else b
  }

  /**
   * The reference reading of `findParentExplorerNode`: among the prefixes
   * `segs[..1]` .. `segs[..j]`, the value at the longest one that holds one.
   * The root (the empty prefix) is never considered.
   */
  ghost function LastValuedPrefix(t: TrieNode, segs: seq<string>, j: nat): Option<DataNode>
    requires j <= |segs|
    decreases j
  {
    if j == 0 then None
    else if ValueAt(t, segs[..j]).Some? then ValueAt(t, segs[..j])
    else LastValuedPrefix(t, segs, j - 1)
  }

  /** The walk's best-so-far only matters when nothing deeper holds a value. */
  lemma {:induction false} DeepestValuedAccumulator(t: TrieNode, segs: seq<string>, best: Option<DataNode>)
    ensures DeepestValued(t, segs, best) == Or(DeepestValued(t, segs, None), best)
    decreases |segs|
  {
    if segs != [] && segs[0] in t.children {
      var c := t.children[segs[0]];
      DeepestValuedAccumulator(c, segs[1..], if c.value.Some? then c.value else best);
      DeepestValuedAccumulator(c, segs[1..], c.value);
    }
  }

  lemma {:induction false} LastValuedPrefixMissing(t: TrieNode, segs: seq<string>, j: nat)
    requires j <= |segs|
    requires segs != [] && segs[0] !in t.children
    ensures LastValuedPrefix(t, segs, j) == None
    decreases j
  {
    if j > 0 {
      assert segs[..j][0] == segs[0];
      LastValuedPrefixMissing(t, segs, j - 1);
    }
  }

  lemma {:induction false} LastValuedPrefixStep(t: TrieNode, segs: seq<string>, j: nat)
    requires 1 <= j <= |segs|
    requires segs[0] in t.children
    ensures LastValuedPrefix(t, segs, j)
            == Or(LastValuedPrefix(t.children[segs[0]], segs[1..], j - 1), t.children[segs[0]].value)
    decreases j
  {
    var c := t.children[segs[0]];
    assert segs[..j][0] == segs[0];
    assert segs[..j][1..] == segs[1..][..j - 1];
    assert ValueAt(t, segs[..j]) == ValueAt(c, segs[1..][..j - 1]);
    if j > 1 && ValueAt(t, segs[..j]).None? {
      LastValuedPrefixStep(t, segs, j - 1);
    }
  }

  /** The loop of `findParentExplorerNode` computes the reference reading. */
  lemma {:induction false} DeepestValuedIsLastValuedPrefix(t: TrieNode, segs: seq<string>)
    ensures DeepestValued(t, segs, None) == LastValuedPrefix(t, segs, |segs|)
    decreases |segs|
  {
    if segs == [] {
    } else if segs[0] !in t.children {
      LastValuedPrefixMissing(t, segs, |segs|);
    } else {
      var c := t.children[segs[0]];
      DeepestValuedIsLastValuedPrefix(c, segs[1..]);
      DeepestValuedAccumulator(c, segs[1..], c.value);
      LastValuedPrefixStep(t, segs, |segs|);
    }
  }

  lemma {:induction false} LastValuedPrefixSpec(t: TrieNode, segs: seq<string>, j: nat)
    requires j <= |segs|
    ensures LastValuedPrefix(t, segs, j).None? <==> forall i :: 1 <= i <= j ==> ValueAt(t, segs[..i]).None?
    ensures LastValuedPrefix(t, segs, j).Some? ==>
              exists i :: 1 <= i <= j && ValueAt(t, segs[..i]) == LastValuedPrefix(t, segs, j)
                          && forall k :: i < k <= j ==> ValueAt(t, segs[..k]).None?
    decreases j
  {
    if j > 0 && ValueAt(t, segs[..j]).None? {
      LastValuedPrefixSpec(t, segs, j - 1);
    }
  }

  /**
   * The walk of `findParentExplorerNode` yields the value at the deepest valued
   * non-root prefix of the path, and nothing when no such prefix holds a value.
   */
  lemma DeepestValuedSpec(t: TrieNode, segs: seq<string>)
    ensures DeepestValued(t, segs, None).None? <==> forall i :: 1 <= i <= |segs| ==> ValueAt(t, segs[..i]).None?
    ensures DeepestValued(t, segs, None).Some? ==>
              exists i :: 1 <= i <= |segs| && ValueAt(t, segs[..i]) == DeepestValued(t, segs, None)
                          && forall k :: i < k <= |segs| ==> ValueAt(t, segs[..k]).None?
  {
    DeepestValuedIsLastValuedPrefix(t, segs);
    LastValuedPrefixSpec(t, segs, |segs|);
  }

  /** The walk stops at the first missing segment: whatever lies past the gap is never seen. */
  lemma {:induction false} DeepestValuedStopsAtGap(t: TrieNode, segs: seq<string>, g: nat, best: Option<DataNode>)
    requires g <= |segs|
    requires FindAt(t, segs[..g]) == None
    ensures DeepestValued(t, segs, best) == DeepestValued(t, segs[..g], best)
    decreases |segs|
  {
    assert g > 0;
    assert segs[..g][0] == segs[0];
    if segs[0] in t.children {
      var c := t.children[segs[0]];
      assert segs[..g][1..] == segs[1..][..g - 1];
      DeepestValuedStopsAtGap(c, segs[1..], g - 1, if c.value.Some? then c.value else best);
    }
  }

  /** Inserting at a path the trie lacks creates that path with no children below it. */
  lemma {:induction false} InsertAtFresh(t: TrieNode, segs: seq<string>, v: DataNode)
    requires FindAt(t, segs).None?
    ensures FindAt(InsertAt(t, segs, v), segs).Some?
    ensures FindAt(InsertAt(t, segs, v), segs).value.children == map[]
    decreases |segs|
  {
    if segs[0] in t.children {
      InsertAtFresh(t.children[segs[0]], segs[1..], v);
    } else {
      NewNodeInsert(segs[0], segs[1..], v);
    }
  }

  lemma {:induction false} NewNodeInsert(key: string, segs: seq<string>, v: DataNode)
    ensures FindAt(InsertAt(New(Some(key), None), segs, v), segs).Some?
    ensures FindAt(InsertAt(New(Some(key), None), segs, v), segs).value.children == map[]
    decreases |segs|
  {
    if segs != [] {
      NewNodeInsert(segs[0], segs[1..], v);
    }
  }

  /** A node just inserted at a new path is the nearest cached ancestor of every path one segment below it. */
  lemma FreshInsertIsNearestAncestor(t: TrieNode, segs: seq<string>, v: DataNode, name: string)
    requires FindAt(t, segs).None?
    ensures DeepestValued(InsertAt(t, segs, v), segs + [name], None) == Some(v)
  {
    var r := InsertAt(t, segs, v);
    var full := segs + [name];
    InsertAtFresh(t, segs, v);
    InsertThenFindAt(t, segs, v);
    FindAtAppend(r, segs, [name]);
    assert full[..|full|] == full;
    assert full[..|segs|] == segs;
    DeepestValuedIsLastValuedPrefix(r, full);
  }

  /** `findParentExplorerNode` answers the parent of the deepest cached ancestor-or-self, or nothing. */
  lemma FindParentExplorerNodeSpec(root: TrieNode, fsPath: string)
    ensures (forall i :: 1 <= i <= |Segments(fsPath)| ==> ValueAt(root, Segments(fsPath)[..i]).None?)
              ==> FindParentExplorerNode(root, fsPath) == None
    ensures forall i :: (1 <= i <= |Segments(fsPath)| && ValueAt(root, Segments(fsPath)[..i]).Some?
                         && (forall k :: i < k <= |Segments(fsPath)| ==> ValueAt(root, Segments(fsPath)[..k]).None?))
                        ==> FindParentExplorerNode(root, fsPath) == ValueAt(root, Segments(fsPath)[..i]).value.parent
  {
    var segs := Segments(fsPath);
    DeepestValuedSpec(root, segs);
    forall i | 1 <= i <= |segs| && ValueAt(root, segs[..i]).Some?
                 && (forall k :: i < k <= |segs| ==> ValueAt(root, segs[..k]).None?)
      ensures FindParentExplorerNode(root, fsPath) == ValueAt(root, segs[..i]).value.parent
    {
      var i' :| 1 <= i' <= |segs| && ValueAt(root, segs[..i']) == DeepestValued(root, segs, None)
                && forall k :: i' < k <= |segs| ==> ValueAt(root, segs[..k]).None?;
      assert i' == i;
    }
  }
}
