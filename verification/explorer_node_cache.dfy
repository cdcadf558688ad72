/**
 * The two-tier node cache: a trie over filesystem paths for nodes inside the
 * workspace, and a flat map by `fsPath` for read-only `jdt:` class files.
 * Which tier a URI belongs to depends on the URI alone.
 */
module ExplorerNodeCache {
  import opened Wrappers
  import opened Paths
  import opened Nodes
  import opened TrieNodes
  import opened Tries

  /**
   * The cache's two tiers, together with the expansion flag of every node
   * (`nodeData.children !== undefined`), which the extension keeps on the node
   * objects themselves and which invalidation resets.
   */
  datatype Cache = Cache(mutableNodes: TrieNode, readonlyNodes: map<string, DataNode>, expanded: map<NodeId, bool>)

  /** A fresh cache over the given expansion flags. */
  function Init(expanded: map<NodeId, bool>): (c: Cache)
    ensures WellKeyed(c.mutableNodes)
    ensures c.mutableNodes.value == None && c.mutableNodes.children == map[]
    ensures c.readonlyNodes == map[] && c.expanded == expanded
  {
    Cache(Empty(), map[], expanded)
  }

  /** Where a URI's node lives: the trie path, the read-only key, or nowhere. */
  datatype Slot = MutableSlot(segs: seq<string>) | ReadOnlySlot(fsPath: string) | NoSlot

  /** The routing of `getDataNode` and `saveNode`: workspace membership first, then the `jdt` scheme. */
  function SlotOf(host: Host, uri: Uri): Slot {
    if host.inWorkspace(uri) then MutableSlot(Segments(uri.fsPath))
    else if IsJdtClass(uri) then ReadOnlySlot(uri.fsPath)
    else NoSlot
  }

  /** `getDataNode(uri)`. */
  function GetDataNode(host: Host, c: Cache, uri: Uri): (r: Option<DataNode>)
    ensures host.inWorkspace(uri) ==> r == ValueAt(c.mutableNodes, Segments(uri.fsPath))
    ensures !host.inWorkspace(uri) && IsJdtClass(uri) ==>
              r == (if uri.fsPath in c.readonlyNodes then Some(c.readonlyNodes[uri.fsPath]) else None)
    ensures !host.inWorkspace(uri) && !IsJdtClass(uri) ==> r == None
  {
    if host.inWorkspace(uri) then
      match Find(c.mutableNodes, uri.fsPath)
      case None => None
      case Some(n) => n.value
    else if IsJdtClass(uri) then
      if uri.fsPath in c.readonlyNodes then Some(c.readonlyNodes[uri.fsPath]) else None
    else None
  }

  /** What `getDataNode` reads depends only on the URI's slot. */
  function Lookup(c: Cache, slot: Slot): Option<DataNode> {
    match slot
    case MutableSlot(segs) => ValueAt(c.mutableNodes, segs)
    case ReadOnlySlot(p) => if p in c.readonlyNodes then Some(c.readonlyNodes[p]) else None
    case NoSlot => None
  }

  lemma GetDataNodeBySlot(host: Host, c: Cache, uri: Uri)
    ensures GetDataNode(host, c, uri) == Lookup(c, SlotOf(host, uri))
  {
  }

  /** `findParentExplorerNode(uri)`: only the mutable tier has ancestors to report. */
  function FindParentExplorerNode(host: Host, c: Cache, uri: Uri): (r: Option<NodeId>)
    ensures !host.inWorkspace(uri) ==> r == None
    ensures host.inWorkspace(uri) && r.Some? ==>
              exists i :: 1 <= i <= |Segments(uri.fsPath)|
                          && ValueAt(c.mutableNodes, Segments(uri.fsPath)[..i]).Some?
                          && ValueAt(c.mutableNodes, Segments(uri.fsPath)[..i]).value.parent == r
  {
    if !host.inWorkspace(uri) then None
    else
      DeepestValuedSpec(c.mutableNodes, Segments(uri.fsPath));
      Tries.FindParentExplorerNode(c.mutableNodes, uri.fsPath)
  }

  /** A node `saveNode` stores: a DataNode whose URI is in the workspace or is a `jdt` class file. */
  predicate Saveable(host: Host, node: ExplorerNode) {
    node.Data? && SlotOf(host, host.parse(node.data.uri)) != NoSlot
  }

  /** `saveNode(node)`: route by the parsed URI; every other node is ignored. */
  function SaveNode(host: Host, c: Cache, node: ExplorerNode): (r: Cache)
    ensures !Saveable(host, node) ==> r == c
    ensures Saveable(host, node) ==> GetDataNode(host, r, host.parse(node.data.uri)) == Some(node.data)
    ensures node.Data? && host.inWorkspace(host.parse(node.data.uri)) ==> r.readonlyNodes == c.readonlyNodes
    ensures node.Data? && !host.inWorkspace(host.parse(node.data.uri)) ==> r.mutableNodes == c.mutableNodes
    ensures r.expanded == c.expanded
  {
    match node
    case Other(_) => c
    case Data(d) =>
      var uri := host.parse(d.uri);
      if host.inWorkspace(uri) then
        InsertThenFind(c.mutableNodes, host.parse, d);
        c.(mutableNodes := Insert(c.mutableNodes, host.parse, d))
      else if IsJdtClass(uri) then
        c.(readonlyNodes := c.readonlyNodes[uri.fsPath := d])
      else c
  }

  /** `saveNode` leaves what every other slot reads unchanged. */
  lemma SaveNodeKeepsOtherSlots(host: Host, c: Cache, node: ExplorerNode, uri: Uri)
    requires node.Data? ==> SlotOf(host, uri) != SlotOf(host, host.parse(node.data.uri))
    ensures GetDataNode(host, SaveNode(host, c, node), uri) == GetDataNode(host, c, uri)
  {
    if node.Data? {
      var d := node.data;
      var u := host.parse(d.uri);
      if host.inWorkspace(u) && host.inWorkspace(uri) {
        InsertKeepsOtherValues(c.mutableNodes, Segments(u.fsPath), d, Segments(uri.fsPath));
      }
    }
  }

  /** `saveNodes(nodes)`: each node saved in order. */
  function SaveNodes(host: Host, c: Cache, nodes: seq<ExplorerNode>): (r: Cache)
    ensures r.expanded == c.expanded
    ensures (forall i :: 0 <= i < |nodes| ==> !Saveable(host, nodes[i])) ==> r == c
    decreases |nodes|
  {
    if nodes == [] then c else SaveNodes(host, SaveNode(host, c, nodes[0]), nodes[1..])
  }

  /** Saving `a + b` is saving `a`, then `b`. */
  lemma {:induction false} SaveNodesAppend(host: Host, c: Cache, a: seq<ExplorerNode>, b: seq<ExplorerNode>)
    ensures SaveNodes(host, c, a + b) == SaveNodes(host, SaveNodes(host, c, a), b)
    decreases |a|
  {
    if a == [] {
      assert a + b == b;
    } else {
      assert (a + b)[0] == a[0];
      assert (a + b)[1..] == a[1..] + b;
      SaveNodesAppend(host, SaveNode(host, c, a[0]), a[1..], b);
    }
  }

  /** A batch none of whose saveable nodes falls in `uri`'s slot leaves what `uri` reads unchanged. */
  lemma {:induction false} SaveNodesKeepsUntouchedSlot(host: Host, c: Cache, nodes: seq<ExplorerNode>, uri: Uri)
    requires forall i :: 0 <= i < |nodes| && Saveable(host, nodes[i]) ==>
               SlotOf(host, host.parse(nodes[i].data.uri)) != SlotOf(host, uri)
    ensures GetDataNode(host, SaveNodes(host, c, nodes), uri) == GetDataNode(host, c, uri)
    decreases |nodes|
  {
    if nodes != [] {
      if Saveable(host, nodes[0]) {
        SaveNodeKeepsOtherSlots(host, c, nodes[0], uri);
      }
      assert forall i :: 0 <= i < |nodes[1..]| ==> nodes[1..][i] == nodes[i + 1];
      SaveNodesKeepsUntouchedSlot(host, SaveNode(host, c, nodes[0]), nodes[1..], uri);
    }
  }

  /**
   * The last write to a slot wins: a saveable node that no later saveable node
   * shares a slot with is what its URI reads after the batch.
   */
  lemma SaveNodesLastWins(host: Host, c: Cache, nodes: seq<ExplorerNode>, k: nat)
    requires k < |nodes| && Saveable(host, nodes[k])
    requires forall i :: k < i < |nodes| && Saveable(host, nodes[i]) ==>
               SlotOf(host, host.parse(nodes[i].data.uri)) != SlotOf(host, host.parse(nodes[k].data.uri))
    ensures GetDataNode(host, SaveNodes(host, c, nodes), host.parse(nodes[k].data.uri)) == Some(nodes[k].data)
  {
    var uri := host.parse(nodes[k].data.uri);
    var before, after := nodes[..k], nodes[k + 1..];
    TakeDrop(nodes, k);
    SaveNodesAppend(host, c, before + [nodes[k]], after);
    SaveNodesAppend(host, c, before, [nodes[k]]);
    var mid := SaveNodes(host, c, before + [nodes[k]]);
    assert mid == SaveNode(host, SaveNodes(host, c, before), nodes[k]);
    assert forall i :: 0 <= i < |after| ==> after[i] == nodes[k + 1 + i];
    SaveNodesKeepsUntouchedSlot(host, mid, after, uri);
  }

  /** The private `clearAll()`: both tiers emptied. */
  function ClearAll(c: Cache): (r: Cache)
    ensures r.readonlyNodes == map[] && r.expanded == c.expanded
    ensures r.mutableNodes.value == c.mutableNodes.value
    ensures forall segs :: segs != [] ==> FindAt(r.mutableNodes, segs) == None
  {
    c.(mutableNodes := Tries.ClearAll(c.mutableNodes), readonlyNodes := map[])
  }

  /**
   * `removeMutableNodeChildren(node)`, with the missing-value case made safe:
   * no node empties both tiers; a node that is not a workspace DataNode with a
   * trie entry changes nothing; otherwise the entry keeps its value and loses
   * its children, and the node cached there has its expansion reset, or, when
   * the entry is a placeholder, the node being invalidated has its own reset.
   */
  function RemoveMutableNodeChildren(host: Host, c: Cache, node: Option<ExplorerNode>): (r: Cache)
    ensures node.None? ==> r == ClearAll(c)
    ensures node.Some? && node.value.Other? ==> r == c
    ensures node.Some? && node.value.Data? && !host.inWorkspace(host.parse(node.value.data.uri)) ==> r == c
    ensures node.Some? && node.value.Data? && Find(c.mutableNodes, host.parse(node.value.data.uri).fsPath).None? ==> r == c
    ensures node.Some? && node.value.Data? && host.inWorkspace(host.parse(node.value.data.uri)) ==>
              var segs := Segments(host.parse(node.value.data.uri).fsPath);
              match FindAt(c.mutableNodes, segs)
              case None => true
              case Some(tn) =>
                && r.readonlyNodes == c.readonlyNodes
                && FindAt(r.mutableNodes, segs) == Some(RemoveChildren(tn))
                && r.expanded == (if tn.value.Some? then c.expanded[tn.value.value.id := false]
                                  else c.expanded[node.value.data.id := false])
  {
    match node
    case None => ClearAll(c)
    case Some(Other(_)) => c
    case Some(Data(d)) =>
      var uri := host.parse(d.uri);
      if !host.inWorkspace(uri) then c
      else
        var segs := Segments(uri.fsPath);
        match FindAt(c.mutableNodes, segs)
        case None => c
        case Some(tn) =>
          RemoveChildrenAtSpec(c.mutableNodes, segs);
          var trie := RemoveChildrenAt(c.mutableNodes, segs);
          match tn.value
          case None => c.(mutableNodes := trie, expanded := c.expanded[d.id := false])
          case Some(v) => c.(mutableNodes := trie, expanded := c.expanded[v.id := false])
  }

  /** Invalidating a cached workspace node: every strictly deeper path is gone, nothing else changes. */
  lemma RemoveMutableNodeChildrenFrame(host: Host, c: Cache, d: DataNode, other: seq<string>)
    requires host.inWorkspace(host.parse(d.uri))
    ensures var segs := Segments(host.parse(d.uri).fsPath);
            var r := RemoveMutableNodeChildren(host, c, Some(Data(d)));
            && (segs < other ==> FindAt(r.mutableNodes, other) == None)
            && (!(segs < other) ==> ValueAt(r.mutableNodes, other) == ValueAt(c.mutableNodes, other))
            && (!(segs < other) ==> (FindAt(r.mutableNodes, other).Some? <==> FindAt(c.mutableNodes, other).Some?))
  {
    var segs := Segments(host.parse(d.uri).fsPath);
    RemoveChildrenAtSpec(c.mutableNodes, segs);
    if segs < other {
      RemoveChildrenAtDeeper(c.mutableNodes, segs, other);
      if FindAt(c.mutableNodes, segs).None? {
        assert RemoveChildrenAt(c.mutableNodes, segs) == c.mutableNodes;
      }
    } else {
      RemoveChildrenAtFrame(c.mutableNodes, segs, other);
    }
  }

  /** With no node, invalidation empties both tiers: only a value stored at the trie root survives. */
  lemma RemoveAllEmptiesCache(host: Host, c: Cache, uri: Uri)
    ensures host.inWorkspace(uri) && Segments(uri.fsPath) == [] ==>
              GetDataNode(host, RemoveMutableNodeChildren(host, c, None), uri) == c.mutableNodes.value
    ensures !(host.inWorkspace(uri) && Segments(uri.fsPath) == []) ==>
              GetDataNode(host, RemoveMutableNodeChildren(host, c, None), uri) == None
  {
  }

  /** How `removeMutableNodeChildren` ends as written. */
  datatype Outcome = Completed(cache: Cache) | Crashed(partial: Cache)

  /**
   * `removeMutableNodeChildren(node)` exactly as written: when `find` lands on
   * a valueless placeholder, the children are removed and then reading
   * `trieNode.value.nodeData` throws, leaving the partial effect behind.
   */
  function RemoveMutableNodeChildrenAsWritten(host: Host, c: Cache, node: Option<ExplorerNode>): (r: Outcome)
    ensures r.Crashed? <==>
              && node.Some? && node.value.Data?
              && host.inWorkspace(host.parse(node.value.data.uri))
              && Find(c.mutableNodes, host.parse(node.value.data.uri).fsPath).Some?
              && Find(c.mutableNodes, host.parse(node.value.data.uri).fsPath).value.value.None?
    ensures r.Completed? ==> r.cache == RemoveMutableNodeChildren(host, c, node)
    ensures r.Crashed? ==> r.partial == c.(mutableNodes := RemoveMutableNodeChildren(host, c, node).mutableNodes)
  {
    match node
    case None => Completed(ClearAll(c))
    case Some(Other(_)) => Completed(c)
    case Some(Data(d)) =>
      var uri := host.parse(d.uri);
      if !host.inWorkspace(uri) then Completed(c)
      else
        var segs := Segments(uri.fsPath);
        match FindAt(c.mutableNodes, segs)
        case None => Completed(c)
        case Some(tn) =>
          var trie := RemoveChildrenAt(c.mutableNodes, segs);
          match tn.value
          case None => Crashed(c.(mutableNodes := trie))
          case Some(v) => Completed(c.(mutableNodes := trie, expanded := c.expanded[v.id := false]))
  }

  /** The editor services of a workspace that contains every file URI. */
  function FileHost(): Host {
    Host(p => Uri("file", p, p), u => true)
  }

  /** A project root at `projectPath`, id 1: never saved, since roots are not. */
  function ProjectAt(projectPath: seq<string>): DataNode {
    DataNode(1, AbsolutePath(projectPath), None)
  }

  /** The project's child `childName`, id 2. */
  function ChildAt(projectPath: seq<string>, childName: string): DataNode {
    DataNode(2, AbsolutePath(projectPath + [childName]), Some(1))
  }

  /** The cache holding only that child, as expanding the project leaves it. */
  function CacheWithChild(projectPath: seq<string>, childName: string): Cache {
    Cache(InsertAt(Empty(), projectPath + [childName], ChildAt(projectPath, childName)), map[], map[1 := true, 2 := true])
  }

  /** Saving the child into a fresh cache yields exactly that cache. */
  lemma CacheWithChildIsSaved(projectPath: seq<string>, childName: string)
    requires forall i :: 0 <= i < |projectPath| ==> IsSegment(projectPath[i])
    requires IsSegment(childName)
    ensures SaveNode(FileHost(), Init(map[1 := true, 2 := true]), Data(ChildAt(projectPath, childName)))
            == CacheWithChild(projectPath, childName)
  {
    SegmentsOfAbsolutePath(projectPath + [childName]);
  }

  /** A create or delete of `fileName` under the child targets the project. */
  lemma ChildEventTargetsProject(projectPath: seq<string>, childName: string, fileName: string)
    requires forall i :: 0 <= i < |projectPath| ==> IsSegment(projectPath[i])
    requires IsSegment(childName) && IsSegment(fileName)
    ensures FindParentExplorerNode(FileHost(), CacheWithChild(projectPath, childName),
                                   Uri("file", AbsolutePath(projectPath + [childName, fileName]), [])) == Some(1)
  {
    var childSegs := projectPath + [childName];
    var child := ChildAt(projectPath, childName);
    assert childSegs + [fileName] == projectPath + [childName, fileName];
    SegmentsOfAbsolutePath(childSegs + [fileName]);
    assert FindAt(Empty(), childSegs) == None;
    FreshInsertIsNearestAncestor(Empty(), childSegs, child, fileName);
  }

  /**
   * The project's own path holds only a placeholder, so invalidating the project
   * as written throws with every expansion flag still set, while the corrected
   * invalidation completes and resets the project's flag, so that the project
   * lists its children afresh.
   */
  lemma InvalidatingProjectCrashes(projectPath: seq<string>, childName: string)
    requires forall i :: 0 <= i < |projectPath| ==> IsSegment(projectPath[i])
    requires IsSegment(childName)
    ensures RemoveMutableNodeChildrenAsWritten(FileHost(), CacheWithChild(projectPath, childName),
                                               Some(Data(ProjectAt(projectPath)))).Crashed?
    ensures RemoveMutableNodeChildrenAsWritten(FileHost(), CacheWithChild(projectPath, childName),
                                               Some(Data(ProjectAt(projectPath)))).partial.expanded[1]
    ensures RemoveMutableNodeChildren(FileHost(), CacheWithChild(projectPath, childName),
                                      Some(Data(ProjectAt(projectPath)))).expanded
            == CacheWithChild(projectPath, childName).expanded[1 := false]
  {
    var childSegs := projectPath + [childName];
    var child := ChildAt(projectPath, childName);
    SegmentsOfAbsolutePath(projectPath);
    InsertedAncestorIsPlaceholder(childSegs, child, |projectPath|);
    assert childSegs[..|projectPath|] == projectPath;
  }

  /** Every proper prefix of a path inserted into an empty trie is a valueless placeholder. */
  lemma InsertedAncestorIsPlaceholder(segs: seq<string>, v: DataNode, j: nat)
    requires j < |segs|
    ensures FindAt(InsertAt(Empty(), segs, v), segs[..j]).Some?
    ensures FindAt(InsertAt(Empty(), segs, v), segs[..j]).value.value == None
  {
    InsertAddsOnlyAncestors(Empty(), segs, v, segs[..j]);
    InsertKeepsOtherValues(Empty(), segs, v, segs[..j]);
    if j > 0 {
      assert FindAt(Empty(), segs[..j]) == None;
    }
  }
}
