/**
 * The sibling cache of Java source nodes, keyed by the normalised URI string
 * (`Uri.parse(node.uri).toString()`).
 */
module ExplorerNodeModel {
  import opened Wrappers
  import opened Paths
  import opened Nodes

  type SourceNodeMapping = map<string, DataNode>

  /** `getNodeByUri(uri)`. */
  function GetNodeByUri(m: SourceNodeMapping, uri: string): (r: Option<DataNode>)
    ensures r.Some? <==> uri in m
    ensures r.Some? ==> r.value == m[uri]
  {
    if uri in m then Some(m[uri]) else None
  }

  /** The key `saveNode` files a node under. */
  function KeyOf(parse: string -> Uri, d: DataNode): string {
    parse(d.uri).text
  }

  /** `saveNode(node)`: only DataNodes whose normalised URI has extension `.java` are kept. */
  function SaveNode(parse: string -> Uri, m: SourceNodeMapping, node: ExplorerNode): (r: SourceNodeMapping)
    ensures node.Other? ==> r == m
    ensures node.Data? && !IsJavaName(BaseName(KeyOf(parse, node.data))) ==> r == m
    ensures node.Data? && IsJavaName(BaseName(KeyOf(parse, node.data))) ==>
              GetNodeByUri(r, KeyOf(parse, node.data)) == Some(node.data)
    ensures forall key :: (node.Data? ==> key != KeyOf(parse, node.data)) ==> GetNodeByUri(r, key) == GetNodeByUri(m, key)
  {
    match node
    case Other(_) => m
    case Data(d) =>
      var parsedUriString := parse(d.uri).text;
      JavaExtension(parsedUriString);
      if ExtName(parsedUriString) != ".java" then m
      else m[parsedUriString := d]
  }

  /** `saveNodes(nodes)`: each node saved in order. */
  function SaveNodes(parse: string -> Uri, m: SourceNodeMapping, nodes: seq<ExplorerNode>): (r: SourceNodeMapping)
    ensures m.Keys <= r.Keys
    ensures forall key :: key in r && key !in m ==>
              exists i :: 0 <= i < |nodes| && nodes[i].Data? && KeyOf(parse, nodes[i].data) == key
    decreases |nodes|
  {
    if nodes == [] then m
    else
      var r := SaveNodes(parse, SaveNode(parse, m, nodes[0]), nodes[1..]);
      assert forall i :: 0 <= i < |nodes[1..]| ==> nodes[1..][i] == nodes[i + 1];
      r
  }

  /** Saving `a + b` is saving `a`, then `b`. */
  lemma {:induction false} SaveNodesAppend(parse: string -> Uri, m: SourceNodeMapping, a: seq<ExplorerNode>, b: seq<ExplorerNode>)
    ensures SaveNodes(parse, m, a + b) == SaveNodes(parse, SaveNodes(parse, m, a), b)
    decreases |a|
  {
    if a == [] {
      assert a + b == b;
    } else {
      assert (a + b)[0] == a[0];
      assert (a + b)[1..] == a[1..] + b;
      SaveNodesAppend(parse, SaveNode(parse, m, a[0]), a[1..], b);
    }
  }

  lemma SaveNodesOne(parse: string -> Uri, m: SourceNodeMapping, node: ExplorerNode)
    ensures SaveNodes(parse, m, [node]) == SaveNode(parse, m, node)
  {
    assert [node][1..] == [];
  }

  /** A batch with no DataNode filed under `key` leaves that key's entry unchanged. */
  lemma {:induction false} SaveNodesKeepsOtherKeys(parse: string -> Uri, m: SourceNodeMapping, nodes: seq<ExplorerNode>, key: string)
    requires forall i :: 0 <= i < |nodes| && nodes[i].Data? ==> KeyOf(parse, nodes[i].data) != key
    ensures GetNodeByUri(SaveNodes(parse, m, nodes), key) == GetNodeByUri(m, key)
    decreases |nodes|
  {
    if nodes != [] {
      assert forall i :: 0 <= i < |nodes[1..]| ==> nodes[1..][i] == nodes[i + 1];
      SaveNodesKeepsOtherKeys(parse, SaveNode(parse, m, nodes[0]), nodes[1..], key);
    }
  }

  /**
   * The last write to a key wins: a Java DataNode that no later DataNode shares
   * a key with is what its key returns after the batch.
   */
  lemma SaveNodesLastWins(parse: string -> Uri, m: SourceNodeMapping, nodes: seq<ExplorerNode>, k: nat)
    requires k < |nodes| && nodes[k].Data?
    requires IsJavaName(BaseName(KeyOf(parse, nodes[k].data)))
    requires forall i :: k < i < |nodes| && nodes[i].Data? ==> KeyOf(parse, nodes[i].data) != KeyOf(parse, nodes[k].data)
    ensures GetNodeByUri(SaveNodes(parse, m, nodes), KeyOf(parse, nodes[k].data)) == Some(nodes[k].data)
  {
    var key := KeyOf(parse, nodes[k].data);
    var before, after := nodes[..k], nodes[k + 1..];
    TakeDrop(nodes, k);
    SaveNodesAppend(parse, m, before + [nodes[k]], after);
    SaveNodesAppend(parse, m, before, [nodes[k]]);
    var mid := SaveNodes(parse, m, before + [nodes[k]]);
    SaveNodesOne(parse, SaveNodes(parse, m, before), nodes[k]);
    LaterKeysDiffer(parse, nodes, k, after, key);
    SaveNodesKeepsOtherKeys(parse, mid, after, key);
  }

  lemma LaterKeysDiffer(parse: string -> Uri, nodes: seq<ExplorerNode>, k: nat, after: seq<ExplorerNode>, key: string)
    requires k < |nodes| && after == nodes[k + 1..]
    requires forall i :: k < i < |nodes| && nodes[i].Data? ==> KeyOf(parse, nodes[i].data) != key
    ensures forall i :: 0 <= i < |after| && after[i].Data? ==> KeyOf(parse, after[i].data) != key
  {
    assert forall i :: 0 <= i < |after| ==> after[i] == nodes[k + 1 + i];
  }

  /** `clearAll()`. */
  function ClearAll(m: SourceNodeMapping): (r: SourceNodeMapping)
    ensures forall key :: GetNodeByUri(r, key) == None
  {
    map[]
  }
}
