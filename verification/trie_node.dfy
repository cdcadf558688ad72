/** One node of the path trie: a key, an optional cached node and the children by segment. */
module TrieNodes {
  import opened Wrappers
  import opened Nodes

  /** `key` is `None` only at the root. */
  datatype TrieNode = TrieNode(key: Option<string>, value: Option<DataNode>, children: map<string, TrieNode>)

  /** `new TrieNode(key, value)`: no children yet. */
  function New(key: Option<string>, value: Option<DataNode>): (n: TrieNode)
    ensures n.key == key && n.value == value
    ensures n.children == map[]
  {
    TrieNode(key, value, map[])
  }

  /** The `value` setter: what the getter reads next; key and children are kept. */
  function SetValue(n: TrieNode, value: Option<DataNode>): (r: TrieNode)
    ensures r.value == value
    ensures r.key == n.key && r.children == n.children
  {
    n.(value := value)
  }

  /** `removeChildren()`: the child map is replaced by an empty one; key and value are kept. */
  function RemoveChildren(n: TrieNode): (r: TrieNode)
    ensures r.children == map[]
    ensures r.key == n.key && r.value == n.value
  {
    n.(children := map[])
  }

  lemma RemoveChildrenIdempotent(n: TrieNode)
    ensures RemoveChildren(RemoveChildren(n)) == RemoveChildren(n)
  {
  }

  /**
   * Every child is stored under its own key: the shape `insert` builds. The
   * extension never reads a node's key back, so no operation depends on this;
   * it records that the trie every cache operation produces keeps that shape.
   */
  ghost predicate WellKeyed(t: TrieNode)
    decreases t
  {
    forall k :: k in t.children ==> t.children[k].key == Some(k) && WellKeyed(t.children[k])
  }
}
