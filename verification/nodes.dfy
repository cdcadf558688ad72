/**
 * The explorer's tree nodes and the editor services the caches consult.
 * Nodes are identified by `id`, so that two node objects with the same URI
 * stay distinct, as they do in the extension.
 */
module Nodes {
  import opened Wrappers

  type NodeId = nat

  /** A parsed resource identifier: its scheme, its `fsPath` and its `toString()`. */
  datatype Uri = Uri(scheme: string, fsPath: string, text: string)

  /**
   * The editor services the caches call but whose code is not part of this model:
   * `Uri.parse` and `workspace.getWorkspaceFolder(uri) !== undefined`.
   */
  datatype Host = Host(parse: string -> Uri, inWorkspace: Uri -> bool)

  /**
   * A node backed by a file, folder, package or archive member. `parent` is the
   * id `getParent()` returns; the expansion cache (`nodeData.children`) is kept
   * apart, keyed by `id`.
   */
  datatype DataNode = DataNode(id: NodeId, uri: string, parent: Option<NodeId>)

  /** An explorer node: a DataNode, or any other kind (such as the placeholder shown while the server starts). */
  datatype ExplorerNode = Data(data: DataNode) | Other(id: NodeId)

  /** The scheme of read-only class files served from archives. */
  const JdtScheme: string := "jdt"

  predicate IsJdtClass(uri: Uri) {
    uri.scheme == JdtScheme
  }
}
