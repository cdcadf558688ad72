# Java Projects explorer: node cache and file watcher

This is a Dafny model of the caching core of the Java Projects explorer in the
vscode-java-dependency extension. The core has four parts:

- **The path trie.** `TrieNode` and `Trie` store tree nodes under the
  non-empty segments of their filesystem path. A walk from the root finds a
  path's node, the nearest cached ancestor of a path, and drops whole subtrees.
- **`ExplorerNodeCache`.** A two-tier cache. Nodes inside a workspace folder
  live in the trie. Read-only `jdt:` class files live in a flat map keyed by
  `fsPath`. A refresh invalidates a subtree of the cache.
- **`ExplorerNodeModel`.** A flat map of Java source nodes, keyed by their
  normalised URI string.
- **`SyncHandler`.** The file watcher. It decides which refresh request each
  event asks for: a change of workspace folders, or a file that is changed,
  created or deleted. It also keeps the list of subscriptions that decides which
  listeners hear an event.

Modules, one file each:

- `Wrappers`: `Option`.
- `Paths`: `String.split` on `/`, the non-empty segments the trie walks, and
  Node's posix `path.extname`.
- `Nodes`: URIs, the editor services a cache consults, and tree nodes.
- `TrieNodes`, `Tries`: the trie.
- `ExplorerNodeCache`, `ExplorerNodeModel`, `SyncHandler`: the three classes.

The editor's services are the fields of a `Host`: `Uri.parse` and
`workspace.getWorkspaceFolder`. Both are arbitrary functions, so every property
holds for every URI parser and every workspace layout. A tree node is identified
by its id, and `getParent()` is its `parent` id. The per-node expansion state
(`nodeData.children`) is a map from node id to a flag in the cache state,
because invalidation resets it. Every operation is a pure function from the old
state to the new one.

## Model

| member | source | states |
|---|---|---|
| TrieNodes.New | src/views/trie/TrieNode.ts:11-15 | a new trie node has the given key and value and no children |
| TrieNodes.SetValue | src/views/trie/TrieNode.ts:21-27 | reading the value back gives the value just set; key and children are left alone |
| TrieNodes.RemoveChildren | src/views/trie/TrieNode.ts:29-31 | removing children empties them and keeps key and value |
| TrieNodes.RemoveChildrenIdempotent | src/views/trie/TrieNode.ts:29-31 | removing children twice is removing them once |
| Paths.Split | src/views/trie/Trie.ts:20 | `split` on a one-character separator always yields at least one piece; Paths.JoinSplit and Paths.SplitSeparatorFree state what the pieces are |
| Paths.SplitSeparatorFree | src/views/trie/Trie.ts:20 | no piece of a split contains the separator |
| Paths.IndexOf | src/views/trie/Trie.ts:20 | the first occurrence of a character, or none exactly when it is absent |
| Paths.JoinSplit | src/views/trie/Trie.ts:20 | `split` loses nothing: joining the pieces with the separator gives the string back |
| Paths.SplitJoin | src/views/trie/Trie.ts:20 | splitting the join of separator-free pieces gives the pieces back |
| Paths.SplitAround | src/views/trie/Trie.ts:20 | a separator splits a string into the pieces of its two sides |
| Paths.NonEmpty | src/views/trie/Trie.ts:23-26 | skipping empty segments keeps only non-empty pieces, and never more of them than the input holds |
| Paths.NonEmptyMembers | src/views/trie/Trie.ts:23-26 | skipping empty segments keeps exactly the non-empty pieces of the input: a piece is kept if and only if it occurs in the input and is not empty |
| Paths.NonEmptyAppend | src/views/trie/Trie.ts:23-26 | skipping empty segments distributes over concatenation |
| Paths.Segments | src/views/trie/Trie.ts:20-26 | every segment the trie walks is non-empty and free of the separator |
| Paths.SegmentsAround | src/views/trie/Trie.ts:20-26 | the segments of `a/b` are those of `a` followed by those of `b` |
| Paths.RootPaths | src/views/trie/Trie.ts:20-26 | the empty path and `/` have no segments, so both denote the root |
| Paths.SegmentsOfAbsolutePath | src/views/trie/Trie.ts:20-26 | any sequence of well-formed segments is the segmentation of its absolute path |
| Paths.BaseName | src/fileWather.ts:49 | the last component `path.extname` looks at holds no separator, and a separator-free path is its own last component |
| Paths.ComponentExt | src/views/explorerNodeModel.ts:22 | a component's extension is empty or a suffix of it that starts with its only dot, and a component without a dot has none |
| Paths.ExtName | src/views/explorerNodeModel.ts:22 | `path.extname` is empty or starts with a dot and holds no further dot and no separator |
| Paths.JavaExtension | src/fileWather.ts:49 | `path.extname(p) === ".java"` holds exactly when the last path component is a non-empty name followed by `.java` |
| Tries.Empty | src/views/trie/Trie.ts:13-15 | a new trie is well keyed and finds no non-empty path |
| Tries.FindAt | src/views/trie/Trie.ts:35-51 | the walk stops at the root for no segments and fails at the first missing child |
| Tries.Find | src/views/trie/Trie.ts:35-51 | a path with no non-empty segment finds the root |
| Tries.FindAtAppend | src/views/trie/Trie.ts:35-51 | walking `a + b` is walking `a`, then walking `b` from where it ends |
| Tries.MissingPrefix | src/views/trie/Trie.ts:44-48 | once a prefix is missing, every extension of it is missing |
| Tries.FindIgnoresEmptySegments | src/views/trie/Trie.ts:38-43 | doubled, leading and trailing separators do not change what `find` returns |
| Tries.Insert | src/views/trie/Trie.ts:17-33 | no contract of its own; it walks the segments of `Uri.parse(input.uri).fsPath`, and Tries.InsertThenFind, Tries.InsertKeepsOtherValues and Tries.InsertAddsOnlyAncestors state its effect |
| Tries.InsertAt | src/views/trie/Trie.ts:17-33 | insertion keeps the node's key and value on the way down and adds only the first segment's child |
| Tries.InsertThenFindAt | src/views/trie/Trie.ts:17-33 | after insertion the path is found and holds the inserted node; an existing node keeps its children |
| Tries.InsertThenFind | src/views/trie/Trie.ts:17-51 | `insert(n)` then `find` of `n`'s own `fsPath` returns a trie node whose value is `n` |
| Tries.InsertKeepsOtherValues | src/views/trie/Trie.ts:17-33 | insertion changes the value at no other path |
| Tries.InsertAddsOnlyAncestors | src/views/trie/Trie.ts:27-30 | after insertion a path exists exactly when it existed before or is a prefix of the inserted path |
| Tries.InsertKeepsWellKeyed | src/views/trie/Trie.ts:27-30 | every child stays stored under its own key |
| Tries.InsertAtFresh | src/views/trie/Trie.ts:27-30 | a path inserted where nothing was is a leaf |
| Tries.ClearAll | src/views/trie/Trie.ts:76-78 | clearing keeps only the root, so no non-empty path is found any more |
| Tries.RemoveChildrenAt | src/views/explorerNodeCache.ts:65-70 | the trie keeps its root key; Tries.RemoveChildrenAtSpec, Tries.RemoveChildrenAtDeeper and Tries.RemoveChildrenAtFrame state what is removed and what is kept |
| Tries.RemoveChildrenAtSpec | src/views/explorerNodeCache.ts:65-70 | `find` then `removeChildren()`: the node at the path loses its children and keeps its value; a missing path changes nothing |
| Tries.RemoveChildrenAtDeeper | src/views/explorerNodeCache.ts:65-70 | every path strictly below the invalidated one is gone |
| Tries.RemoveChildrenAtFrame | src/views/explorerNodeCache.ts:65-70 | every path not strictly below the invalidated one keeps its value and its presence |
| Tries.RemoveChildrenAtKeepsWellKeyed | src/views/explorerNodeCache.ts:65-70 | removal keeps every child under its own key |
| Tries.DeepestValued | src/views/trie/Trie.ts:58-71 | once `res` holds a node it is never cleared; Tries.DeepestValuedIsLastValuedPrefix states which node it ends with |
| Tries.FindParentExplorerNode | src/views/trie/Trie.ts:53-74 | a path with no non-empty segment has no cached ancestor to report, since the root's own value is never examined; Tries.FindParentExplorerNodeSpec states the general case |
| Tries.DeepestValuedAccumulator | src/views/trie/Trie.ts:53-74 | the loop's running `res` is replaced only by a deeper valued node |
| Tries.DeepestValuedIsLastValuedPrefix | src/views/trie/Trie.ts:53-74 | the loop computes the value of the longest valued prefix, as defined independently |
| Tries.DeepestValuedSpec | src/views/trie/Trie.ts:53-74 | the result is absent exactly when no prefix holds a value; otherwise it is the value of the deepest valued prefix |
| Tries.DeepestValuedStopsAtGap | src/views/trie/Trie.ts:63-67 | the walk breaks at the first missing segment: nothing past it matters |
| Tries.FindParentExplorerNodeSpec | src/views/trie/Trie.ts:53-74 | the result is the parent of the deepest cached ancestor of the path, and absent when there is none |
| Tries.FreshInsertIsNearestAncestor | src/views/trie/Trie.ts:53-74 | a node inserted at a new path is the nearest cached ancestor of each child path |
| ExplorerNodeCache.Init | src/views/explorerNodeCache.ts:12-13 | a new cache has an empty trie and an empty read-only map |
| Nodes.IsJdtClass | src/views/explorerNodeCache.ts:83-85 | no contract of its own; ExplorerNodeCache.GetDataNode and ExplorerNodeCache.SaveNode state how it routes a URI outside the workspace |
| ExplorerNodeCache.SlotOf | src/views/explorerNodeCache.ts:16-20 | no contract of its own; it is the routing `getDataNode` (lines 16-20) and `saveNode` (lines 36-40) share, and ExplorerNodeCache.GetDataNodeBySlot and ExplorerNodeCache.SaveNodeKeepsOtherSlots state that reads and writes follow it |
| ExplorerNodeCache.GetDataNode | src/views/explorerNodeCache.ts:15-23 | a workspace URI is looked up in the trie by `fsPath`, else a `jdt:` URI in the read-only map, else nothing |
| ExplorerNodeCache.GetDataNodeBySlot | src/views/explorerNodeCache.ts:15-23 | lookup depends only on the slot the URI belongs to |
| ExplorerNodeCache.FindParentExplorerNode | src/views/explorerNodeCache.ts:25-31 | outside the workspace there is no target; otherwise the target is the parent of a cached ancestor |
| ExplorerNodeCache.SaveNode | src/views/explorerNodeCache.ts:33-42 | a saved node is returned by `getDataNode` of its own URI; other nodes and URIs outside both tiers change nothing; the other tier is untouched |
| ExplorerNodeCache.SaveNodeKeepsOtherSlots | src/views/explorerNodeCache.ts:33-42 | saving a node changes no lookup in a different slot |
| ExplorerNodeCache.SaveNodes | src/views/explorerNodeCache.ts:44-48 | saving nodes none of which is saveable changes nothing |
| ExplorerNodeCache.SaveNodesAppend | src/views/explorerNodeCache.ts:44-48 | saving `a + b` is saving `a`, then `b` |
| ExplorerNodeCache.SaveNodesKeepsUntouchedSlot | src/views/explorerNodeCache.ts:44-48 | a batch none of whose saveable nodes falls in a URI's slot leaves what that URI reads unchanged |
| ExplorerNodeCache.SaveNodesLastWins | src/views/explorerNodeCache.ts:44-48 | the last write to a slot wins: a saveable node that no later saveable node shares a slot with is what its URI returns after the batch |
| ExplorerNodeCache.ClearAll | src/views/explorerNodeCache.ts:74-77 | the read-only map is emptied and no non-empty trie path is found any more; only a value at the trie root and the expansion flags survive |
| ExplorerNodeCache.RemoveAllEmptiesCache | src/views/explorerNodeCache.ts:51-54 | with no node, `getDataNode` afterwards returns nothing for every URI that has a segment |
| ExplorerNodeCache.RemoveMutableNodeChildren | src/views/explorerNodeCache.ts:50-72 | no node clears everything; a non-DataNode, a URI outside the workspace or a path not in the trie changes nothing; otherwise the trie node at the path loses its children and keeps its value, the read-only tier is untouched, and the node cached there, if any, has its expansion reset (for a placeholder, the invalidated node itself) |
| ExplorerNodeCache.RemoveMutableNodeChildrenFrame | src/views/explorerNodeCache.ts:65-70 | invalidation removes exactly the paths strictly below the node: they are no longer found, and every other path keeps both its presence and its value |
| ExplorerNodeCache.RemoveMutableNodeChildrenAsWritten | src/views/explorerNodeCache.ts:65-71 | the code throws exactly when `find` lands on a node without a value, after the children are already gone and before any expansion flag is reset; otherwise it agrees with the corrected version |
| ExplorerNodeCache.CacheWithChildIsSaved | src/views/dependencyDataProvider.ts:109-114 | expanding a project saves its child, not the project itself |
| ExplorerNodeCache.ChildEventTargetsProject | src/views/explorerNodeCache.ts:25-31 | a file event under that child targets the project |
| ExplorerNodeCache.InvalidatingProjectCrashes | src/views/explorerNodeCache.ts:65-71 | invalidating the project throws as written and leaves its expansion flag set; corrected, it completes and resets exactly the project's flag |
| ExplorerNodeCache.InsertedAncestorIsPlaceholder | src/views/trie/Trie.ts:27-29 | every proper prefix of a path inserted into an empty trie holds a placeholder without a value |
| ExplorerNodeModel.GetNodeByUri | src/views/explorerNodeModel.ts:13-15 | a lookup succeeds exactly for stored keys |
| ExplorerNodeModel.SaveNode | src/views/explorerNodeModel.ts:17-26 | only a DataNode whose normalised URI names a `.java` file is stored, under that URI; every other key keeps its node |
| ExplorerNodeModel.SaveNodes | src/views/explorerNodeModel.ts:28-32 | saving only adds keys, and every added key is the normalised URI of a saved DataNode |
| ExplorerNodeModel.SaveNodesAppend | src/views/explorerNodeModel.ts:28-32 | saving `a + b` is saving `a`, then `b` |
| ExplorerNodeModel.SaveNodesKeepsOtherKeys | src/views/explorerNodeModel.ts:28-32 | a batch with no DataNode filed under a key leaves that key's entry unchanged |
| ExplorerNodeModel.SaveNodesLastWins | src/views/explorerNodeModel.ts:28-32 | the last write to a key wins: a Java DataNode that no later DataNode shares a key with is what its key returns after the batch |
| ExplorerNodeModel.ClearAll | src/views/explorerNodeModel.ts:34-36 | after clearing, every lookup fails |
| SyncHandler.Refresh | src/fileWather.ts:68-70 | every request the watcher sends is debounced and carries the given target |
| SyncHandler.Response | src/fileWather.ts:38-64 | a change of workspace folders asks for a whole-tree refresh; a change asks for one exactly for a `.java` path while members are shown, targeting the node cached for that URI (the whole tree if none is); a create or a delete targets the parent of the nearest cached ancestor |
| SyncHandler.Dispatch | src/fileWather.ts:47-66 | every request is debounced, and there are no more requests than subscriptions |
| SyncHandler.CollectCounts | src/fileWather.ts:47-66 | which requests the listeners make depends only on how many listeners of the event's kind are subscribed, not on their order |
| SyncHandler.DispatchRepeatsResponse | src/fileWather.ts:47-66 | an event yields its listener's response once per subscribed listener of that kind |
| SyncHandler.EnableAutoRefresh | src/fileWather.ts:37-45 | enabling only appends to the subscriptions already held |
| SyncHandler.EnableAddsOneOfEach | src/fileWather.ts:37-45 | each enable adds one listener of every kind and one watcher |
| SyncHandler.Dispose | src/fileWather.ts:28-35 | every subscription is disposed, in order, and the list is left empty |
| SyncHandler.DisposeIdempotent | src/fileWather.ts:28-35 | a second dispose disposes nothing |
| SyncHandler.UpdateFileWatcher | src/fileWather.ts:20-26 | turning auto-refresh off leaves no subscription; turning it on extends the list |
| SyncHandler.NoRequestsAfterDispose | src/fileWather.ts:28-35 | after dispose no event yields a request |
| SyncHandler.EnabledOnce | src/fileWather.ts:37-66 | enabled once, each event yields exactly its listener's response |
| SyncHandler.EnabledTwice | src/fileWather.ts:20-26 | enabling twice without disposing doubles every request |
| SyncHandler.IgnoredChange | src/fileWather.ts:49-51 | a change to a non-Java path, or while members are hidden, yields no request |
| SyncHandler.UncachedStructuralChange | src/fileWather.ts:56-64 | a create or delete with no cached ancestor asks for a whole-tree refresh |

## Left out

- The editor and language-server APIs are left out. `workspace.getWorkspaceFolder` and `Uri.parse` are
  the `Host` parameters. `Uri.toString()` is the parsed URI's `text`. Registering listeners and
  executing the refresh command are represented by the `Subscription` list and `RefreshRequest` values.
- The tree data provider is left out: debouncing and timing, tree-change notifications, `getChildren`,
  root-node construction and `revealPaths`. `dependencyDataProvider.ts` is cited only for how it calls
  the cache: children are saved on expansion, root nodes are never saved, and a refresh invalidates
  through `removeMutableNodeChildren`.
- Telemetry wrappers (`instrumentOperation`) are left out. They do not change behaviour.
- `PackageNode.java` is left out. The language-server side only produces node data.
- The glob `**/{*.java,src/**}` of the file system watcher is left out. Event URIs are arbitrary, so
  every property holds for whatever events the glob lets through.
- Windows paths are left out. `path.sep` is `/`, and `path.extname` follows Node's posix algorithm.
- Trie children are a plain JavaScript object in the source. Keys inherited from `Object.prototype`
  (`constructor`, `toString`, ...) would be seen as existing children. The model uses a map, which has
  no such keys.
- Node objects are modelled by their id. Their identity, and the rest of `nodeData`, are not modelled.
  The expansion reset in `removeMutableNodeChildren` is a flag per id.
- `dispose()` skips falsy entries of the list. The model's list never holds one.
- ExplorerNodeCache.RemoveAllEmptiesCache: the "nothing found" promise is stated only for URIs with at
  least one path segment. The root trie node survives `clearAll`, so a node stored at `/` stays findable.
- ExplorerNodeCache.FindParentExplorerNode: its contract says only that the target is the parent of some
  cached ancestor. That it is the deepest such ancestor is proved at the trie level, by
  Tries.FindParentExplorerNodeSpec.

## Findings

| source | as written | input that shows it | evidently intended | confidence | as-written member | corrected member |
|---|---|---|---|---|---|---|
| src/views/explorerNodeCache.ts:65-71 | `removeMutableNodeChildren` removes the children of the node `find` returns, then reads `trieNode.value.nodeData`. A trie node created only as an ancestor placeholder has no value, so this throws a TypeError after the children are gone. `doRefresh` then never fires its tree-change event. | A root project node at `/p` is never saved. Its child `/p/c` is saved, which leaves a placeholder at `/p`. Creating `/p/c/F.java` makes `findParentExplorerNode` return the project, and the refresh invalidates `/p` | invalidation completes: the subtree is dropped and the refreshed node recomputes its children. The node cached at the path has its expansion reset, as the code does. At a placeholder, the node being invalidated has its own flag reset; with no flag reset, the project would list its stale children again | not executed | ExplorerNodeCache.RemoveMutableNodeChildrenAsWritten, ExplorerNodeCache.InvalidatingProjectCrashes | ExplorerNodeCache.RemoveMutableNodeChildren |
