/**
 * The file watcher: which refresh each file-system or workspace event asks for,
 * and the list of subscriptions that decides which listeners hear events.
 */
module SyncHandler {
  import opened Wrappers
  import opened Paths
  import opened Nodes
  import opened ExplorerNodeCache

  /** The subscriptions `enableAutoRefresh` registers, in the order it pushes them. */
  datatype Subscription = FolderListener | ChangeListener | CreateListener | DeleteListener | Watcher

  /** What the editor reports. */
  datatype Event = FoldersChanged | Changed(uri: Uri) | Created(uri: Uri) | Deleted(uri: Uri)

  /** A `java.view.package.refresh` command: debounce flag and target node (none = whole tree). */
  datatype RefreshRequest = RefreshRequest(debounce: bool, target: Option<NodeId>)

  /** `refresh(node)`: every request the watcher sends is debounced. */
  function Refresh(target: Option<NodeId>): (r: RefreshRequest)
    ensures r.debounce && r.target == target
  {
    RefreshRequest(true, target)
  }

  function IdOf(node: Option<DataNode>): (r: Option<NodeId>)
    ensures r.Some? <==> node.Some?
    ensures node.Some? ==> r.value == node.value.id
  {
    match node
    case None => None
    case Some(d) => Some(d.id)
  }

  /** The listener an event reaches. */
  function ListenerFor(e: Event): Subscription {
    match e
    case FoldersChanged => FolderListener
    case Changed(_) => ChangeListener
    case Created(_) => CreateListener
    case Deleted(_) => DeleteListener
  }

  /**
   * What the listener for `e` requests. A change matters only for a `.java` path
   * while members are shown, and targets the node cached for that URI; a create
   * or delete targets the parent of the nearest cached ancestor; a change of
   * workspace folders refreshes the whole tree.
   */
  function Response(host: Host, c: Cache, showMembers: bool, e: Event): (r: Option<RefreshRequest>)
    ensures r.Some? ==> r.value.debounce
    ensures e.Changed? ==> (r.Some? <==> IsJavaName(BaseName(e.uri.fsPath)) && showMembers)
    ensures e.Changed? && r.Some? ==> r.value.target == IdOf(GetDataNode(host, c, e.uri))
    ensures e.Created? || e.Deleted? ==> r == Some(Refresh(FindParentExplorerNode(host, c, e.uri)))
    ensures e.FoldersChanged? ==> r == Some(Refresh(None))
  {
    match e
    case FoldersChanged => Some(Refresh(None))
    case Changed(uri) =>
      JavaExtension(uri.fsPath);
      if ExtName(uri.fsPath) != ".java" || !showMembers then None
      else Some(Refresh(IdOf(GetDataNode(host, c, uri))))
    case Created(uri) => Some(Refresh(FindParentExplorerNode(host, c, uri)))
    case Deleted(uri) => Some(Refresh(FindParentExplorerNode(host, c, uri)))
  }

  /** The requests of the listeners in `subs` when every listener of kind `listener` answers `resp`, in subscription order. */
  function Collect(subs: seq<Subscription>, listener: Subscription, resp: Option<RefreshRequest>): (rs: seq<RefreshRequest>)
    ensures forall i :: 0 <= i < |rs| ==> Some(rs[i]) == resp
    ensures |rs| <= |subs|
    decreases |subs|
  {
    if subs == [] then []
    else (if subs[0] == listener && resp.Some? then [resp.value] else []) + Collect(subs[1..], listener, resp)
  }

  /** The requests an event produces: one per subscribed listener for it. */
  function Dispatch(host: Host, c: Cache, showMembers: bool, subs: seq<Subscription>, e: Event): (rs: seq<RefreshRequest>)
    ensures forall i :: 0 <= i < |rs| ==> rs[i].debounce
    ensures |rs| <= |subs|
  {
    Collect(subs, ListenerFor(e), Response(host, c, showMembers, e))
  }

  /** `n` copies of `x`. */
  function Repeat<T>(x: T, n: nat): (r: seq<T>)
    ensures |r| == n
    ensures forall i :: 0 <= i < n ==> r[i] == x
  {
    if n == 0 then [] else [x] + Repeat(x, n - 1)
  }

  /** The requests `n` listeners make when each answers `resp`. */
  function Heard(resp: Option<RefreshRequest>, n: nat): (rs: seq<RefreshRequest>)
    ensures resp.None? ==> rs == []
    ensures resp.Some? ==> rs == Repeat(resp.value, n)
  {
    match resp
    case None => []
    case Some(req) => Repeat(req, n)
  }

  /** Only the number of listeners of the kind matters, not where they sit in the list. */
  lemma {:induction false} CollectCounts(subs: seq<Subscription>, listener: Subscription, resp: Option<RefreshRequest>)
    ensures Collect(subs, listener, resp) == Heard(resp, multiset(subs)[listener])
    decreases |subs|
  {
    if subs != [] {
      var tail := subs[1..];
      var n := multiset(tail)[listener];
      CollectCounts(tail, listener, resp);
      assert subs == [subs[0]] + tail;
      if subs[0] == listener {
        assert multiset(subs)[listener] == n + 1;
        if resp.Some? {
          assert Repeat(resp.value, n + 1) == [resp.value] + Repeat(resp.value, n);
        }
      } else {
        assert multiset(subs)[listener] == n;
      }
    }
  }

  /** Every subscribed listener for the event answers it the same way. */
  lemma DispatchRepeatsResponse(host: Host, c: Cache, showMembers: bool, subs: seq<Subscription>, e: Event)
    ensures Dispatch(host, c, showMembers, subs, e)
            == Heard(Response(host, c, showMembers, e), multiset(subs)[ListenerFor(e)])
  {
    CollectCounts(subs, ListenerFor(e), Response(host, c, showMembers, e));
  }

  /** `enableAutoRefresh()`: only appends, to the subscriptions already held. */
  function EnableAutoRefresh(subs: seq<Subscription>): (r: seq<Subscription>)
    ensures |r| == |subs| + 5 && r[..|subs|] == subs
  {
    subs + [FolderListener, ChangeListener, CreateListener, DeleteListener, Watcher]
  }

  /** Each call of `enableAutoRefresh()` subscribes one more listener of every kind, and one more watcher. */
  lemma EnableAddsOneOfEach(subs: seq<Subscription>, s: Subscription)
    ensures multiset(EnableAutoRefresh(subs))[s] == multiset(subs)[s] + 1
  {
    var added := [FolderListener, ChangeListener, CreateListener, DeleteListener, Watcher];
    assert EnableAutoRefresh(subs) == subs + added;
    assert multiset(subs + added) == multiset(subs) + multiset(added);
    assert multiset(added) == multiset{FolderListener} + multiset{ChangeListener} + multiset{CreateListener}
                              + multiset{DeleteListener} + multiset{Watcher};
  }

  /** The result of `dispose()`: the list left behind and the subscriptions disposed, in order. */
  datatype Disposal = Disposal(remaining: seq<Subscription>, disposed: seq<Subscription>)

  /** `dispose()`: every subscription is disposed once, and the list is emptied. */
  function Dispose(subs: seq<Subscription>): (r: Disposal)
    ensures r.remaining == [] && r.disposed == subs
  {
    Disposal([], subs)
  }

  /** `updateFileWatcher(autoRefresh)`. */
  function UpdateFileWatcher(subs: seq<Subscription>, autoRefresh: bool): (r: seq<Subscription>)
    ensures !autoRefresh ==> r == []
    ensures autoRefresh ==> subs <= r && |r| == |subs| + 5
  {
    if autoRefresh then EnableAutoRefresh(subs) else Dispose(subs).remaining
  }

  /** A second `dispose()` disposes nothing. */
  lemma DisposeIdempotent(subs: seq<Subscription>)
    ensures Dispose(Dispose(subs).remaining) == Disposal([], [])
  {
  }

  /** After `dispose()` no event yields a request. */
  lemma NoRequestsAfterDispose(host: Host, c: Cache, showMembers: bool, subs: seq<Subscription>, e: Event)
    ensures Dispatch(host, c, showMembers, Dispose(subs).remaining, e) == []
  {
  }

  /** Enabled once from scratch, each event yields exactly its listener's response. */
  lemma EnabledOnce(host: Host, c: Cache, showMembers: bool, e: Event)
    ensures Dispatch(host, c, showMembers, EnableAutoRefresh([]), e)
            == Heard(Response(host, c, showMembers, e), 1)
  {
    DispatchRepeatsResponse(host, c, showMembers, EnableAutoRefresh([]), e);
    EnableAddsOneOfEach([], ListenerFor(e));
  }

  /** Enabling again without disposing subscribes a second set of listeners: each request comes twice. */
  lemma EnabledTwice(host: Host, c: Cache, showMembers: bool, e: Event)
    ensures Dispatch(host, c, showMembers, EnableAutoRefresh(EnableAutoRefresh([])), e)
            == Heard(Response(host, c, showMembers, e), 2)
  {
    DispatchRepeatsResponse(host, c, showMembers, EnableAutoRefresh(EnableAutoRefresh([])), e);
    EnableAddsOneOfEach([], ListenerFor(e));
    EnableAddsOneOfEach(EnableAutoRefresh([]), ListenerFor(e));
  }

  /** A change to a file that is not Java source, or while members are hidden, asks for nothing. */
  lemma IgnoredChange(host: Host, c: Cache, showMembers: bool, subs: seq<Subscription>, uri: Uri)
    requires !IsJavaName(BaseName(uri.fsPath)) || !showMembers
    ensures Dispatch(host, c, showMembers, subs, Changed(uri)) == []
  {
    DispatchRepeatsResponse(host, c, showMembers, subs, Changed(uri));
  }

  /** A create or delete with no cached ancestor asks for a whole-tree refresh. */
  lemma UncachedStructuralChange(host: Host, c: Cache, showMembers: bool, e: Event)
    requires e.Created? || e.Deleted?
    requires forall i :: 1 <= i <= |Segments(e.uri.fsPath)| ==> Tries.ValueAt(c.mutableNodes, Segments(e.uri.fsPath)[..i]).None?
    ensures Dispatch(host, c, showMembers, EnableAutoRefresh([]), e) == [Refresh(None)]
  {
    EnabledOnce(host, c, showMembers, e);
    Tries.FindParentExplorerNodeSpec(c.mutableNodes, e.uri.fsPath);
  }
}
