/** lock and unlock of the naming server, on the states of the locks along a path.

    lock walks from the root to the node at `path`, taking each lock on the way in shared
    mode and the last one in the mode asked for; unlock releases the same locks. Every
    node's lock is held here by its state (module Locks proves the lock object against
    the same transition functions). A request whose wait condition still holds leaves the
    walk blocked at that node, with its ticket drawn: the model takes one grant attempt per
    node, where the server's thread would wait to be woken. */
module Locking {
  import opened Wrappers
  import opened Paths
  import opened Remote
  import opened Locks
  import opened Directory

  /** Each node's lock state, by path. */
  type LockMap = map<Path, LockState>

  /** How a walk of lock ends: every lock on the path is held; the walk waits at the lock
      of `at`; or a grant threw `error` after changing the lock's state. */
  datatype Locking = Locked | Blocked(at: Path) | Failed(error: Error)

  /** Every prefix of `path` is a key of `m`: a node of the tree, or a node's lock. */
  predicate Resolvable<V>(m: map<Path, V>, path: Path) {
    forall k | 0 <= k <= |path| :: Prefix(path, k) in m
  }

  lemma InTreeResolvable(v: View, path: Path)
    requires WellFormed(v) && path in v
    ensures Resolvable(v, path)
  {
    forall m | 0 <= m <= |path| ensures Prefix(path, m) in v {
      if m < |path| {
        PrefixDirectory(v, path, m);
      } else {
        PrefixEnds(path);
      }
    }
  }

  /** The node a grant at the prefix of length `i` is handed: the root of a longer path is
      handed null, every other node itself. */
  function FactsAt(v: View, path: Path, i: nat): (n: Option<NodeFacts>)
    requires i <= |path| && Prefix(path, i) in v && Stored(v)
    ensures FileHasPrimary(n)
    ensures n.Some? <==> i == |path| || i > 0
    ensures n.Some? ==> n.value.myPath == Prefix(path, i) && n.value.isFile == v[Prefix(path, i)].isFile
  {
    if i == 0 && path != Root then None
    else
      var q: Path := Prefix(path, i);
      Some(NodeFacts(v[q].isFile, q, v[q].stub))
  }

  /** One acquisition of a lock in the given mode: the request draws a ticket, then one
      grant attempt follows (Waiting while the wait condition holds). An exclusive grant
      runs the invalidation, a shared one the replication policy. */
  function Acquire(s: LockState, n: Option<NodeFacts>, exclusive: bool, stores: seq<Storage>,
                   commands: map<Storage, Command>, replicas: Replicas): (r: (LockState, Grant))
    requires StoresRegistered(stores, commands) && HoldersRegistered(replicas, commands)
    requires FileHasPrimary(n)
    ensures r.1.Granted? ==> HoldersRegistered(r.1.replicas, commands)
    ensures r.0.globalIndex == s.globalIndex + 1
  {
    if exclusive then
      var (s1, t) := s.RequestExclusive();
      if s1.ExclusiveReady(t) then (s1.GrantExclusive(), Invalidate(n, commands, replicas))
      else (s1, Waiting)
    else
      var (s1, t) := s.RequestShared(|stores|);
      if s1.SharedReady(t) then AfterSharedGrant(s1, n, stores, commands, replicas)
      else (s1, Waiting)
  }

  /** lock from the prefix of length `i` on: acquire each lock in turn, the last one in the
      mode asked for, and stop at the first that waits or throws. The result is how the
      walk ended, the lock states, the replica map and the remote calls issued. */
  function LockFrom(st: LockMap, v: View, path: Path, exclusive: bool, i: nat, stores: seq<Storage>,
                    commands: map<Storage, Command>, replicas: Replicas, calls: set<RemoteCall>)
    : (Locking, LockMap, Replicas, set<RemoteCall>)
    requires i <= |path| && Resolvable(v, path) && Stored(v) && Resolvable(st, path)
    requires StoresRegistered(stores, commands) && HoldersRegistered(replicas, commands)
    decreases |path| - i
  {
    var q: Path := Prefix(path, i);
    var (s, g) := Acquire(st[q], FactsAt(v, path, i), exclusive && i == |path|, stores, commands, replicas);
    var st' := st[q := s];
    match g
    case Waiting => (Blocked(q), st', replicas, calls)
    case Thrown(e) => (Failed(e), st', replicas, calls)
    case Granted(r, c) =>
      if i == |path| then (Locked, st', r, calls + c)
      else LockFrom(st', v, path, exclusive, i + 1, stores, commands, r, calls + c)
  }

  function Release(s: LockState, exclusive: bool): LockState {
    if exclusive then s.ReleaseExclusive() else s.ReleaseShared()
  }

  /** unlock up to the prefix of length `i`: the locks of the prefixes shorter than `i`
      are released, the one at `path` itself in the mode it was taken, the others shared. */
  function Released(st: LockMap, path: Path, exclusive: bool, i: nat): LockMap {
    map q | q in st :: if q <= path && |q| < i then Release(st[q], exclusive && q == path) else st[q]
  }

  /** The stores are listed once each. */
  predicate Distinct(stores: seq<Storage>) {
    forall i, j | 0 <= i < j < |stores| :: stores[i] != stores[j]
  }

  /** The fields that say who holds a lock: its readers, its queued writers and whether a
      writer holds it. */
  function Holding(s: LockState): (nat, seq<nat>, bool) {
    (s.readers, s.writerIndex, s.writing)
  }

  /** Holding a lock: before the request no writer held it (nor, for an exclusive holder,
      any reader); now an exclusive holder is the only one, or a shared one has joined the
      readers; the writer queue is as it was. */
  predicate Holds(before: LockState, after: LockState, exclusive: bool) {
    && !before.writing && (exclusive ==> before.readers == 0)
    && Holding(after) == if exclusive then (0, before.writerIndex, true)
                         else (before.readers + 1, before.writerIndex, false)
  }

  /** An acquisition keeps the lock invariant and registers only registered holders. */
  lemma AcquireKeepsInv(s: LockState, n: Option<NodeFacts>, exclusive: bool, stores: seq<Storage>,
                        commands: map<Storage, Command>, replicas: Replicas)
    requires Inv(s) && StoresRegistered(stores, commands) && HoldersRegistered(replicas, commands)
    requires FileHasPrimary(n) && Distinct(stores)
    ensures Inv(Acquire(s, n, exclusive, stores, commands, replicas).0)
  {
    if exclusive {
      StepKeepsInv(s, AskExclusive);
      var (s1, t) := s.RequestExclusive();
      StepKeepsInv(s1, TakeExclusive(t));
    } else {
      StepKeepsInv(s, AskShared(|stores|));
      var (s1, t) := s.RequestShared(|stores|);
      if s1.SharedReady(t) {
        SharedGrantKeepsInv(s1, n, stores, commands, replicas);
      }
    }
  }

  /** A granted acquisition holds the lock; an exclusive one was granted only to a lock
      without a writer, queued writers or readers. */
  lemma AcquireHolds(s: LockState, n: Option<NodeFacts>, exclusive: bool, stores: seq<Storage>,
                     commands: map<Storage, Command>, replicas: Replicas)
    requires Inv(s) && StoresRegistered(stores, commands) && HoldersRegistered(replicas, commands)
    requires FileHasPrimary(n)
    ensures var (s', g) := Acquire(s, n, exclusive, stores, commands, replicas);
            g.Granted? ==> Holds(s, s', exclusive) && (exclusive ==> s.writerIndex == [])
  {
    if exclusive {
      var (s1, t) := s.RequestExclusive();
      if s1.ExclusiveReady(t) && s.writerIndex != [] {
        assert false;
      } else if s1.ExclusiveReady(t) {
        assert s1.writerIndex == [t] && s1.writerIndex[1..] == [];
      }
    } else {
      var (s1, t) := s.RequestShared(|stores|);
      SharedGrantHolding(s1, n, stores, commands, replicas);
    }
  }

  /** The replication policy after a shared grant leaves the holders as the grant made
      them. */
  lemma SharedGrantHolding(s: LockState, n: Option<NodeFacts>, stores: seq<Storage>,
                           commands: map<Storage, Command>, replicas: Replicas)
    requires StoresRegistered(stores, commands) && FileHasPrimary(n)
    ensures Holding(AfterSharedGrant(s, n, stores, commands, replicas).0) == Holding(s.GrantShared())
  {
  }

  /** A lock a writer holds never lets a request through. */
  lemma WriterBlocksAcquire(s: LockState, n: Option<NodeFacts>, exclusive: bool, stores: seq<Storage>,
                            commands: map<Storage, Command>, replicas: Replicas)
    requires StoresRegistered(stores, commands) && HoldersRegistered(replicas, commands)
    requires FileHasPrimary(n) && s.writing
    ensures Acquire(s, n, exclusive, stores, commands, replicas).1 == Waiting
  {
  }

  /** What a walk of lock returns: how it ended, the lock states, the replica map and the
      remote calls. */
  type Walk = (Locking, LockMap, Replicas, set<RemoteCall>)

  /** The walk of lock from `i` on keeps the set of locks and only adds remote calls; a
      blocked walk waits at a prefix of `path` it reached. */
  lemma {:induction false} LockFromKeys(st: LockMap, v: View, path: Path, exclusive: bool, i: nat,
                                        stores: seq<Storage>, commands: map<Storage, Command>,
                                        replicas: Replicas, calls: set<RemoteCall>, w: Walk)
    requires i <= |path| && Resolvable(v, path) && Stored(v) && Resolvable(st, path)
    requires StoresRegistered(stores, commands) && HoldersRegistered(replicas, commands)
    requires w == LockFrom(st, v, path, exclusive, i, stores, commands, replicas, calls)
    ensures w.1.Keys == st.Keys && calls <= w.3
    ensures w.0.Blocked? ==> w.0.at <= path && i <= |w.0.at|
    decreases |path| - i
  {
    var q: Path := Prefix(path, i);
    var (s, g) := Acquire(st[q], FactsAt(v, path, i), exclusive && i == |path|, stores, commands, replicas);
    if g.Granted? && i < |path| {
      var w' := LockFrom(st[q := s], v, path, exclusive, i + 1, stores, commands, g.replicas, calls + g.calls);
      LockFromKeys(st[q := s], v, path, exclusive, i + 1, stores, commands, g.replicas, calls + g.calls, w');
    }
  }

  /** The walk of lock from `i` on changes only the locks of the prefixes of `path` it
      reaches. */
  lemma {:induction false} LockFromFrame(st: LockMap, v: View, path: Path, exclusive: bool, i: nat,
                                         stores: seq<Storage>, commands: map<Storage, Command>,
                                         replicas: Replicas, calls: set<RemoteCall>, w: Walk)
    requires i <= |path| && Resolvable(v, path) && Stored(v) && Resolvable(st, path)
    requires StoresRegistered(stores, commands) && HoldersRegistered(replicas, commands)
    requires w == LockFrom(st, v, path, exclusive, i, stores, commands, replicas, calls)
    ensures forall q | q in st && q in w.1 && !(q <= path && i <= |q|) :: w.1[q] == st[q]
    decreases |path| - i
  {
    var q: Path := Prefix(path, i);
    var (s, g) := Acquire(st[q], FactsAt(v, path, i), exclusive && i == |path|, stores, commands, replicas);
    if g.Granted? && i < |path| {
      var w' := LockFrom(st[q := s], v, path, exclusive, i + 1, stores, commands, g.replicas, calls + g.calls);
      LockFromFrame(st[q := s], v, path, exclusive, i + 1, stores, commands, g.replicas, calls + g.calls, w');
    }
  }

  /** The walk of lock keeps every lock invariant and registers only registered holders. */
  lemma {:induction false} LockFromKeepsInv(st: LockMap, v: View, path: Path, exclusive: bool, i: nat,
                                            stores: seq<Storage>, commands: map<Storage, Command>,
                                            replicas: Replicas, calls: set<RemoteCall>, w: Walk)
    requires i <= |path| && Resolvable(v, path) && Stored(v) && Resolvable(st, path)
    requires StoresRegistered(stores, commands) && HoldersRegistered(replicas, commands)
    requires (forall q | q in st :: Inv(st[q])) && Distinct(stores)
    requires w == LockFrom(st, v, path, exclusive, i, stores, commands, replicas, calls)
    ensures forall q | q in w.1 :: Inv(w.1[q])
    ensures HoldersRegistered(w.2, commands)
    decreases |path| - i
  {
    var q: Path := Prefix(path, i);
    var n := FactsAt(v, path, i);
    var ex := exclusive && i == |path|;
    AcquireKeepsInv(st[q], n, ex, stores, commands, replicas);
    var (s, g) := Acquire(st[q], n, ex, stores, commands, replicas);
    if g.Granted? && i < |path| {
      var w' := LockFrom(st[q := s], v, path, exclusive, i + 1, stores, commands, g.replicas, calls + g.calls);
      LockFromKeepsInv(st[q := s], v, path, exclusive, i + 1, stores, commands, g.replicas, calls + g.calls, w');
    }
  }

  /** When the walk of lock ends with every lock held, each lock it took from `i` on is
      held in its mode: the one at `path` in the mode asked for, the others shared. */
  lemma {:induction false} LockFromHolds(st: LockMap, v: View, path: Path, exclusive: bool, i: nat,
                                         stores: seq<Storage>, commands: map<Storage, Command>,
                                         replicas: Replicas, calls: set<RemoteCall>, w: Walk, p: Path)
    requires i <= |path| && Resolvable(v, path) && Stored(v) && Resolvable(st, path)
    requires StoresRegistered(stores, commands) && HoldersRegistered(replicas, commands)
    requires forall q | q in st && q <= path && i <= |q| :: Inv(st[q])
    requires w == LockFrom(st, v, path, exclusive, i, stores, commands, replicas, calls) && w.0 == Locked
    requires p in st && p <= path && i <= |p|
    ensures p in w.1 && Holds(st[p], w.1[p], exclusive && p == path)
    decreases |path| - i
  {
    if |p| == i {
      assert p == Prefix(path, i);
      LockFromHoldsHere(st, v, path, exclusive, i, stores, commands, replicas, calls, w);
    } else {
      var q: Path := Prefix(path, i);
      LockFromNext(st, v, path, exclusive, i, stores, commands, replicas, calls, w);
      var (s, g) := Acquire(st[q], FactsAt(v, path, i), false, stores, commands, replicas);
      LockFromHolds(st[q := s], v, path, exclusive, i + 1, stores, commands, g.replicas, calls + g.calls, w, p);
    }
  }

  /** A walk of lock that completes was granted the lock at the prefix of length `i` and
      went on from there. */
  lemma LockFromNext(st: LockMap, v: View, path: Path, exclusive: bool, i: nat,
                     stores: seq<Storage>, commands: map<Storage, Command>,
                     replicas: Replicas, calls: set<RemoteCall>, w: Walk)
    requires i < |path| && Resolvable(v, path) && Stored(v) && Resolvable(st, path)
    requires StoresRegistered(stores, commands) && HoldersRegistered(replicas, commands)
    requires w == LockFrom(st, v, path, exclusive, i, stores, commands, replicas, calls) && w.0 == Locked
    ensures var (s, g) := Acquire(st[Prefix(path, i)], FactsAt(v, path, i), false, stores, commands, replicas);
            && g.Granted?
            && w == LockFrom(st[Prefix(path, i) := s], v, path, exclusive, i + 1, stores, commands, g.replicas, calls + g.calls)
  {
  }

  /** The lock at the prefix of length `i` is held once the walk from `i` completes. */
  lemma LockFromHoldsHere(st: LockMap, v: View, path: Path, exclusive: bool, i: nat,
                          stores: seq<Storage>, commands: map<Storage, Command>,
                          replicas: Replicas, calls: set<RemoteCall>, w: Walk)
    requires i <= |path| && Resolvable(v, path) && Stored(v) && Resolvable(st, path)
    requires StoresRegistered(stores, commands) && HoldersRegistered(replicas, commands)
    requires Inv(st[Prefix(path, i)])
    requires w == LockFrom(st, v, path, exclusive, i, stores, commands, replicas, calls) && w.0 == Locked
    ensures var q := Prefix(path, i); q in w.1 && Holds(st[q], w.1[q], exclusive && q == path)
  {
    var q: Path := Prefix(path, i);
    var ex := exclusive && i == |path|;
    AcquireHolds(st[q], FactsAt(v, path, i), ex, stores, commands, replicas);
    var (s, g) := Acquire(st[q], FactsAt(v, path, i), ex, stores, commands, replicas);
    if i < |path| {
      var w' := LockFrom(st[q := s], v, path, exclusive, i + 1, stores, commands, g.replicas, calls + g.calls);
      assert w == w';
      LockFromKeys(st[q := s], v, path, exclusive, i + 1, stores, commands, g.replicas, calls + g.calls, w');
      LockFromFrame(st[q := s], v, path, exclusive, i + 1, stores, commands, g.replicas, calls + g.calls, w');
    }
  }

  /** A writer holding the lock of a node keeps every walk of lock through that node from
      completing; if the walk waits, it waits there or before. */
  lemma {:induction false} WriterBlocks(st: LockMap, v: View, path: Path, exclusive: bool, i: nat,
                                        stores: seq<Storage>, commands: map<Storage, Command>,
                                        replicas: Replicas, calls: set<RemoteCall>, u: Path, w: Walk)
    requires i <= |path| && Resolvable(v, path) && Stored(v) && Resolvable(st, path)
    requires StoresRegistered(stores, commands) && HoldersRegistered(replicas, commands)
    requires u in st && u <= path && i <= |u| && st[u].writing
    requires w == LockFrom(st, v, path, exclusive, i, stores, commands, replicas, calls)
    ensures w.0 != Locked && (w.0.Blocked? ==> |w.0.at| <= |u|)
    decreases |path| - i
  {
    var q: Path := Prefix(path, i);
    var n := FactsAt(v, path, i);
    var ex := exclusive && i == |path|;
    if q == u {
      WriterBlocksAcquire(st[q], n, ex, stores, commands, replicas);
    } else {
      var (s, g) := Acquire(st[q], n, ex, stores, commands, replicas);
      assert |u| != i;
      if g.Granted? {
        var w' := LockFrom(st[q := s], v, path, exclusive, i + 1, stores, commands, g.replicas, calls + g.calls);
        WriterBlocks(st[q := s], v, path, exclusive, i + 1, stores, commands, g.replicas, calls + g.calls, u, w');
      }
    }
  }

  /** A reader holding the lock of `path` keeps an exclusive walk of lock from completing. */
  lemma {:induction false} ReadersBlockWriter(st: LockMap, v: View, path: Path, i: nat,
                                              stores: seq<Storage>, commands: map<Storage, Command>,
                                              replicas: Replicas, calls: set<RemoteCall>, w: Walk)
    requires i <= |path| && Resolvable(v, path) && Stored(v) && Resolvable(st, path)
    requires StoresRegistered(stores, commands) && HoldersRegistered(replicas, commands)
    requires path in st && st[path].readers > 0
    requires w == LockFrom(st, v, path, true, i, stores, commands, replicas, calls)
    ensures w.0 != Locked
    decreases |path| - i
  {
    var q: Path := Prefix(path, i);
    var n := FactsAt(v, path, i);
    var (s, g) := Acquire(st[q], n, i == |path|, stores, commands, replicas);
    if i == |path| {
      assert q == path;
    } else if g.Granted? {
      assert q != path;
      var w' := LockFrom(st[q := s], v, path, true, i + 1, stores, commands, g.replicas, calls + g.calls);
      ReadersBlockWriter(st[q := s], v, path, i + 1, stores, commands, g.replicas, calls + g.calls, w');
    }
  }

  /** One more lock released. */
  lemma ReleasedStep(st: LockMap, path: Path, exclusive: bool, i: nat)
    requires i <= |path| && Prefix(path, i) in st
    ensures var q := Prefix(path, i);
            Released(st, path, exclusive, i)[q := Release(st[q], exclusive && i == |path|)]
              == Released(st, path, exclusive, i + 1)
  {
    var q: Path := Prefix(path, i);
    var a := Released(st, path, exclusive, i)[q := Release(st[q], exclusive && i == |path|)];
    var b := Released(st, path, exclusive, i + 1);
    forall p | p in st ensures a[p] == b[p] {
      if p == q {
        assert q <= path && (q == path <==> i == |path|);
      }
    }
  }

  /** unlock after a completed lock of the same path in the same mode gives every lock
      back its holders as they were before lock. */
  lemma LockThenUnlock(st: LockMap, v: View, path: Path, exclusive: bool, stores: seq<Storage>,
                       commands: map<Storage, Command>, replicas: Replicas, w: Walk)
    requires Resolvable(v, path) && Stored(v) && Resolvable(st, path)
    requires StoresRegistered(stores, commands) && HoldersRegistered(replicas, commands)
    requires forall q | q in st :: Inv(st[q])
    requires w == LockFrom(st, v, path, exclusive, 0, stores, commands, replicas, {}) && w.0 == Locked
    ensures w.1.Keys == st.Keys
    ensures forall q | q in st :: Holding(Released(w.1, path, exclusive, |path| + 1)[q]) == Holding(st[q])
  {
    LockFromKeys(st, v, path, exclusive, 0, stores, commands, replicas, {}, w);
    LockFromFrame(st, v, path, exclusive, 0, stores, commands, replicas, {}, w);
    forall q | q in st ensures Holding(Released(w.1, path, exclusive, |path| + 1)[q]) == Holding(st[q]) {
      if q <= path {
        LockFromHolds(st, v, path, exclusive, 0, stores, commands, replicas, {}, w, q);
      }
    }
  }
}
