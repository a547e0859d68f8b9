/** The per-node fair reader/writer lock of the naming server, with the replication and
    invalidation it runs when a lock is granted.

    Each blocking acquisition of the source (draw a ticket, then `while (...) wait()`) is
    split into a request step, which draws the ticket, and a grant step, which either
    finds the wait condition still true (the caller keeps waiting, nothing changes) or
    performs what follows the loop. The naming server's `replicas`, `storecommandMap`
    and `Stores`, which the source reaches through its `ns` argument, are passed in by
    value and the new replica map is handed back in the grant's result. */
module Locks {
  import opened Wrappers
  import opened Paths
  import opened Remote

  /** More consecutive shared grants than this on a file trigger a replication attempt. */
  const ReplicationThreshold: nat := 20

  /** What a grant reads of the node it was handed (the source passes null for the root of
      a longer path, modelled as None). */
  datatype NodeFacts = NodeFacts(isFile: bool, myPath: Path, storageStub: Option<Storage>)

  /** The naming server's replica registry: file path to the storages holding a replica. */
  type Replicas = map<Path, set<Storage>>

  /** Every replica holder is a registered storage server (so its command lookup succeeds). */
  predicate HoldersRegistered(replicas: Replicas, commands: map<Storage, Command>) {
    forall p | p in replicas :: replicas[p] <= commands.Keys
  }

  /** Every storage in the round-robin list is registered. */
  predicate StoresRegistered(stores: seq<Storage>, commands: map<Storage, Command>) {
    forall i | 0 <= i < |stores| :: stores[i] in commands
  }

  /** A file handed to a grant has its primary storage. */
  predicate FileHasPrimary(n: Option<NodeFacts>) {
    n.Some? && n.value.isFile ==> n.value.storageStub.Some?
  }

  predicate Ascending(q: seq<nat>) {
    forall i, j | 0 <= i < j < |q| :: q[i] < q[j]
  }

  /** The fields of one lock. `storeCursor` and `storeExpected` are the state of the
      lock's one-pass iterator over the storage list: the next index, and the list length
      when the iterator was made (the list only grows, so a different length means the
      list was modified and the iterator fails). */
  datatype LockState = LockState(
    readers: nat,
    writerIndex: seq<nat>,
    initializedStore: bool,
    storeCursor: nat,
    storeExpected: nat,
    consecReads: nat,
    globalIndex: nat,
    writing: bool)
  {
    /** The wait loop of getExclusive is over for `ticket`. */
    predicate ExclusiveReady(ticket: nat) {
      readers == 0 && |writerIndex| > 0 && ticket == writerIndex[0] && !writing
    }

    /** The wait loop of getShared is over for `ticket`. */
    predicate SharedReady(ticket: nat) {
      (|writerIndex| == 0 || ticket < writerIndex[0]) && !writing
    }

    /** getExclusive before its wait: the ticket is the counter, queued at the tail. */
    function RequestExclusive(): (LockState, nat) {
      (this.(writerIndex := writerIndex + [globalIndex], globalIndex := globalIndex + 1), globalIndex)
    }

    /** getShared before its wait: the first call creates the storage iterator, then a
        ticket is drawn. */
    function RequestShared(storeCount: nat): (LockState, nat) {
      var s := if initializedStore then this
               else this.(initializedStore := true, storeCursor := 0, storeExpected := storeCount);
      (s.(globalIndex := globalIndex + 1), globalIndex)
    }

    /** getExclusive after its wait: the writer holds the lock, its ticket leaves the
        queue and the read counter restarts. */
    function GrantExclusive(): LockState
      requires |writerIndex| > 0
    {
      this.(writing := true, writerIndex := writerIndex[1..], consecReads := 0)
    }

    /** getShared after its wait, before the replication policy. */
    function GrantShared(): LockState {
      this.(readers := readers + 1)
    }

    function ReleaseShared(): LockState {
      this.(readers := if readers > 0 then readers - 1 else 0)
    }

    function ReleaseExclusive(): LockState {
      this.(writing := false)
    }
  }

  const Initial: LockState := LockState(0, [], false, 0, 0, 0, 0, false)

  /** The lock invariant: the writer queue is in ticket order and holds only issued
      tickets; a writer never shares the lock with readers; the iterator never runs past
      the list it was made for. */
  predicate Inv(s: LockState) {
    && Ascending(s.writerIndex)
    && (forall i | 0 <= i < |s.writerIndex| :: s.writerIndex[i] < s.globalIndex)
    && (s.writing ==> s.readers == 0)
    && s.storeCursor <= s.storeExpected
  }

  /** The result of one grant step. */
  datatype Grant =
    | Waiting                                             // the wait condition still holds
    | Granted(replicas: Replicas, calls: set<RemoteCall>) // the new replica map, remote calls issued
    | Thrown(error: Error)                                // the lock was granted, then the code threw

  /** The invalidation getExclusive runs once granted: on a file, while any replica
      exists anywhere, send a delete to every holder of this file's replicas and drop its
      entry; a file without an entry while others have one makes the lookup null. */
  function Invalidate(n: Option<NodeFacts>, commands: map<Storage, Command>, replicas: Replicas): (g: Grant)
    requires HoldersRegistered(replicas, commands)
  {
    if n.Some? && n.value.isFile && replicas != map[] then
      var path := n.value.myPath;
      if path !in replicas then Thrown(NullPointer)
      else Granted(replicas - {path}, set s | s in replicas[path] :: Delete(commands[s], path))
    else Granted(replicas, {})
  }

  /** A replica placed on `target`: bookkept even if the copy failed, counter restarted. */
  function Placed(s: LockState, f: NodeFacts, target: Storage, commands: map<Storage, Command>,
                  replicas: Replicas): (LockState, Grant)
    requires target in commands && f.storageStub.Some?
  {
    var held := if f.myPath in replicas then replicas[f.myPath] else {};
    (s.(consecReads := 0),
     Granted(replicas[f.myPath := held + {target}], {Copy(commands[target], f.myPath, f.storageStub.value)}))
  }

  /** getShared after its wait: count the reader; on a file count the read, and past the
      threshold take the next storage from the iterator (skipping the primary once), copy
      the file there and record the replica. */
  function AfterSharedGrant(s: LockState, n: Option<NodeFacts>, stores: seq<Storage>,
                            commands: map<Storage, Command>, replicas: Replicas): (LockState, Grant)
    requires StoresRegistered(stores, commands) && FileHasPrimary(n)
  {
    var s1 := s.GrantShared();
    if !(n.Some? && n.value.isFile) then (s1, Granted(replicas, {}))
    else
      var s2 := s1.(consecReads := s1.consecReads + 1);
      if s2.consecReads <= ReplicationThreshold then (s2, Granted(replicas, {}))
      else Replication(s2, n.value, stores, commands, replicas)
  }

  /** A read past the threshold: unless the iterator is used up, take its next storage
      (skipping the primary once), copy the file there and record the replica; the read
      counter restarts unless the iterator throws. */
  function Replication(s: LockState, f: NodeFacts, stores: seq<Storage>,
                     commands: map<Storage, Command>, replicas: Replicas): (LockState, Grant)
    requires StoresRegistered(stores, commands) && f.storageStub.Some?
  {
    if s.storeCursor == |stores| then (s.(consecReads := 0), Granted(replicas, {}))
    else if |stores| != s.storeExpected then (s, Thrown(ConcurrentModification))
    else if s.storeCursor > |stores| then (s, Thrown(NoSuchElement))
    else
      var first := stores[s.storeCursor];
      var s3 := s.(storeCursor := s.storeCursor + 1);
      if Some(first) == f.storageStub then
        if s3.storeCursor >= |stores| then (s3, Thrown(NoSuchElement))
        else Placed(s3.(storeCursor := s3.storeCursor + 1), f, stores[s3.storeCursor], commands, replicas)
      else Placed(s3, f, first, commands, replicas)
  }

  // ---------------------------------------------------------------------------
  // The lock object

  class RWLock {
    var readers: nat
    var writerIndex: seq<nat>
    var initializedStore: bool
    var storeCursor: nat
    var storeExpected: nat
    var consecReads: nat
    var globalIndex: nat
    var writing: bool
    /** The path of the node the lock guards: a ghost label that tells locks apart. */
    ghost const home: Path

    ghost function State(): LockState
      reads this
    {
      LockState(readers, writerIndex, initializedStore, storeCursor, storeExpected, consecReads, globalIndex, writing)
    }

    ghost predicate Valid()
      reads this
    {
      Inv(State())
    }

    constructor(ghost home: Path)
      ensures State() == Initial && Valid() && this.home == home
    {
      this.home := home;
      readers, writerIndex, initializedStore := 0, [], false;
      storeCursor, storeExpected := 0, 0;
      consecReads, globalIndex, writing := 0, 0, false;
    }

    /** getExclusive, up to its wait loop. */
    method RequestExclusive() returns (ticket: nat)
      modifies this
      ensures old(Valid()) ==> Valid()
      ensures (State(), ticket) == old(State()).RequestExclusive()
    {
      ticket := globalIndex;
      globalIndex := globalIndex + 1;
      writerIndex := writerIndex + [ticket];
    }

    /** getExclusive from its wait loop on: waits unless the lock is free and `ticket`
        heads the queue, then takes the lock and invalidates the file's replicas. */
    method TryGrantExclusive(ticket: nat, n: Option<NodeFacts>, commands: map<Storage, Command>,
                             replicas: Replicas) returns (g: Grant)
      requires HoldersRegistered(replicas, commands)
      modifies this
      ensures old(Valid()) ==> Valid()
      ensures !old(State()).ExclusiveReady(ticket) ==> g == Waiting && State() == old(State())
      ensures old(State()).ExclusiveReady(ticket) ==>
                State() == old(State()).GrantExclusive() && g == Invalidate(n, commands, replicas)
    {
      if !(readers == 0 && |writerIndex| > 0 && ticket == writerIndex[0]) || writing {
        return Waiting;
      }
      writing := true;
      writerIndex := writerIndex[1..];
      consecReads := 0;
      if n.Some? && n.value.isFile && replicas != map[] {
        var path := n.value.myPath;
        if path !in replicas {
          return Thrown(NullPointer);
        }
        var holders := replicas[path];
        var rest := holders;
        var calls: set<RemoteCall> := {};
        while rest != {}
          invariant rest <= holders
          invariant calls == set s | s in holders - rest :: Delete(commands[s], path)
          decreases rest
        {
          var store :| store in rest;
          var c := commands[store];
          calls := calls + {Delete(c, path)};
          rest := rest - {store};
        }
        g := Granted(replicas - {path}, calls);
      } else {
        g := Granted(replicas, {});
      }
    }

    /** getShared, up to its wait loop. */
    method RequestShared(stores: seq<Storage>) returns (ticket: nat)
      modifies this
      ensures old(Valid()) ==> Valid()
      ensures (State(), ticket) == old(State()).RequestShared(|stores|)
    {
      if !initializedStore {
        storeCursor, storeExpected := 0, |stores|;
        initializedStore := true;
      }
      ticket := globalIndex;
      globalIndex := globalIndex + 1;
    }

    /** getShared from its wait loop on: waits while a writer holds the lock or an
        earlier writer is queued, then admits the reader and runs the replication policy. */
    method TryGrantShared(ticket: nat, n: Option<NodeFacts>, stores: seq<Storage>,
                          commands: map<Storage, Command>, replicas: Replicas) returns (g: Grant)
      requires StoresRegistered(stores, commands) && FileHasPrimary(n)
      modifies this
      ensures old(Valid()) ==> Valid()
      ensures !old(State()).SharedReady(ticket) ==> g == Waiting && State() == old(State())
      ensures old(State()).SharedReady(ticket) ==>
                (State(), g) == AfterSharedGrant(old(State()), n, stores, commands, replicas)
    {
      if (|writerIndex| > 0 && !(ticket < writerIndex[0])) || writing {
        return Waiting;
      }
      readers := readers + 1;
      g := Granted(replicas, {});
      if n.Some? && n.value.isFile {
        var f := n.value;
        consecReads := consecReads + 1;
        if consecReads > ReplicationThreshold {
          g := Replicate(f, stores, commands, replicas);
        }
      }
    }

    /** The replication step of getShared, run once the read counter passes the
        threshold. */
    method Replicate(f: NodeFacts, stores: seq<Storage>, commands: map<Storage, Command>,
                     replicas: Replicas) returns (g: Grant)
      requires StoresRegistered(stores, commands) && f.storageStub.Some?
      modifies this
      ensures old(Valid()) ==> Valid()
      ensures (State(), g) == Replication(old(State()), f, stores, commands, replicas)
    {
      g := Granted(replicas, {});
      if storeCursor != |stores| {
        // storeItr.next(): comodification check, then bounds check
        if |stores| != storeExpected {
          return Thrown(ConcurrentModification);
        }
        if storeCursor >= |stores| {
          return Thrown(NoSuchElement);
        }
        var s := stores[storeCursor];
        storeCursor := storeCursor + 1;
        if Some(s) == f.storageStub {
          if storeCursor >= |stores| {
            return Thrown(NoSuchElement);
          }
          s := stores[storeCursor];
          storeCursor := storeCursor + 1;
        }
        var c := commands[s];
        var held := if f.myPath in replicas then replicas[f.myPath] else {};
        g := Granted(replicas[f.myPath := held + {s}], {Copy(c, f.myPath, f.storageStub.value)});
      }
      consecReads := 0;
    }

    method ReleaseShared()
      modifies this
      ensures old(Valid()) ==> Valid()
      ensures State() == old(State()).ReleaseShared()
    {
      if readers > 0 {
        readers := readers - 1;
      }
    }

    method ReleaseExclusive()
      modifies this
      ensures old(Valid()) ==> Valid()
      ensures State() == old(State()).ReleaseExclusive()
    {
      writing := false;
    }
  }

  // ---------------------------------------------------------------------------
  // Runs of lock events

  /** One scheduled step of some thread on the lock: a grant whose wait condition still
      holds changes nothing. The file-specific read counting is left to AfterSharedGrant. */
  datatype Event =
    | AskExclusive
    | AskShared(storeCount: nat)
    | TakeExclusive(ticket: nat)
    | TakeShared(ticket: nat)
    | DropShared
    | DropExclusive

  function Step(s: LockState, e: Event): LockState {
    match e
    case AskExclusive => s.RequestExclusive().0
    case AskShared(k) => s.RequestShared(k).0
    case TakeExclusive(t) => if s.ExclusiveReady(t) then s.GrantExclusive() else s
    case TakeShared(t) => if s.SharedReady(t) then s.GrantShared() else s
    case DropShared => s.ReleaseShared()
    case DropExclusive => s.ReleaseExclusive()
  }

  function Run(s: LockState, es: seq<Event>): LockState
    decreases |es|
  {
    if es == [] then s else Run(Step(s, es[0]), es[1..])
  }

  /** The tickets drawn by the requests of a run, in order. */
  function Tickets(s: LockState, es: seq<Event>): seq<nat>
    decreases |es|
  {
    if es == [] then []
    else
      var drawn := match es[0]
        case AskExclusive => [s.globalIndex]
        case AskShared(_) => [s.globalIndex]
        case _ => [];
      drawn + Tickets(Step(s, es[0]), es[1..])
  }

  /** The tickets of the exclusive grants that take effect in a run, in order. */
  function ExclusiveGrants(s: LockState, es: seq<Event>): seq<nat>
    decreases |es|
  {
    if es == [] then []
    else
      var granted := match es[0]
        case TakeExclusive(t) => if s.ExclusiveReady(t) then [t] else []
        case _ => [];
      granted + ExclusiveGrants(Step(s, es[0]), es[1..])
  }

  /** A read run on one file: k consecutive shared grants, each fed the replica map the
      previous one produced (a run that throws stops there). */
  function ReadRun(s: LockState, k: nat, f: NodeFacts, stores: seq<Storage>,
                   commands: map<Storage, Command>, replicas: Replicas): (LockState, Grant)
    requires StoresRegistered(stores, commands) && f.isFile && f.storageStub.Some?
    decreases k
  {
    if k == 0 then (s, Granted(replicas, {}))
    else
      var (s', g) := AfterSharedGrant(s, Some(f), stores, commands, replicas);
      if g.Granted? then ReadRun(s', k - 1, f, stores, commands, g.replicas) else (s', g)
  }

  // ---------------------------------------------------------------------------
  // Lemmas

  lemma InitialInv()
    ensures Inv(Initial)
  {
  }

  /** Every transition keeps the lock invariant. */
  lemma StepKeepsInv(s: LockState, e: Event)
    requires Inv(s)
    ensures Inv(Step(s, e))
  {
    match e
    case AskExclusive =>
      var q := s.writerIndex + [s.globalIndex];
      assert forall i | 0 <= i < |q| :: q[i] < s.globalIndex + 1;
    case TakeExclusive(t) =>
      if s.ExclusiveReady(t) {
        var q := s.writerIndex[1..];
        assert forall i | 0 <= i < |q| :: q[i] == s.writerIndex[i + 1];
      }
    case _ =>
  }

  lemma {:induction false} RunKeepsInv(s: LockState, es: seq<Event>)
    requires Inv(s)
    ensures Inv(Run(s, es))
    decreases |es|
  {
    if es != [] {
      StepKeepsInv(s, es[0]);
      RunKeepsInv(Step(s, es[0]), es[1..]);
    }
  }

  /** Mutual exclusion: in every state a run from a fresh lock reaches, a writer holding
      the lock excludes all readers. */
  lemma WriterExcludesReaders(es: seq<Event>)
    ensures Run(Initial, es).writing ==> Run(Initial, es).readers == 0
  {
    RunKeepsInv(Initial, es);
  }

  /** One step draws a ticket exactly when it is a request, and then advances the counter. */
  lemma StepCounter(s: LockState, e: Event)
    ensures Step(s, e).globalIndex == s.globalIndex + (if e.AskExclusive? || e.AskShared? then 1 else 0)
  {
  }

  /** Tickets are drawn in strictly increasing order, each from the current counter. */
  lemma {:induction false} TicketsIncrease(s: LockState, es: seq<Event>)
    ensures Ascending(Tickets(s, es))
    ensures s.globalIndex <= Run(s, es).globalIndex
    ensures forall i | 0 <= i < |Tickets(s, es)| :: s.globalIndex <= Tickets(s, es)[i] < Run(s, es).globalIndex
    decreases |es|
  {
    if es != [] {
      var s' := Step(s, es[0]);
      assert Run(s, es) == Run(s', es[1..]);
      StepCounter(s, es[0]);
      TicketsIncrease(s', es[1..]);
      if es[0].AskExclusive? || es[0].AskShared? {
        assert Tickets(s, es) == [s.globalIndex] + Tickets(s', es[1..]);
        DrawTicket(s.globalIndex, Tickets(s', es[1..]), Run(s, es).globalIndex);
      } else {
        assert Tickets(s, es) == Tickets(s', es[1..]);
      }
    }
  }

  /** Drawing ticket x ahead of later tickets that all exceed it keeps the order and the
      bounds. */
  lemma DrawTicket(x: nat, rest: seq<nat>, hi: nat)
    requires Ascending(rest) && forall i | 0 <= i < |rest| :: x < rest[i] < hi
    requires x < hi
    ensures Ascending([x] + rest)
    ensures forall i | 0 <= i < |[x] + rest| :: x <= ([x] + rest)[i] < hi
  {
    PrependAscending(x, rest);
    var all := [x] + rest;
    forall i | 0 <= i < |all| ensures x <= all[i] < hi {
      if i > 0 {
        assert all[i] == rest[i - 1];
      }
    }
  }

  lemma PrependAscending(x: nat, q: seq<nat>)
    requires Ascending(q) && forall i | 0 <= i < |q| :: x < q[i]
    ensures Ascending([x] + q)
  {
    var r := [x] + q;
    forall i, j | 0 <= i < j < |r| ensures r[i] < r[j] {
      assert r[j] == q[j - 1];
      if i > 0 {
        assert r[i] == q[i - 1];
      }
    }
  }

  /** The grant goes to the oldest queued writer. */
  lemma ExclusiveGoesToOldest(s: LockState, t: nat)
    requires Inv(s) && s.ExclusiveReady(t)
    ensures forall i | 0 <= i < |s.writerIndex| :: t <= s.writerIndex[i]
  {
  }

  /** Writers are granted in FIFO ticket order over any run: each exclusive grant that
      takes effect has a larger ticket than every earlier one. */
  lemma {:induction false} WritersInTicketOrder(s: LockState, es: seq<Event>, floor: int)
    requires Inv(s)
    requires forall i | 0 <= i < |s.writerIndex| :: floor < s.writerIndex[i]
    requires floor < s.globalIndex
    ensures Ascending(ExclusiveGrants(s, es))
    ensures forall i | 0 <= i < |ExclusiveGrants(s, es)| :: floor < ExclusiveGrants(s, es)[i]
    decreases |es|
  {
    if es != [] {
      var e := es[0];
      var s' := Step(s, e);
      var rest := ExclusiveGrants(s', es[1..]);
      StepKeepsInv(s, e);
      if e.TakeExclusive? && s.ExclusiveReady(e.ticket) {
        var t := e.ticket;
        GrantRaisesFloor(s, t);
        WritersInTicketOrder(s', es[1..], t);
        assert ExclusiveGrants(s, es) == [t] + rest;
        PrependAscending(t, rest);
      } else {
        StepKeepsFloor(s, e, floor);
        WritersInTicketOrder(s', es[1..], floor);
        assert ExclusiveGrants(s, es) == rest;
      }
    }
  }

  /** After an exclusive grant to `t`, every queued ticket is above `t`. */
  lemma GrantRaisesFloor(s: LockState, t: nat)
    requires Inv(s) && s.ExclusiveReady(t)
    ensures forall i | 0 <= i < |s.GrantExclusive().writerIndex| :: t < s.GrantExclusive().writerIndex[i]
    ensures t < s.GrantExclusive().globalIndex
  {
    var q := s.GrantExclusive().writerIndex;
    forall i | 0 <= i < |q| ensures t < q[i] {
      assert q[i] == s.writerIndex[i + 1];
    }
  }

  /** Any step other than an exclusive grant keeps every queued ticket above `floor`. */
  lemma StepKeepsFloor(s: LockState, e: Event, floor: int)
    requires forall i | 0 <= i < |s.writerIndex| :: floor < s.writerIndex[i]
    requires floor < s.globalIndex
    requires !(e.TakeExclusive? && s.ExclusiveReady(e.ticket))
    ensures forall i | 0 <= i < |Step(s, e).writerIndex| :: floor < Step(s, e).writerIndex[i]
    ensures floor < Step(s, e).globalIndex
  {
    if e.AskExclusive? {
      var q := Step(s, e).writerIndex;
      assert q == s.writerIndex + [s.globalIndex];
      forall i | 0 <= i < |q| ensures floor < q[i] {
        if i < |s.writerIndex| {
          assert q[i] == s.writerIndex[i];
        }
      }
    }
  }

  /** From a fresh lock, exclusive grants follow ticket order. */
  lemma FifoFromInitial(es: seq<Event>)
    ensures Ascending(ExclusiveGrants(Initial, es))
  {
    WritersInTicketOrder(Initial, es, -1);
  }

  /** A reader whose ticket is later than some queued writer's cannot be admitted. */
  lemma LateReaderWaits(s: LockState, w: nat, t: nat)
    requires Inv(s) && w in s.writerIndex && w < t
    ensures !s.SharedReady(t)
  {
  }

  /** Readers that arrived before the oldest queued writer are admitted together, however
      many readers already hold the lock. */
  lemma EarlyReadersShare(s: LockState, t: nat, u: nat)
    requires !s.writing && |s.writerIndex| > 0 && t < s.writerIndex[0] && u < s.writerIndex[0]
    ensures s.SharedReady(t) && s.GrantShared().SharedReady(u)
  {
  }

  /** An exclusive grant restarts the read counter; on a file it removes the file's
      replica entry and sends a delete to each holder. */
  lemma ExclusiveGrantInvalidates(s: LockState, f: NodeFacts, commands: map<Storage, Command>,
                                  replicas: Replicas)
    requires |s.writerIndex| > 0 && f.isFile && HoldersRegistered(replicas, commands)
    requires f.myPath in replicas
    ensures s.GrantExclusive().consecReads == 0
    ensures var g := Invalidate(Some(f), commands, replicas);
            g.Granted? && f.myPath !in g.replicas &&
            (forall p | p in replicas && p != f.myPath :: p in g.replicas && g.replicas[p] == replicas[p]) &&
            (forall h | h in replicas[f.myPath] :: Delete(commands[h], f.myPath) in g.calls)
  {
  }

  /** A shared grant on a file that returns normally leaves the counter at most 20. */
  lemma SharedGrantBoundsCounter(s: LockState, f: NodeFacts, stores: seq<Storage>,
                                 commands: map<Storage, Command>, replicas: Replicas)
    requires StoresRegistered(stores, commands) && f.isFile && f.storageStub.Some?
    ensures var (s', g) := AfterSharedGrant(s, Some(f), stores, commands, replicas);
            g.Granted? ==> s'.consecReads <= ReplicationThreshold
  {
  }

  /** `after` differs from `before` at most in `path`'s entry, which only gains storages
      from `stores` other than `primary`. */
  predicate OnlyAddsReplicas(before: Replicas, after: Replicas, path: Path, primary: Option<Storage>,
                             stores: seq<Storage>) {
    && before.Keys <= after.Keys <= before.Keys + {path}
    && (forall p | p in before :: before[p] <= after[p] && (p != path ==> after[p] == before[p]))
    && (forall h | path in after && h in after[path] && (path !in before || h !in before[path]) ::
          h in stores && Some(h) != primary)
  }

  /** A shared grant keeps the lock invariant, and only ever adds registered storages
      other than the file's primary to the replica map. */
  lemma SharedGrantKeepsInv(s: LockState, n: Option<NodeFacts>, stores: seq<Storage>,
                            commands: map<Storage, Command>, replicas: Replicas)
    requires Inv(s) && !s.writing && StoresRegistered(stores, commands) && FileHasPrimary(n)
    requires forall i, j | 0 <= i < j < |stores| :: stores[i] != stores[j]
    ensures var (s', g) := AfterSharedGrant(s, n, stores, commands, replicas);
            Inv(s') &&
            (g.Granted? && n.None? ==> g.replicas == replicas) &&
            (g.Granted? && n.Some? ==>
               OnlyAddsReplicas(replicas, g.replicas, n.value.myPath, n.value.storageStub, stores))
  {
    var (s', g) := AfterSharedGrant(s, n, stores, commands, replicas);
    if n.Some? && n.value.isFile && s.consecReads + 1 > ReplicationThreshold
       && s.storeCursor != |stores| && |stores| == s.storeExpected && s.storeCursor < |stores| {
      var c := s.storeCursor;
      var first := stores[c];
      if Some(first) == n.value.storageStub && c + 1 < |stores| {
        assert stores[c + 1] != first;
      }
    }
  }

  /** Below the threshold a shared grant on a file only counts the reader and the read. */
  lemma {:induction false} QuietReads(s: LockState, k: nat, f: NodeFacts, stores: seq<Storage>,
                                      commands: map<Storage, Command>, replicas: Replicas)
    requires StoresRegistered(stores, commands) && f.isFile && f.storageStub.Some?
    requires s.consecReads + k <= ReplicationThreshold
    ensures ReadRun(s, k, f, stores, commands, replicas)
         == (s.(readers := s.readers + k, consecReads := s.consecReads + k), Granted(replicas, {}))
    decreases k
  {
    if k > 0 {
      var (s1, g1) := AfterSharedGrant(s, Some(f), stores, commands, replicas);
      assert g1 == Granted(replicas, {});
      assert s1 == s.(readers := s.readers + 1, consecReads := s.consecReads + 1);
      QuietReads(s1, k - 1, f, stores, commands, replicas);
    }
  }

  /** The grant that pushes the counter past the threshold takes the next storage from
      the iterator, skipping the primary, records it as a replica holder and restarts the
      counter, provided the iterator still has a usable storage. */
  lemma ReadPastThresholdReplicates(s: LockState, f: NodeFacts, stores: seq<Storage>,
                                    commands: map<Storage, Command>, replicas: Replicas)
    requires StoresRegistered(stores, commands) && f.isFile && f.storageStub.Some?
    requires forall i, j | 0 <= i < j < |stores| :: stores[i] != stores[j]
    requires s.consecReads == ReplicationThreshold
    requires s.storeCursor < |stores| == s.storeExpected
    requires Some(stores[s.storeCursor]) == f.storageStub ==> s.storeCursor + 1 < |stores|
    ensures var (s', g) := AfterSharedGrant(s, Some(f), stores, commands, replicas);
            g.Granted? && s'.consecReads == 0 &&
            exists h :: h in stores && Some(h) != f.storageStub &&
              g.replicas == replicas[f.myPath := (if f.myPath in replicas then replicas[f.myPath] else {}) + {h}]
  {
    var c := s.storeCursor;
    if Some(stores[c]) == f.storageStub {
      assert stores[c + 1] != stores[c];
      assert stores[c + 1] in stores;
    } else {
      assert stores[c] in stores;
    }
  }

  /** Starting from a restarted counter (a fresh lock or one just granted exclusively),
      the first 20 shared grants on a file place no replica, and the 21st places one on a
      storage other than the primary and restarts the counter, provided the iterator still
      has a usable storage. */
  lemma TwentyFirstReadReplicates(s: LockState, f: NodeFacts, stores: seq<Storage>,
                                  commands: map<Storage, Command>, replicas: Replicas)
    requires StoresRegistered(stores, commands) && f.isFile && f.storageStub.Some?
    requires forall i, j | 0 <= i < j < |stores| :: stores[i] != stores[j]
    requires s.consecReads == 0
    requires s.storeCursor < |stores| == s.storeExpected
    requires Some(stores[s.storeCursor]) == f.storageStub ==> s.storeCursor + 1 < |stores|
    ensures ReadRun(s, ReplicationThreshold, f, stores, commands, replicas).1 == Granted(replicas, {})
    ensures var (s', g) := ReadRun(s, ReplicationThreshold + 1, f, stores, commands, replicas);
            g.Granted? && s'.consecReads == 0 &&
            exists h :: h in stores && Some(h) != f.storageStub &&
              g.replicas == replicas[f.myPath := (if f.myPath in replicas then replicas[f.myPath] else {}) + {h}]
  {
    QuietReads(s, ReplicationThreshold, f, stores, commands, replicas);
    var s20 := s.(readers := s.readers + ReplicationThreshold, consecReads := ReplicationThreshold);
    ReadRunSplit(s, ReplicationThreshold, f, stores, commands, replicas);
    ReadPastThresholdReplicates(s20, f, stores, commands, replicas);
    var (s21, g21) := AfterSharedGrant(s20, Some(f), stores, commands, replicas);
    assert ReadRun(s20, 1, f, stores, commands, replicas) == ReadRun(s21, 0, f, stores, commands, g21.replicas);
  }

  /** A read run of k + 1 grants is a run of k grants followed by one more. */
  lemma {:induction false} ReadRunSplit(s: LockState, k: nat, f: NodeFacts, stores: seq<Storage>,
                                        commands: map<Storage, Command>, replicas: Replicas)
    requires StoresRegistered(stores, commands) && f.isFile && f.storageStub.Some?
    requires ReadRun(s, k, f, stores, commands, replicas).1.Granted?
    ensures var (sk, gk) := ReadRun(s, k, f, stores, commands, replicas);
            ReadRun(s, k + 1, f, stores, commands, replicas) == ReadRun(sk, 1, f, stores, commands, gk.replicas)
    decreases k
  {
    if k > 0 {
      var (s1, g1) := AfterSharedGrant(s, Some(f), stores, commands, replicas);
      ReadRunSplit(s1, k - 1, f, stores, commands, g1.replicas);
    }
  }
}
