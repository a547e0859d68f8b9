/** The naming server: the directory tree, the registered storage servers (each one's
    client reference and command reference, and the list of client references in
    registration order), and the replica map grown by the node locks.

    The server keeps its tree as an arena keyed by path: each node's entry (file or
    directory, and its storage), the state of its lock, and the list its getFilesUnder
    appends to.
    A node's children are the entries one component longer than its path; the lemmas
    ShapedWellFormed and ShapedChildNames show that the node graph of module Tree is
    read the same way. Every tree operation is proved to act on the tree exactly as the
    function of module Directory for that operation says; the properties of those
    functions are proved there. */
module Naming {
  import opened Wrappers
  import opened Paths
  import opened Remote
  import opened Locks
  import opened Tree
  import opened Directory
  import opened Locking

  /** What a node graph records of each of its nodes. */
  ghost function ViewOf(t: map<Path, Node>): View {
    map p | p in t :: Entry(t[p].isFile, t[p].storageStub)
  }

  /** A node graph of the tree shape whose root is a directory is a tree of entries. */
  lemma ShapedWellFormed(t: map<Path, Node>, k: map<Path, map<string, Node>>)
    requires Shaped(t, k) && !t[Root].isFile
    ensures WellFormed(ViewOf(t))
  {
  }

  /** The names a node's children map holds are the names its path lists. */
  lemma ShapedChildNames(t: map<Path, Node>, k: map<Path, map<string, Node>>, p: Path)
    requires Shaped(t, k) && p in t
    ensures ChildNames(ViewOf(t), p) == k[p].Keys
  {
    forall c | c in k[p] ensures c in ChildNames(ViewOf(t), p) {
      var q := p + [c];
      assert Up(q) == p && q[|q| - 1] == c;
    }
  }

  /** The registered storages are listed once each in `stores`, and every replica
      holder is registered. */
  predicate Registry(stores: seq<Storage>, commands: map<Storage, Command>, replicas: Replicas) {
    && (forall i | 0 <= i < |stores| :: stores[i] in commands)
    && (forall s | s in commands :: s in stores)
    && (forall i, j | 0 <= i < j < |stores| :: stores[i] != stores[j])
    && HoldersRegistered(replicas, commands)
  }

  /** A storage not yet registered is not listed, and joining it to the end of the list
      with its command reference keeps the registry sound. */
  lemma RegistryJoin(stores: seq<Storage>, commands: map<Storage, Command>, replicas: Replicas,
                     client: Storage, command: Command)
    requires Registry(stores, commands, replicas) && client !in commands
    ensures client !in stores && Registry(stores + [client], commands[client := command], replicas)
  {
  }

  /** A for-each loop over a set: its elements in the set's iteration order. */
  method Enumerate<T>(keys: set<T>) returns (order: seq<T>)
    ensures IsEnumeration(order, keys)
  {
    var rest := keys;
    order := [];
    while rest != {}
      invariant rest <= keys
      invariant forall i, j | 0 <= i < j < |order| :: order[i] != order[j]
      invariant forall i | 0 <= i < |order| :: order[i] in keys && order[i] !in rest
      invariant forall c | c in keys && c !in rest :: c in order
      decreases rest
    {
      var c :| c in rest;
      order := order + [c];
      rest := rest - {c};
    }
  }


  /** Some order lists every element of a finite set once. */
  lemma {:induction false} EnumerationExists<T>(s: set<T>)
    ensures exists order :: IsEnumeration(order, s)
    decreases s
  {
    if s == {} {
      assert IsEnumeration([], s);
    } else {
      var x :| x in s;
      EnumerationExists(s - {x});
      var order :| IsEnumeration(order, s - {x});
      assert IsEnumeration(order + [x], s);
    }
  }

  /** The node at `q` is one `t1` kept from `t0`, with the same entry. */
  predicate Survives(t0: View, t1: View, q: Path) {
    q in t0 && q in t1 && t1[q] == t0[q]
  }

  /** `t1` keeps every path of `t0`, changing an entry only by making a file a directory. */
  predicate Grows(t0: View, t1: View) {
    forall q | q in t0 :: q in t1 && (t1[q] == t0[q] || (t0[q].isFile && !t1[q].isFile))
  }

  /** Every node `t1` kept from `t0` keeps its lock state, and every other node of `t1`
      has a lock of its own, not yet used. */
  predicate LocksFollow(t0: View, l0: LockMap, t1: View, l1: LockMap) {
    forall q | q in t1 ::
      && q in l1
      && (Survives(t0, t1, q) ==> q in l0 && l1[q] == l0[q])
      && (!Survives(t0, t1, q) ==> l1[q] == Initial)
  }

  /** `t1` grows `t0` and its locks follow `l0`. */
  predicate Follows(t0: View, l0: LockMap, t1: View, l1: LockMap) {
    Grows(t0, t1) && LocksFollow(t0, l0, t1, l1)
  }

  /** Where addToTree's inner loop stands on `p`: the prefix of length `j` is a directory
      and the next one is missing or a file. */
  predicate Frontier(v: View, p: Path, j: nat) {
    && j < |p| && Prefix(p, j) in v && !v[Prefix(p, j)].isFile
    && (Prefix(p, j + 1) !in v || v[Prefix(p, j + 1)].isFile)
  }

  /** addToTree's inner loop on `p` has gone from `j0` to `j`: the arena is sound, the
      walk still stands at a frontier, what is left of it ends where the whole would, and
      the tree has grown with its locks following. */
  predicate Filled(t0: View, l0: LockMap, t: View, l: LockMap, lists: map<Path, seq<Path>>,
                   p: Path, s: Storage, j0: nat, j: nat)
  {
    && Arena(t, l, lists) && j0 <= j && Frontier(t, p, j)
    && Fill(t0, p, s, j0) == Fill(t, p, s, j) && Follows(t0, l0, t, l)
  }

  /** register's loop has offered the first `i` files: the arena is sound, the duplicates
      so far followed by those of the rest are those of the whole, the rest leaves the tree
      where the whole would, and the tree has grown with its locks following. */
  predicate Registering(t0: View, l0: LockMap, t: View, l: LockMap, lists: map<Path, seq<Path>>,
                        s: Storage, files: seq<Path>, duplicates: seq<Path>, i: nat)
  {
    && Arena(t, l, lists) && i <= |files|
    && duplicates + RegisterFiles(t, s, files[i..]).0 == RegisterFiles(t0, s, files).0
    && RegisterFiles(t, s, files[i..]).1 == RegisterFiles(t0, s, files).1
    && Follows(t0, l0, t, l)
  }

  lemma ConcatAssoc<T>(a: seq<T>, b: seq<T>, c: seq<T>)
    ensures a + (b + c) == (a + b) + c && a + [] == a && [] + c == c
  {
  }

  /** Two growths in a row are one, and their locks follow along. */
  lemma FollowTrans(t0: View, l0: LockMap, t1: View, l1: LockMap, t2: View, l2: LockMap)
    requires Follows(t0, l0, t1, l1) && Follows(t1, l1, t2, l2)
    ensures Follows(t0, l0, t2, l2)
  {
    forall q | q in t2 && Survives(t0, t2, q) ensures Survives(t0, t1, q) && Survives(t1, t2, q) {
      assert q in t1;
    }
  }

  /** The arena is sound: the tree is a tree whose files have storages; every node has a
      lock of its own, whose state keeps the lock invariant; only directories have lists. */
  predicate Arena(tree: View, locks: LockMap, lists: map<Path, seq<Path>>) {
    && WellFormed(tree) && Stored(tree)
    && locks.Keys == tree.Keys && (forall q | q in locks :: Inv(locks[q]))
    && (forall q | q in lists :: q in tree && !tree[q].isFile)
  }

  /** A new node where nothing stood, or a directory where a file stood, under a directory,
      keeps the arena sound; nothing lies below it. */
  lemma PutArena(tree: View, locks: LockMap, lists: map<Path, seq<Path>>, q: Path, e: Entry)
    requires Arena(tree, locks, lists) && q != Root && Up(q) in tree && !tree[Up(q)].isFile
    requires q !in tree || (tree[q].isFile && !e.isFile)
    requires e.isFile ==> e.stub.Some?
    ensures Arena(tree[q := e], locks[q := Initial], lists)
    ensures Follows(tree, locks, tree[q := e], locks[q := Initial])
    ensures forall p | p in tree && q <= p :: p == q
  {
    NothingBelow(tree, q);
    AddLeafWellFormed(tree, q, e);
    InitialInv();
  }

  /** lock's loop over the prefixes of `path`, from the root down: each lock is asked
      for, shared or, at `path` itself, in the mode asked for; the walk ends at the first
      lock that is not granted or whose grant throws. */
  method WalkLocks(st: LockMap, v: View, path: Path, exclusive: bool, stores: seq<Storage>,
                   commands: map<Storage, Command>, replicas: Replicas) returns (w: Walk)
    requires Resolvable(v, path) && Stored(v) && Resolvable(st, path)
    requires StoresRegistered(stores, commands) && HoldersRegistered(replicas, commands)
    ensures w == LockFrom(st, v, path, exclusive, 0, stores, commands, replicas, {})
  {
    var cur, reps, calls, i := st, replicas, {}, 0;
    while true
      invariant i <= |path| && Resolvable(cur, path) && HoldersRegistered(reps, commands)
      invariant LockFrom(st, v, path, exclusive, 0, stores, commands, replicas, {})
             == LockFrom(cur, v, path, exclusive, i, stores, commands, reps, calls)
      decreases |path| - i
    {
      var q := Prefix(path, i);
      var (s, g) := Acquire(cur[q], FactsAt(v, path, i), exclusive && i == |path|, stores, commands, reps);
      cur := cur[q := s];
      if g.Waiting? {
        return (Blocked(q), cur, reps, calls);
      } else if g.Thrown? {
        return (Failed(g.error), cur, reps, calls);
      }
      reps, calls := g.replicas, calls + g.calls;
      if i == |path| {
        return (Locked, cur, reps, calls);
      }
      i := i + 1;
    }
  }

  /** One round of delete's loop for a storage whose command reference is `replica`:
      delete `path` at the primary and at the replica, in the order `primaryFirst` says,
      joined by a short-circuit and; a completed round removes `path`'s replica entry. */
  method DeleteRound(w: Sweep, replica: Command, primary: Option<Command>, primaryFirst: bool,
                     path: Path, oracle: Oracle, reps: Replicas)
    returns (w': Sweep, reps': Replicas)
    requires w.stop == Running
    ensures w' == Round(w, replica, primary, primaryFirst, path, oracle)
    ensures reps' == if w'.rounds > w.rounds then reps - {path} else reps
  {
    w', reps' := w, reps;
    var first := if primaryFirst then primary else Some(replica);
    var second := if primaryFirst then Some(replica) else primary;
    if first.None? {
      w' := w'.(stop := Crashed);
      return;
    }
    var o1 := oracle(|w'.calls|);
    w' := w'.(calls := w'.calls + [RemoteCall.Delete(first.value, path)]);
    if o1.NetworkFailure? {
      w' := w'.(stop := Aborted);
    } else if !o1.value {
      w' := w'.(success := false, rounds := w'.rounds + 1);
      reps' := reps' - {path};
    } else if second.None? {
      w' := w'.(stop := Crashed);
    } else {
      var o2 := oracle(|w'.calls|);
      w' := w'.(calls := w'.calls + [RemoteCall.Delete(second.value, path)]);
      if o2.NetworkFailure? {
        w' := w'.(stop := Aborted);
      } else {
        w' := w'.(success := o2.value, rounds := w'.rounds + 1);
        reps' := reps' - {path};
      }
    }
  }

  /** delete's loop has run its rounds over `order`, the storages of `targets` not in
      `rest`, and each completed round has removed `path`'s replica entry. */
  predicate Swept(targets: set<Storage>, rest: set<Storage>, order: seq<Storage>, commands: map<Storage, Command>,
                  primary: Option<Command>, primaryFirst: bool, path: Path, oracle: Oracle,
                  replicas: Replicas, w: Sweep, reps: Replicas)
  {
    && rest <= targets && IsEnumeration(order, targets - rest) && StoresRegistered(order, commands)
    && w == Rounds(Start, order, commands, primary, primaryFirst, path, oracle)
    && reps == if w.rounds > 0 then replicas - {path} else replicas
  }

  /** delete's rounds over the storages of `targets`, in the set iterator's order
      (`order`); each completed round removes `path`'s entry from the replica map. */
  method RunRounds(targets: set<Storage>, commands: map<Storage, Command>, primary: Option<Command>,
                   primaryFirst: bool, path: Path, oracle: Oracle, replicas: Replicas)
    returns (w: Sweep, reps: Replicas, ghost order: seq<Storage>)
    requires targets <= commands.Keys
    ensures IsEnumeration(order, targets) && StoresRegistered(order, commands)
    ensures w == Rounds(Start, order, commands, primary, primaryFirst, path, oracle)
    ensures reps == if w.rounds > 0 then replicas - {path} else replicas
  {
    w, reps, order := Start, replicas, [];
    var rest := targets;
    while rest != {} && w.stop == Running
      invariant Swept(targets, rest, order, commands, primary, primaryFirst, path, oracle, replicas, w, reps)
      decreases rest
    {
      var s :| s in rest;
      ghost var w0, reps0 := w, reps;
      w, reps := DeleteRound(w, commands[s], primary, primaryFirst, path, oracle, reps);
      SweptStep(targets, rest, order, commands, primary, primaryFirst, path, oracle, replicas, w0, reps0, s, w, reps);
      order := order + [s];
      rest := rest - {s};
    }
    order := SweptOrder(targets, rest, order, commands, primary, primaryFirst, path, oracle, replicas, w, reps);
  }

  /** One round of delete's loop keeps the loop's account of itself. */
  lemma SweptStep(targets: set<Storage>, rest: set<Storage>, order: seq<Storage>, commands: map<Storage, Command>,
                  primary: Option<Command>, primaryFirst: bool, path: Path, oracle: Oracle,
                  replicas: Replicas, w: Sweep, reps: Replicas, s: Storage, w': Sweep, reps': Replicas)
    requires Swept(targets, rest, order, commands, primary, primaryFirst, path, oracle, replicas, w, reps)
    requires targets <= commands.Keys && s in rest && w.stop == Running
    requires w' == Round(w, commands[s], primary, primaryFirst, path, oracle)
    requires reps' == if w'.rounds > w.rounds then reps - {path} else reps
    ensures Swept(targets, rest - {s}, order + [s], commands, primary, primaryFirst, path, oracle, replicas, w', reps')
  {
    RoundsAppend(Start, order, [s], commands, primary, primaryFirst, path, oracle);
  }

  /** When delete's loop has stopped, the storages it did not reach follow in some order
      of the set's iterator, and the rounds over the whole order are the rounds it ran. */
  lemma SweptOrder(targets: set<Storage>, rest: set<Storage>, order: seq<Storage>, commands: map<Storage, Command>,
                   primary: Option<Command>, primaryFirst: bool, path: Path, oracle: Oracle,
                   replicas: Replicas, w: Sweep, reps: Replicas)
    returns (whole: seq<Storage>)
    requires Swept(targets, rest, order, commands, primary, primaryFirst, path, oracle, replicas, w, reps)
    requires targets <= commands.Keys && (rest == {} || w.stop != Running)
    ensures IsEnumeration(whole, targets) && StoresRegistered(whole, commands)
    ensures w == Rounds(Start, whole, commands, primary, primaryFirst, path, oracle)
  {
    whole := order;
    if rest != {} {
      EnumerationExists(rest);
      var tail :| IsEnumeration(tail, rest);
      assert StoresRegistered(order + tail, commands);
      RoundsAppend(Start, order, tail, commands, primary, primaryFirst, path, oracle);
      whole := order + tail;
    }
  }

  /** unlock's loop over the prefixes of `path`, from the root down: each lock is
      released, the last one in the mode given and the others shared. */
  method ReleasePath(st: LockMap, path: Path, exclusive: bool) returns (r: LockMap)
    requires Resolvable(st, path)
    ensures r == Released(st, path, exclusive, |path| + 1)
  {
    r := st;
    var i := 0;
    while i <= |path|
      invariant i <= |path| + 1 && r == Released(st, path, exclusive, i)
    {
      var q := Prefix(path, i);
      ReleasedStep(st, path, exclusive, i);
      r := r[q := Release(r[q], exclusive && i == |path|)];
      i := i + 1;
    }
  }

  /** Releasing the locks on a path keeps the arena sound. */
  lemma ReleasedArena(tree: View, locks: LockMap, lists: map<Path, seq<Path>>, path: Path, exclusive: bool)
    requires Arena(tree, locks, lists)
    ensures Arena(tree, Released(locks, path, exclusive, |path| + 1), lists)
  {
    var r := Released(locks, path, exclusive, |path| + 1);
    forall q | q in r ensures Inv(r[q]) {
      StepKeepsInv(locks[q], if exclusive && q == path then DropExclusive else DropShared);
    }
  }

  /** Cutting a non-root node off keeps the arena sound. */
  lemma PruneArena(tree: View, locks: LockMap, lists: map<Path, seq<Path>>, p: Path)
    requires Arena(tree, locks, lists) && p != Root
    ensures Arena(Prune(tree, p), Prune(locks, p), Prune(lists, p))
  {
    PruneWellFormed(tree, p);
  }

  /** The lists after deleting a directory: its list as delete left it, or nothing at or
      below it once it is cut off. */
  lemma ListsAfterDirectory(lists: map<Path, seq<Path>>, v: View, path: Path, listed: seq<Path>,
                            d: Deletion, after: map<Path, seq<Path>>)
    requires path != Root && path in v && d.listed == listed
    requires after == if path in d.view then lists[path := listed] else Prune(lists[path := listed], path)
    ensures after == ListsAfter(lists, v, path, d)
  {
    if path !in d.view {
      assert Prune(lists[path := listed], path) == Prune(lists, path);
    }
  }

  /** The list a node's getFilesUnder has appended to so far. */
  function Prior(lists: map<Path, seq<Path>>, path: Path): seq<Path> {
    if path in lists then lists[path] else []
  }

  /** The lists after delete: unchanged when nothing was found, cut off with the node, and
      otherwise the directory's list as delete left it. */
  function ListsAfter(lists: map<Path, seq<Path>>, v: View, path: Path, d: Deletion): map<Path, seq<Path>> {
    if path == Root || path !in v then lists
    else if path !in d.view then Prune(lists, path)
    else lists[path := d.listed]
  }

  class NamingServer {
    /** The tree: each node's entry, by path. */
    var tree: View
    /** The state of each node's lock, by path. */
    var locks: LockMap
    /** The list each directory node's getFilesUnder appends to, once it is not empty. */
    var lists: map<Path, seq<Path>>
    /** storecommandMap: each registered storage's command reference. */
    var storecommandMap: map<Storage, Command>
    /** The storages holding a replica of each replicated file. */
    var replicas: Replicas
    /** Stores: the registered storages in registration order. */
    var stores: seq<Storage>

    /** The server invariant: the arena is sound; the registered storages are listed
        once each in `stores`, and every replica holder is registered. */
    predicate Valid()
      reads this
    {
      Arena(tree, locks, lists) && Registry(stores, storecommandMap, replicas)
    }

    constructor()
      ensures Valid()
      ensures tree == Empty && locks == map[Root := Initial] && lists == map[]
      ensures storecommandMap == map[] && replicas == map[] && stores == []
    {
      EmptyWellFormed();
      InitialInv();
      tree := Empty;
      locks := map[Root := Initial];
      lists := map[];
      storecommandMap := map[];
      replicas := map[];
      stores := [];
    }

    /** root.getPathNode(path): follow the components of `path` from the root; NotFound
        at the first one the current directory has no child for. */
    method Resolve(path: Path) returns (r: Result<Entry>)
      requires WellFormed(tree)
      ensures path in tree ==> r == Success(tree[path])
      ensures path !in tree ==> r == Failure(NotFound)
    {
      var i := 0;
      PrefixEnds(path);
      while i < |path|
        invariant i <= |path| && Prefix(path, i) in tree
        decreases |path| - i
      {
        if Prefix(path, i + 1) !in tree {
          if path in tree {
            PrefixDirectory(tree, path, i + 1);
          }
          return Failure(NotFound);
        }
        i := i + 1;
      }
      return Success(tree[path]);
    }

    /** isDirectory: the negation of the node's isFile; NotFound for a missing path. */
    method IsDirectory(path: Path) returns (r: Result<bool>)
      requires Valid()
      ensures path in tree ==> r == Success(!tree[path].isFile)
      ensures path !in tree ==> r == Failure(NotFound)
    {
      var n := Resolve(path);
      if n.Failure? {
        return Failure(NotFound);
      }
      return Success(!n.value.isFile);
    }

    /** list: the names of a directory's children, each once, in the map's order;
        NotFound for a missing path or a file. */
    method List(directory: Path) returns (r: Result<seq<string>>)
      requires Valid()
      ensures r.Success? <==> directory in tree && !tree[directory].isFile
      ensures r.Failure? ==> r.error == NotFound
      ensures r.Success? ==> IsEnumeration(r.value, ChildNames(tree, directory))
    {
      var n := Resolve(directory);
      if n.Failure? || n.value.isFile {
        return Failure(NotFound);
      }
      var contents := Enumerate(ChildNames(tree, directory));
      return Success(contents);
    }

    /** getStorage: a file's storage; NotFound for a missing path or a directory. */
    method GetStorage(file: Path) returns (r: Result<Storage>)
      requires Valid()
      ensures r.Success? <==> file in tree && tree[file].isFile
      ensures r.Success? ==> tree[file].stub == Some(r.value)
      ensures r.Failure? ==> r.error == NotFound
    {
      var n := Resolve(file);
      if n.Failure? || !n.value.isFile {
        return Failure(NotFound);
      }
      return Success(n.value.stub.value);
    }

    /** Links a new node with the entry `e` under the directory one component up from
        `q`, where nothing stood or replacing a file with a directory; the node gets a
        lock of its own. */
    method Put(q: Path, e: Entry)
      requires Arena(tree, locks, lists) && q != Root && Up(q) in tree && !tree[Up(q)].isFile
      requires q !in tree || (tree[q].isFile && !e.isFile)
      requires e.isFile ==> e.stub.Some?
      modifies this`tree, this`locks
      ensures Arena(tree, locks, lists)
      ensures tree == old(tree)[q := e] && locks == old(locks)[q := Initial]
      ensures Follows(old(tree), old(locks), tree, locks)
      ensures forall p | p in tree && q <= p :: p == q
    {
      PutArena(tree, locks, lists, q, e);
      tree, locks := tree[q := e], locks[q := Initial];
    }

    /** The shared body of insertNode and createDirectory: false for the root; NotFound
        unless the parent is a directory; false for a name already taken; otherwise one
        new node, with a lock of its own. */
    method InsertUnder(p: Path, e: Entry) returns (r: Result<bool>)
      requires Valid() && (e.isFile ==> e.stub.Some?)
      modifies this`tree, this`locks
      ensures Valid() && lists == old(lists)
      ensures (r, tree) == Insert(old(tree), p, e)
      ensures LocksFollow(old(tree), old(locks), tree, locks)
    {
      if IsRoot(p) {
        return Success(false);
      }
      var parent := Resolve(Up(p));
      if parent.Failure? || parent.value.isFile {
        return Failure(NotFound);
      }
      if p in tree {
        return Success(false);
      }
      Put(p, e);
      return Success(true);
    }

    /** insertNode: a new file on storage `s`. */
    method InsertNode(s: Storage, p: Path) returns (r: Result<bool>)
      requires Valid()
      modifies this`tree, this`locks
      ensures Valid() && lists == old(lists)
      ensures (r, tree) == Insert(old(tree), p, Entry(true, Some(s)))
      ensures LocksFollow(old(tree), old(locks), tree, locks)
    {
      r := InsertUnder(p, Entry(true, Some(s)));
    }

    /** createDirectory: a new directory without a storage. */
    method CreateDirectory(directory: Path) returns (r: Result<bool>)
      requires Valid()
      modifies this`tree, this`locks
      ensures Valid() && lists == old(lists)
      ensures (r, tree) == Insert(old(tree), directory, Entry(false, None))
      ensures LocksFollow(old(tree), old(locks), tree, locks)
    {
      r := InsertUnder(directory, Entry(false, None));
    }

    /** createFile: false when no storage is registered; otherwise the file is inserted
        on the storage the key iterator yields first (`chosen`) and, if that inserted it,
        the storage is told to create it; a network failure there makes the result false
        but leaves the file in the tree. */
    method CreateFile(file: Path, o: Outcome) returns (r: Result<bool>, calls: seq<RemoteCall>, ghost chosen: Storage)
      requires Valid()
      modifies this`tree, this`locks
      ensures Valid() && lists == old(lists)
      ensures storecommandMap != map[] ==> chosen in storecommandMap
      ensures (r, tree, calls) == CreateFileSpec(old(tree), storecommandMap, chosen, file, o)
      ensures LocksFollow(old(tree), old(locks), tree, locks)
    {
      chosen, r, calls := Storage(0), Success(false), [];
      if storecommandMap != map[] {
        var nextstore :| nextstore in storecommandMap;
        chosen := nextstore;
        r := InsertNode(nextstore, file);
        if r == Success(true) {
          calls := [Create(storecommandMap[nextstore], file)];
          r := Success(o.Returned?);
        }
      }
    }

    /** addToTree's walk down the directories on `p`'s path: `i` components lead through
        directories, and the next one, if any, is missing or a file. */
    method Descend(p: Path) returns (i: nat)
      ensures i <= |p| && DirsUpTo(tree, p, i)
      ensures i < |p| ==> Prefix(p, i + 1) !in tree || tree[Prefix(p, i + 1)].isFile
    {
      i := 0;
      while i < |p| && Prefix(p, i + 1) in tree && !tree[Prefix(p, i + 1)].isFile
        invariant i <= |p| && DirsUpTo(tree, p, i)
        decreases |p| - i
      {
        DirsExtend(tree, p, i);
        i := i + 1;
      }
    }

    /** One step of addToTree's inner loop: a new directory on `s` at the next prefix of
        `p`, replacing a file if one stood there; the prefix after it is then free. */
    method MakeDirectory(p: Path, s: Storage, j: nat)
      requires Arena(tree, locks, lists) && j + 1 < |p| && Frontier(tree, p, j)
      modifies this`tree, this`locks
      ensures Arena(tree, locks, lists) && Frontier(tree, p, j + 1)
      ensures Fill(old(tree), p, s, j) == Fill(tree, p, s, j + 1)
      ensures Follows(old(tree), old(locks), tree, locks)
    {
      PrefixStep(p, j);
      FillStep(tree, p, s, j);
      var q := Prefix(p, j + 1);
      Put(q, Entry(false, Some(s)));
      PrefixStep(p, j + 1);
      assert q <= Prefix(p, j + 2);
    }

    /** addToTree's inner loop from the first component `j0` that is missing or a file:
        every prefix before the last becomes a new directory on `s`, the first one
        replacing a file that stood there; it stops at the last component. */
    method MakeDirectories(p: Path, s: Storage, j0: nat) returns (j: nat)
      requires Arena(tree, locks, lists) && Frontier(tree, p, j0)
      modifies this`tree, this`locks
      ensures Arena(tree, locks, lists) && j + 1 == |p| && Frontier(tree, p, j)
      ensures Fill(old(tree), p, s, j0) == Fill(tree, p, s, j)
      ensures Follows(old(tree), old(locks), tree, locks)
    {
      j := j0;
      while j + 1 < |p|
        invariant Filled(old(tree), old(locks), tree, locks, lists, p, s, j0, j)
        decreases |p| - j
      {
        ghost var t1, l1 := tree, locks;
        MakeDirectory(p, s, j);
        FollowTrans(old(tree), old(locks), t1, l1, tree, locks);
        j := j + 1;
      }
    }

    /** addToTree from the first component `j0` that is missing or a file: the
        directories it needs, then the file itself if its slot is empty. */
    method FillFrom(p: Path, s: Storage, j0: nat) returns (added: bool)
      requires Arena(tree, locks, lists) && Frontier(tree, p, j0)
      modifies this`tree, this`locks
      ensures Arena(tree, locks, lists)
      ensures (added, tree) == Fill(old(tree), p, s, j0)
      ensures Follows(old(tree), old(locks), tree, locks)
    {
      var j := MakeDirectories(p, s, j0);
      PrefixStep(p, j);
      PrefixEnds(p);
      if p !in tree {
        ghost var t1, l1 := tree, locks;
        Put(p, Entry(true, Some(s)));
        FollowTrans(old(tree), old(locks), t1, l1, tree, locks);
        added := true;
      } else {
        added := false;
      }
    }

    /** addToTree: adds the file `p` on storage `s` with any directories it needs (they
        are made on `s` too); false, with nothing changed, when `p` is already there. */
    method AddToTree(s: Storage, p: Path) returns (added: bool)
      requires Arena(tree, locks, lists)
      modifies this`tree, this`locks
      ensures Arena(tree, locks, lists)
      ensures (added, tree) == AddTree(old(tree), p, s)
      ensures Follows(old(tree), old(locks), tree, locks)
    {
      var i := Descend(p);
      AddWalkSkips(tree, p, s, 0, i);
      if i < |p| {
        PrefixStep(p, i);
        added := FillFrom(p, s, i);
      } else {
        PrefixEnds(p);
        added := false;
      }
    }

    /** One pass of register's loop: a non-root file goes through addToTree and is a
        duplicate when that reports false; the root is skipped. */
    method OfferFile(s: Storage, p: Path) returns (duplicate: seq<Path>)
      requires Arena(tree, locks, lists)
      modifies this`tree, this`locks
      ensures Arena(tree, locks, lists)
      ensures (duplicate, tree) == Offer(old(tree), s, p)
      ensures Follows(old(tree), old(locks), tree, locks)
    {
      duplicate := [];
      if !IsRoot(p) {
        var added := AddToTree(s, p);
        if !added {
          duplicate := [p];
        }
      }
    }

    /** register's loop over the offered files, in order. */
    method AddAll(s: Storage, files: seq<Path>) returns (duplicates: seq<Path>)
      requires Arena(tree, locks, lists)
      modifies this`tree, this`locks
      ensures Arena(tree, locks, lists)
      ensures (duplicates, tree) == RegisterFiles(old(tree), s, files)
      ensures Follows(old(tree), old(locks), tree, locks)
    {
      duplicates := [];
      var i := 0;
      ConcatAssoc([], [], RegisterFiles(tree, s, files).0);
      assert files[i..] == files;
      while i < |files|
        invariant Registering(old(tree), old(locks), tree, locks, lists, s, files, duplicates, i)
      {
        ghost var d0, t1, l1 := duplicates, tree, locks;
        var duplicate := OfferFile(s, files[i]);
        FollowTrans(old(tree), old(locks), t1, l1, tree, locks);
        RegisterStep(t1, s, files, i);
        ghost var rest := RegisterFiles(tree, s, files[i + 1..]).0;
        ConcatAssoc(d0, duplicate, rest);
        duplicates := duplicates + duplicate;
        i := i + 1;
      }
      ConcatAssoc(duplicates, [], []);
      assert files[i..] == [];
    }

    /** register past its check: the storage's files are added to the tree, the paths
        that were there already are returned, and the storage is enrolled. (The source
        records the command reference before the loop; the loop does not read it.) */
    method Admit(client: Storage, command: Command, files: seq<Path>) returns (duplicates: seq<Path>)
      requires Valid() && client !in storecommandMap
      modifies this`tree, this`locks, this`storecommandMap, this`stores
      ensures Valid()
      ensures storecommandMap == old(storecommandMap)[client := command] && stores == old(stores) + [client]
      ensures (duplicates, tree) == RegisterFiles(old(tree), client, files)
      ensures Follows(old(tree), old(locks), tree, locks)
    {
      duplicates := AddAll(client, files);
      Enroll(client, command);
    }

    /** register's bookkeeping: the storage is recorded with its command reference and,
        not yet being in the storage list, joins its end. */
    method Enroll(client: Storage, command: Command)
      requires Registry(stores, storecommandMap, replicas) && client !in storecommandMap
      modifies this`storecommandMap, this`stores
      ensures Registry(stores, storecommandMap, replicas)
      ensures storecommandMap == old(storecommandMap)[client := command] && stores == old(stores) + [client]
    {
      RegistryJoin(stores, storecommandMap, replicas, client, command);
      storecommandMap := storecommandMap[client := command];
      if client !in stores {
        stores := stores + [client];
      }
    }

    /** register: IllegalState for a storage already registered, with nothing changed;
        otherwise the storage is admitted and the duplicate paths are returned. */
    method Register(client: Storage, command: Command, files: seq<Path>) returns (r: Result<seq<Path>>)
      requires Valid()
      modifies this`tree, this`locks, this`storecommandMap, this`stores
      ensures Valid()
      ensures client in old(storecommandMap) ==>
                && r == Failure(IllegalState) && tree == old(tree) && locks == old(locks)
                && storecommandMap == old(storecommandMap) && stores == old(stores)
      ensures client !in old(storecommandMap) ==>
                && storecommandMap == old(storecommandMap)[client := command]
                && stores == old(stores) + [client]
                && r.Success? && (r.value, tree) == RegisterFiles(old(tree), client, files)
                && Follows(old(tree), old(locks), tree, locks)
    {
      if client in storecommandMap {
        return Failure(IllegalState);
      }
      var duplicates := Admit(client, command, files);
      return Success(duplicates);
    }

    // -------------------------------------------------------------------------
    // delete

    /** delete's loop over the replica map's keys: the replicated paths at or below
        `path`, in the iterator's order. */
    method ReplicatedBelow(path: Path) returns (below: seq<Path>)
      ensures IsEnumeration(below, set q | q in replicas && IsSubpath(q, path))
    {
      var rest := replicas.Keys;
      below := [];
      while rest != {}
        invariant rest <= replicas.Keys
        invariant forall i, j | 0 <= i < j < |below| :: below[i] != below[j]
        invariant forall i | 0 <= i < |below| :: below[i] in replicas && IsSubpath(below[i], path) && below[i] !in rest
        invariant forall q | q in replicas && IsSubpath(q, path) && q !in rest :: q in below
        decreases rest
      {
        var q :| q in rest;
        if IsSubpath(q, path) {
          below := below + [q];
        }
        rest := rest - {q};
      }
    }

    /** delete's loop gathering the replica holders of the listed paths: a path without a
        replica entry makes the lookup null. */
    method Gather(listed: seq<Path>) returns (r: Result<set<Storage>>)
      ensures r.Failure? <==> exists i | 0 <= i < |listed| :: listed[i] !in replicas
      ensures r.Failure? ==> r.error == NullPointer
      ensures r.Success? ==> r.value == Union(replicas, listed)
    {
      var holders: set<Storage> := {};
      var k := 0;
      while k < |listed|
        invariant k <= |listed| && holders == Union(replicas, listed[..k])
        invariant forall i | 0 <= i < k :: listed[i] in replicas
      {
        if listed[k] !in replicas {
          return Failure(NullPointer);
        }
        assert listed[..k + 1][..k] == listed[..k];
        holders := holders + replicas[listed[k]];
        k := k + 1;
      }
      assert listed[..k] == listed;
      return Success(holders);
    }

    /** delete's rounds over the storages of `targets` on the replica map. */
    method DeleteRounds(targets: set<Storage>, primary: Option<Command>, primaryFirst: bool,
                        path: Path, oracle: Oracle)
      returns (w: Sweep, ghost order: seq<Storage>)
      requires targets <= storecommandMap.Keys
      modifies this`replicas
      ensures IsEnumeration(order, targets) && StoresRegistered(order, storecommandMap)
      ensures w == Rounds(Start, order, storecommandMap, primary, primaryFirst, path, oracle)
      ensures replicas == if w.rounds > 0 then old(replicas) - {path} else old(replicas)
    {
      w, replicas, order := RunRounds(targets, storecommandMap, primary, primaryFirst, path, oracle, replicas);
    }

    /** Cuts the node at `path` off its parent, with everything below it. */
    method Unlink(path: Path)
      requires Valid() && path != Root
      modifies this`tree, this`locks, this`lists
      ensures Valid()
      ensures tree == Prune(old(tree), path) && locks == Prune(old(locks), path)
      ensures lists == Prune(old(lists), path)
    {
      PruneArena(tree, locks, lists, path);
      tree, locks, lists := Prune(tree, path), Prune(locks, path), Prune(lists, path);
    }

    /** delete's listing of a directory: the node's getFilesUnder list (the node's path
        once per node of its subtree, appended to what the node listed before), followed
        by the replicated paths at or below it in the replica map's key order. */
    method ListUnder(path: Path) returns (listed: seq<Path>, ghost keyOrder: seq<Path>)
      requires Valid() && path in tree && !tree[path].isFile
      modifies this`lists
      ensures Valid()
      ensures IsEnumeration(keyOrder, set q | q in replicas && IsSubpath(q, path))
      ensures listed == Listed(tree, path, Prior(old(lists), path), keyOrder)
      ensures lists == old(lists)[path := listed]
    {
      var below := ReplicatedBelow(path);
      keyOrder := below;
      listed := Prior(lists, path) + Repeat(path, |Subtree(tree, path)|) + below;
      lists := lists[path := listed];
    }

    /** delete of a directory past its listing: the rounds over the storages holding
        replicas when any file has one, a single delete at the primary otherwise; the node
        is cut off when the deletes came back. */
    method SweepDirectory(path: Path, listed: seq<Path>, oracle: Oracle)
      returns (r: Result<bool>, calls: seq<RemoteCall>, ghost order: seq<Storage>)
      requires Valid() && path != Root && path in tree && !tree[path].isFile
      modifies this`tree, this`locks, this`lists, this`replicas
      ensures Valid()
      ensures IsEnumeration(order, if old(replicas) == map[] then {} else Union(old(replicas), listed))
      ensures StoresRegistered(order, storecommandMap)
      ensures var d := DirectoryDeletion(old(tree), old(replicas), storecommandMap, path, listed, order, oracle);
              && r == d.r && tree == d.view && replicas == d.replicas && calls == d.calls
      ensures lists == if path in tree then old(lists) else Prune(old(lists), path)
      ensures forall q | q in tree :: q in old(tree) && locks[q] == old(locks)[q]
    {
      if replicas != map[] {
        r, calls, order := SweepHolders(path, listed, oracle);
      } else {
        r, calls := DeleteDirectoryAtPrimary(path, oracle);
        order := [];
      }
    }

    /** delete of a directory while some file has replicas: NullPointer when a listed path
        has no replica entry; otherwise the rounds over the union of the listed paths'
        holders, each deleting at the primary, then at the holder. */
    method SweepHolders(path: Path, listed: seq<Path>, oracle: Oracle)
      returns (r: Result<bool>, calls: seq<RemoteCall>, ghost order: seq<Storage>)
      requires Valid() && path != Root && path in tree && !tree[path].isFile && replicas != map[]
      modifies this`tree, this`locks, this`lists, this`replicas
      ensures Valid()
      ensures IsEnumeration(order, if old(replicas) == map[] then {} else Union(old(replicas), listed))
      ensures StoresRegistered(order, storecommandMap)
      ensures var d := DirectoryDeletion(old(tree), old(replicas), storecommandMap, path, listed, order, oracle);
              && r == d.r && tree == d.view && replicas == d.replicas && calls == d.calls
      ensures lists == if path in tree then old(lists) else Prune(old(lists), path)
      ensures forall q | q in tree :: q in old(tree) && locks[q] == old(locks)[q]
    {
      var primary := PrimaryOf(tree[path].stub, storecommandMap);
      calls := [];
      UnionRegistered(replicas, storecommandMap, listed);
      var holders := Gather(listed);
      if holders.Failure? {
        EnumerationExists(Union(replicas, listed));
        order :| IsEnumeration(order, Union(replicas, listed));
        return Failure(NullPointer), calls, order;
      }
      r, calls, order := RoundsThenCut(path, holders.value, primary, listed, oracle);
    }

    /** delete's rounds over the holders of a directory's replicas, each deleting at the
        primary first; the node is cut off when the loop ran to its end. */
    method RoundsThenCut(path: Path, targets: set<Storage>, primary: Option<Command>, listed: seq<Path>, oracle: Oracle)
      returns (r: Result<bool>, calls: seq<RemoteCall>, ghost order: seq<Storage>)
      requires Valid() && path != Root && path in tree && targets <= storecommandMap.Keys
      modifies this`tree, this`locks, this`lists, this`replicas
      ensures Valid()
      ensures IsEnumeration(order, targets) && StoresRegistered(order, storecommandMap)
      ensures var d := Finish(Rounds(Start, order, storecommandMap, primary, true, path, oracle),
                              old(tree), Prune(old(tree), path), old(replicas), path, listed);
              && r == d.r && tree == d.view && replicas == d.replicas && calls == d.calls
      ensures lists == if path in tree then old(lists) else Prune(old(lists), path)
      ensures forall q | q in tree :: q in old(tree) && locks[q] == old(locks)[q]
    {
      var w;
      w, order := DeleteRounds(targets, primary, true, path, oracle);
      calls := w.calls;
      if w.stop == Running {
        Unlink(path);
        r := Success(w.success);
      } else if w.stop == Aborted {
        r := Success(false);
      } else {
        r := Failure(NullPointer);
      }
    }

    /** delete of a directory while no file has replicas: a single delete at the primary,
        after which the node is cut off unless the call failed on the network. */
    method DeleteDirectoryAtPrimary(path: Path, oracle: Oracle) returns (r: Result<bool>, calls: seq<RemoteCall>)
      requires Valid() && path != Root && path in tree && !tree[path].isFile && replicas == map[]
      modifies this`tree, this`locks, this`lists
      ensures Valid() && replicas == old(replicas)
      ensures var d := DirectoryDeletion(old(tree), old(replicas), storecommandMap, path, [], [], oracle);
              && r == d.r && tree == d.view && calls == d.calls
      ensures lists == if path in tree then old(lists) else Prune(old(lists), path)
      ensures forall q | q in tree :: q in old(tree) && locks[q] == old(locks)[q]
    {
      var primary := PrimaryOf(tree[path].stub, storecommandMap);
      calls := [];
      if primary.None? {
        r := Failure(NullPointer);
      } else {
        var o := oracle(0);
        calls := [RemoteCall.Delete(primary.value, path)];
        if o.NetworkFailure? {
          r := Success(false);
        } else {
          Unlink(path);
          r := Success(o.value);
        }
      }
    }

    /** delete of a directory: its listing, then its sweep. */
    method RemoveDirectory(path: Path, oracle: Oracle)
      returns (r: Result<bool>, calls: seq<RemoteCall>, ghost keyOrder: seq<Path>, ghost order: seq<Storage>)
      requires Valid() && path != Root && path in tree && !tree[path].isFile
      modifies this`tree, this`locks, this`lists, this`replicas
      ensures Valid()
      ensures IsEnumeration(keyOrder, set q | q in old(replicas) && IsSubpath(q, path))
      ensures IsEnumeration(order, Targets(old(tree), old(replicas), path, Prior(old(lists), path), keyOrder))
      ensures StoresRegistered(order, storecommandMap)
      ensures var d := DeleteSpec(old(tree), old(replicas), storecommandMap, path, Prior(old(lists), path),
                                  keyOrder, order, oracle);
              && r == d.r && tree == d.view && replicas == d.replicas && calls == d.calls
              && lists == ListsAfter(old(lists), old(tree), path, d)
      ensures forall q | q in tree :: q in old(tree) && locks[q] == old(locks)[q]
    {
      var listed;
      listed, keyOrder := ListUnder(path);
      r, calls, order := SweepDirectory(path, listed, oracle);
      ghost var d := DirectoryDeletion(old(tree), old(replicas), storecommandMap, path, listed, order, oracle);
      ListsAfterDirectory(old(lists), old(tree), path, listed, d, lists);
    }

    /** delete of a file: the node is cut off first; then either the rounds over the
        file's replica holders (each deleting at the holder, then at the primary), or with
        no replica anywhere a single delete at the primary. */
    method RemoveFile(path: Path, oracle: Oracle)
      returns (r: Result<bool>, calls: seq<RemoteCall>, ghost order: seq<Storage>)
      requires Valid() && path != Root && path in tree && tree[path].isFile
      modifies this`tree, this`locks, this`lists, this`replicas
      ensures Valid()
      ensures IsEnumeration(order, Targets(old(tree), old(replicas), path, Prior(old(lists), path), []))
      ensures StoresRegistered(order, storecommandMap)
      ensures var d := DeleteSpec(old(tree), old(replicas), storecommandMap, path, Prior(old(lists), path),
                                  [], order, oracle);
              && r == d.r && tree == d.view && replicas == d.replicas && calls == d.calls
              && lists == ListsAfter(old(lists), old(tree), path, d)
      ensures forall q | q in tree :: q in old(tree) && locks[q] == old(locks)[q]
    {
      var primary := PrimaryOf(tree[path].stub, storecommandMap);
      order, calls := [], [];
      Unlink(path);
      if replicas != map[] {
        if path !in replicas {
          return Failure(NullPointer), calls, order;
        }
        if replicas[path] == {} {
          return Success(true), calls, order;
        }
        var w;
        w, order := DeleteRounds(replicas[path], primary, false, path, oracle);
        calls := w.calls;
        if w.stop == Running {
          r := Success(w.success);
        } else if w.stop == Aborted {
          r := Success(false);
        } else {
          r := Failure(NullPointer);
        }
      } else if primary.None? {
        r := Failure(NullPointer);
      } else {
        var o := oracle(0);
        calls := [RemoteCall.Delete(primary.value, path)];
        r := if o.NetworkFailure? then Success(false) else Success(o.value);
      }
    }

    /** delete: false for the root; NotFound for a path whose parent or node is missing;
        otherwise the directory or file case. `keyOrder` and `order` are the orders in
        which the replica map's keys and the set of storages to delete from are iterated. */
    method Delete(path: Path, oracle: Oracle)
      returns (r: Result<bool>, calls: seq<RemoteCall>, ghost keyOrder: seq<Path>, ghost order: seq<Storage>)
      requires Valid()
      modifies this`tree, this`locks, this`lists, this`replicas
      ensures Valid()
      ensures path != Root && path in old(tree) && !old(tree)[path].isFile ==>
                IsEnumeration(keyOrder, set q | q in old(replicas) && IsSubpath(q, path))
      ensures IsEnumeration(order, Targets(old(tree), old(replicas), path, Prior(old(lists), path), keyOrder))
      ensures StoresRegistered(order, storecommandMap)
      ensures var d := DeleteSpec(old(tree), old(replicas), storecommandMap, path, Prior(old(lists), path),
                                  keyOrder, order, oracle);
              && r == d.r && tree == d.view && replicas == d.replicas && calls == d.calls
              && lists == ListsAfter(old(lists), old(tree), path, d)
      ensures forall q | q in tree :: q in old(tree) && locks[q] == old(locks)[q]
    {
      keyOrder, order, calls := [], [], [];
      if IsRoot(path) {
        return Success(false), calls, keyOrder, order;
      }
      var parent := Resolve(Up(path));
      if parent.Failure? {
        return Failure(NotFound), calls, keyOrder, order;
      }
      var node := Resolve(path);
      if node.Failure? {
        return Failure(NotFound), calls, keyOrder, order;
      }
      if node.value.isFile {
        r, calls, order := RemoveFile(path, oracle);
      } else {
        r, calls, keyOrder, order := RemoveDirectory(path, oracle);
      }
    }

    // -------------------------------------------------------------------------
    // lock and unlock

    /** lock: NotFound for a missing path; otherwise the walk from the root to `path`,
        taking each lock shared and the last one in the mode asked for. */
    method Lock(path: Path, exclusive: bool) returns (r: Locking, calls: set<RemoteCall>)
      requires Valid()
      modifies this`locks, this`replicas
      ensures Valid()
      ensures path !in tree ==> r == Failed(NotFound) && locks == old(locks) && replicas == old(replicas) && calls == {}
      ensures path in tree ==>
                && Resolvable(tree, path) && Resolvable(old(locks), path)
                && (r, locks, replicas, calls) == LockFrom(old(locks), tree, path, exclusive, 0, stores, storecommandMap, old(replicas), {})
    {
      var node := Resolve(path);
      if node.Failure? {
        return Failed(NotFound), {};
      }
      InTreeResolvable(tree, path);
      var w := WalkLocks(locks, tree, path, exclusive, stores, storecommandMap, replicas);
      LockFromKeys(locks, tree, path, exclusive, 0, stores, storecommandMap, replicas, {}, w);
      LockFromKeepsInv(locks, tree, path, exclusive, 0, stores, storecommandMap, replicas, {}, w);
      r, locks, replicas, calls := w.0, w.1, w.2, w.3;
    }

    /** unlock: InvalidArgument for a missing path; otherwise every lock from the root to
        `path` is released, the last one in the mode given, the others shared. */
    method Unlock(path: Path, exclusive: bool) returns (r: Result<()>)
      requires Valid()
      modifies this`locks
      ensures Valid()
      ensures path !in tree ==> r == Failure(InvalidArgument) && locks == old(locks)
      ensures path in tree ==> r == Success(()) && locks == Released(old(locks), path, exclusive, |path| + 1)
    {
      var node := Resolve(path);
      if node.Failure? {
        return Failure(InvalidArgument);
      }
      InTreeResolvable(tree, path);
      ReleasedArena(tree, locks, lists, path, exclusive);
      locks := ReleasePath(locks, path, exclusive);
      return Success(());
    }
  }
}
