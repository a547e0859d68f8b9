/** The directory tree as the naming server's clients see it — every path it holds, and
    for each whether it is a file and which storage server holds a file's primary copy —
    and the naming server's operations stated on that view. The server of module Naming
    is proved to act on its tree exactly as these functions say. */
module Directory {
  import opened Wrappers
  import opened Paths
  import opened Remote
  import opened Locks

  /** What the tree records of one path: file or directory, and the node's storage. */
  datatype Entry = Entry(isFile: bool, stub: Option<Storage>)

  type View = map<Path, Entry>

  /** The tree of a fresh naming server: the root directory alone. */
  const Empty: View := map[Root := Entry(false, None)]

  /** A view is a tree: it holds the root directory, and every other path hangs from a
      directory one component up. */
  predicate WellFormed(v: View) {
    && Root in v && !v[Root].isFile
    && (forall q {:trigger Up(q)} | q in v && q != Root :: Up(q) in v && !v[Up(q)].isFile)
  }

  /** Every file of the tree has the storage holding its primary copy. */
  predicate Stored(v: View) {
    forall q | q in v && v[q].isFile :: v[q].stub.Some?
  }

  /** The names listed in directory `p`. */
  function ChildNames(v: View, p: Path): set<string> {
    set q | q in v && q != Root && Up(q) == p :: q[|q| - 1]
  }

  lemma EmptyWellFormed()
    ensures WellFormed(Empty) && ChildNames(Empty, Root) == {}
  {
  }

  /** Every prefix of a path in the tree is a directory of the tree. */
  lemma {:induction false} PrefixDirectory(v: View, q: Path, i: nat)
    requires WellFormed(v) && q in v && i < |q|
    ensures Prefix(q, i) in v && !v[Prefix(q, i)].isFile
    decreases |q|
  {
    var u := Up(q);
    if i == |u| {
      assert Prefix(q, i) == u;
    } else {
      assert Prefix(u, i) == Prefix(q, i);
      PrefixDirectory(v, u, i);
    }
  }

  /** Below a file, or below a path the tree lacks, the tree holds nothing. */
  lemma NothingBelow(v: View, p: Path)
    requires WellFormed(v) && (p !in v || v[p].isFile)
    ensures forall q | q in v && p <= q :: q == p
  {
    forall q | q in v && p <= q ensures q == p {
      if |p| < |q| {
        assert Prefix(q, |p|) == p;
        PrefixDirectory(v, q, |p|);
      }
    }
  }

  // ---------------------------------------------------------------------------
  // insertNode / createDirectory

  /** Adding the entry `e` at `p`: the root cannot be created; the parent must be a
      directory of the tree; an existing entry is left alone. */
  function Insert(v: View, p: Path, e: Entry): (Result<bool>, View) {
    if p == Root then (Success(false), v)
    else if Up(p) !in v || v[Up(p)].isFile then (Failure(NotFound), v)
    else if p in v then (Success(false), v)
    else (Success(true), v[p := e])
  }

  lemma InsertProperties(v: View, p: Path, e: Entry)
    requires WellFormed(v)
    ensures var (r, v') := Insert(v, p, e);
            && WellFormed(v')
            && (r == Success(true) <==> p != Root && Up(p) in v && !v[Up(p)].isFile && p !in v)
            && (r == Failure(NotFound) <==> p != Root && (Up(p) !in v || v[Up(p)].isFile))
            && (r == Success(true) ==> v' == v[p := e])
            && (r != Success(true) ==> v' == v)
            && (r == Success(true) ==> ChildNames(v', Up(p)) == ChildNames(v, Up(p)) + {p[|p| - 1]})
  {
    if p != Root && Up(p) in v && !v[Up(p)].isFile && p !in v {
      AddLeafWellFormed(v, p, e);
      AddLeafChildNames(v, p, e);
    }
  }

  /** Putting an entry where nothing or a file stood, under a directory, keeps a tree. */
  lemma AddLeafWellFormed(v: View, p: Path, e: Entry)
    requires WellFormed(v) && p != Root && Up(p) in v && !v[Up(p)].isFile && (p !in v || v[p].isFile)
    ensures WellFormed(v[p := e])
  {
    NothingBelow(v, p);
    forall q | q in v[p := e] && q != Root ensures Up(q) in v[p := e] && !v[p := e][Up(q)].isFile {
      if q != p {
        assert Up(q) <= q;
        assert Up(q) != p;
      }
    }
  }

  lemma AddLeafChildNames(v: View, p: Path, e: Entry)
    requires p != Root && p !in v
    ensures ChildNames(v[p := e], Up(p)) == ChildNames(v, Up(p)) + {p[|p| - 1]}
  {
    var u, w := Up(p), v[p := e];
    assert p == u + [p[|p| - 1]];
    forall c | c in ChildNames(w, u) ensures c in ChildNames(v, u) + {p[|p| - 1]} {
      var q :| q in w && q != Root && Up(q) == u && q[|q| - 1] == c;
      assert q == Up(q) + [c];
    }
  }

  // ---------------------------------------------------------------------------
  // createFile

  /** createFile once a registered storage `chosen` has been picked: with no storage
      registered it returns false; otherwise it inserts the file on `chosen` first and
      then asks that storage to create it. A network failure makes the result false
      without taking the file out again; the create's own answer is not consulted. */
  function CreateFileSpec(v: View, commands: map<Storage, Command>, chosen: Storage, file: Path,
                          o: Outcome): (Result<bool>, View, seq<RemoteCall>)
    requires commands != map[] ==> chosen in commands
  {
    if commands == map[] then (Success(false), v, [])
    else
      var (r, v') := Insert(v, file, Entry(true, Some(chosen)));
      if r != Success(true) then (r, v', [])
      else (Success(o.Returned?), v', [Create(commands[chosen], file)])
  }

  lemma CreateFileProperties(v: View, commands: map<Storage, Command>, chosen: Storage, file: Path, o: Outcome)
    requires WellFormed(v) && (commands != map[] ==> chosen in commands)
    ensures var (r, v', calls) := CreateFileSpec(v, commands, chosen, file, o);
            && WellFormed(v')
            && (commands == map[] ==> r == Success(false) && v' == v && calls == [])
            && (calls != [] <==> commands != map[] && file != Root && Up(file) in v && !v[Up(file)].isFile && file !in v)
            && (calls != [] ==> && v' == v[file := Entry(true, Some(chosen))]
                                && calls == [Create(commands[chosen], file)]
                                && r.Success? && (r.value <==> o.Returned?))
            && (calls == [] ==> v' == v && r != Success(true))
            && (r == Failure(NotFound) <==> commands != map[] && file != Root && (Up(file) !in v || v[Up(file)].isFile))
  {
    if commands != map[] {
      InsertProperties(v, file, Entry(true, Some(chosen)));
    }
  }

  // ---------------------------------------------------------------------------
  // addToTree

  /** addToTree's outer loop, at the prefix of `p` of length `i` (a directory): descend
      through directories; at the first component that is missing or a file, build the
      rest of the path as new directories (overwriting that file) and end with the file;
      if only the last component is missing, add it; if `p` exists, report false. */
  function AddWalk(v: View, p: Path, s: Storage, i: nat): (bool, View)
    requires i <= |p|
    decreases |p| - i
  {
    if i == |p| then (false, v)
    else
      var q := Prefix(p, i + 1);
      if q in v && !v[q].isFile then AddWalk(v, p, s, i + 1)
      else Fill(v, p, s, i)
  }

  /** addToTree's inner loop, standing at the directory `p[..j]` with component `j` of
      `p` in hand: while further components follow, make `p[..j + 1]` a directory (a
      file there is overwritten) and move into it; at the last component, add the file
      if the slot is empty. */
  function Fill(v: View, p: Path, s: Storage, j: nat): (bool, View)
    requires j < |p|
    decreases |p| - j
  {
    if j + 1 < |p| then Fill(v[Prefix(p, j + 1) := Entry(false, Some(s))], p, s, j + 1)
    else if p !in v then (true, v[p := Entry(true, Some(s))])
    else (false, v)
  }

  /** One pass of the inner loop. */
  lemma FillStep(v: View, p: Path, s: Storage, j: nat)
    requires j + 1 < |p|
    ensures Fill(v, p, s, j) == Fill(v[Prefix(p, j + 1) := Entry(false, Some(s))], p, s, j + 1)
  {
  }

  function AddTree(v: View, p: Path, s: Storage): (bool, View) {
    AddWalk(v, p, s, 0)
  }

  /** The first `i` proper prefixes of `p` past the root are directories of `v`. */
  predicate DirsUpTo(v: View, p: Path, i: nat)
    requires i <= |p|
  {
    forall m | 0 < m <= i :: Prefix(p, m) in v && !v[Prefix(p, m)].isFile
  }

  lemma DirsExtend(v: View, p: Path, i: nat)
    requires i < |p| && DirsUpTo(v, p, i)
    requires Prefix(p, i + 1) in v && !v[Prefix(p, i + 1)].isFile
    ensures DirsUpTo(v, p, i + 1)
  {
  }

  /** Walking down through prefixes that are directories does not change the outcome. */
  lemma {:induction false} AddWalkSkips(v: View, p: Path, s: Storage, i: nat, j: nat)
    requires i <= j <= |p|
    requires forall m | i < m <= j :: Prefix(p, m) in v && !v[Prefix(p, m)].isFile
    ensures AddWalk(v, p, s, i) == AddWalk(v, p, s, j)
    decreases j - i
  {
    if i < j {
      AddWalkSkips(v, p, s, i + 1, j);
    }
  }

  /** The prefixes of `p` of length `g` and more. */
  function LongPrefixes(p: Path, g: nat): set<Path> {
    set j | g <= j <= |p| :: Prefix(p, j)
  }

  /** `v` with the prefixes of `p` from length `g` on made directories on storage `s`,
      and `p` itself a file on `s`. */
  function Graft(v: View, p: Path, s: Storage, g: nat): View {
    map q | q in v.Keys + LongPrefixes(p, g) ::
      if q !in v || (q <= p && g <= |q|) then Entry(|q| == |p|, Some(s)) else v[q]
  }

  /** The prefixes of `p` shorter than `g` are directories of `v`, and the prefix of
      length `g` is missing or a file. */
  predicate Gap(v: View, p: Path, g: nat)
    requires g <= |p|
  {
    && (forall j | 0 < j < g :: Prefix(p, j) in v && !v[Prefix(p, j)].isFile)
    && (Prefix(p, g) !in v || v[Prefix(p, g)].isFile)
  }

  lemma {:induction false} FillGrafts(v: View, p: Path, s: Storage, i: nat)
    requires i < |p| && p !in v
    ensures Fill(v, p, s, i) == (true, Graft(v, p, s, i + 1))
    decreases |p| - i
  {
    if i + 1 < |p| {
      var q := Prefix(p, i + 1);
      FillGrafts(v[q := Entry(false, Some(s))], p, s, i + 1);
      GraftAbsorbs(v, p, s, i + 1);
    } else {
      assert Prefix(p, i + 1) == p;
      GraftWhole(v, p, s);
    }
  }

  /** Making the prefix of length `g` a directory first changes nothing in the graft. */
  lemma GraftAbsorbs(v: View, p: Path, s: Storage, g: nat)
    requires 0 < g < |p|
    ensures Graft(v[Prefix(p, g) := Entry(false, Some(s))], p, s, g + 1) == Graft(v, p, s, g)
  {
    var b := Prefix(p, g);
    var v' := v[b := Entry(false, Some(s))];
    LongPrefixesSplit(p, g);
    var lhs, rhs := Graft(v', p, s, g + 1), Graft(v, p, s, g);
    assert lhs.Keys == rhs.Keys;
    forall q | q in lhs ensures lhs[q] == rhs[q] {
      if q <= p && |q| == g {
        assert q == b;
      }
    }
  }

  lemma LongPrefixesSplit(p: Path, g: nat)
    requires g < |p|
    ensures LongPrefixes(p, g) == {Prefix(p, g)} + LongPrefixes(p, g + 1)
  {
    forall q | q in LongPrefixes(p, g) ensures q in {Prefix(p, g)} + LongPrefixes(p, g + 1) {
      var j :| g <= j <= |p| && q == Prefix(p, j);
      if j > g {
        assert q in LongPrefixes(p, g + 1);
      }
    }
    assert Prefix(p, g) in LongPrefixes(p, g);
  }

  lemma GraftWhole(v: View, p: Path, s: Storage)
    ensures Graft(v, p, s, |p|) == v[p := Entry(true, Some(s))]
  {
    assert Prefix(p, |p|) == p;
    assert p in LongPrefixes(p, |p|);
    assert LongPrefixes(p, |p|) == {p};
    var g, w := Graft(v, p, s, |p|), v[p := Entry(true, Some(s))];
    assert g.Keys == w.Keys;
    forall q | q in g ensures g[q] == w[q] {
      if q <= p && |p| <= |q| {
        assert q == p;
      }
    }
  }

  lemma {:induction false} AddWalkResult(v: View, p: Path, s: Storage, i: nat)
    requires WellFormed(v) && i <= |p|
    requires forall j | 0 < j <= i :: Prefix(p, j) in v && !v[Prefix(p, j)].isFile
    ensures AddWalk(v, p, s, i).0 == (p !in v)
    ensures p in v ==> AddWalk(v, p, s, i).1 == v
    ensures p !in v ==> exists g | i < g <= |p| :: Gap(v, p, g) && AddWalk(v, p, s, i).1 == Graft(v, p, s, g)
    decreases |p| - i
  {
    if i == |p| {
      assert Prefix(p, 0) == Root;
      if i > 0 {
        assert Prefix(p, i) == p;
      }
    } else {
      var q := Prefix(p, i + 1);
      if q in v && !v[q].isFile {
        AddWalkResult(v, p, s, i + 1);
      } else {
        if p in v && i + 1 < |p| {
          PrefixDirectory(v, p, i + 1);
        }
        assert Gap(v, p, i + 1);
        if i + 1 < |p| {
          FillGrafts(v, p, s, i);
        } else {
          assert q == p;
          GraftWhole(v, p, s);
        }
      }
    }
  }

  lemma GraftProperties(v: View, p: Path, s: Storage, g: nat)
    requires WellFormed(v) && 0 < g <= |p| && p !in v && Gap(v, p, g)
    ensures var v' := Graft(v, p, s, g);
            && WellFormed(v')
            && p in v' && v'[p] == Entry(true, Some(s))
            && v.Keys <= v'.Keys
            && (forall q | q in v' && q !in v :: q <= p && v'[q].stub == Some(s))
            && (forall q | q in v :: v'[q] == v[q] || (q < p && v[q].isFile && v'[q] == Entry(false, Some(s))))
  {
    var v' := Graft(v, p, s, g);
    var b := Prefix(p, g);
    NothingBelow(v, b);
    assert Prefix(p, |p|) == p;
    assert p in LongPrefixes(p, g);
    forall q | q in v' && q !in v ensures q <= p && v'[q].stub == Some(s) {
      var j :| g <= j <= |p| && q == Prefix(p, j);
    }
    forall q | q in v ensures v'[q] == v[q] || (q < p && v[q].isFile && v'[q] == Entry(false, Some(s))) {
      if q <= p && g <= |q| {
        assert b <= q;
        assert q == b;
      }
    }
    forall q | q in v' && q != Root ensures Up(q) in v' && !v'[Up(q)].isFile {
      GraftParent(v, p, s, g, q);
    }
  }

  /** The parent step of GraftProperties. */
  lemma GraftParent(v: View, p: Path, s: Storage, g: nat, q: Path)
    requires WellFormed(v) && 0 < g <= |p| && p !in v && Gap(v, p, g)
    requires q in Graft(v, p, s, g) && q != Root
    ensures Up(q) in Graft(v, p, s, g) && !Graft(v, p, s, g)[Up(q)].isFile
  {
    var v' := Graft(v, p, s, g);
    var b := Prefix(p, g);
    var u := Up(q);
    NothingBelow(v, b);
    if q in v && !(q <= p && g <= |q|) {
      assert u in v && !v[u].isFile;
      if u <= p && g <= |u| {
        assert u != p;
      }
    } else {
      assert q <= p && g <= |q|;
      assert u == Prefix(p, |q| - 1);
      if g <= |u| {
        assert u in LongPrefixes(p, g);
      } else if |u| == 0 {
        assert u == Root;
      } else {
        assert 0 < |u| < g;
      }
    }
  }

  /** addToTree on a non-root path reports whether the path was new; if so the path is a
      file on `s`, its new prefixes are directories on `s`, a file standing on one of its
      prefixes has become such a directory, and nothing else changed. */
  lemma AddTreeProperties(v: View, p: Path, s: Storage)
    requires WellFormed(v) && p != Root
    ensures var (added, v') := AddTree(v, p, s);
            && WellFormed(v')
            && added == (p !in v)
            && (!added ==> v' == v)
            && (added ==> p in v' && v'[p] == Entry(true, Some(s)))
            && v.Keys <= v'.Keys
            && (forall q | q in v' && q !in v :: q <= p && v'[q].stub == Some(s))
            && (forall q | q in v :: v'[q] == v[q] || (q < p && v[q].isFile && v'[q] == Entry(false, Some(s))))
  {
    AddWalkResult(v, p, s, 0);
    if p !in v {
      var g :| 0 < g <= |p| && Gap(v, p, g) && AddWalk(v, p, s, 0).1 == Graft(v, p, s, g);
      GraftProperties(v, p, s, g);
    }
  }

  // ---------------------------------------------------------------------------
  // register

  /** register's loop over the offered files: the root is skipped, every other file is
      added as by addToTree, and the ones addToTree reports false for are duplicates. */
  function RegisterFiles(v: View, s: Storage, files: seq<Path>): (seq<Path>, View)
    decreases |files|
  {
    if files == [] then ([], v)
    else
      var (dup, v1) := Offer(v, s, files[0]);
      var (rest, v2) := RegisterFiles(v1, s, files[1..]);
      (dup + rest, v2)
  }

  /** One offered file: the root is skipped; another file is added as by addToTree and
      is a duplicate when addToTree reports false. */
  function Offer(v: View, s: Storage, p: Path): (seq<Path>, View) {
    if p == Root then ([], v)
    else var (added, v') := AddTree(v, p, s); (if added then [] else [p], v')
  }

  /** The loop of register one file further: what is left to register after file i. */
  lemma RegisterStep(v: View, s: Storage, files: seq<Path>, i: nat)
    requires i < |files|
    ensures var (dup, v1) := Offer(v, s, files[i]);
            var (rest, v2) := RegisterFiles(v1, s, files[i + 1..]);
            RegisterFiles(v, s, files[i..]) == (dup + rest, v2)
  {
    assert files[i..][0] == files[i] && files[i..][1..] == files[i + 1..];
  }

  /** Registration keeps the tree a tree and only adds paths, all on the new storage;
      every offered non-root file ends up in the tree; every such file the tree already
      held is reported as a duplicate, and only offered non-root files are. */
  lemma {:induction false} RegisterProperties(v: View, s: Storage, files: seq<Path>)
    requires WellFormed(v)
    ensures var (dups, v') := RegisterFiles(v, s, files);
            && WellFormed(v')
            && v.Keys <= v'.Keys
            && (forall q | q in v' && q !in v :: v'[q].stub == Some(s))
            && (forall q | q in v :: v'[q] == v[q] || (v[q].isFile && v'[q] == Entry(false, Some(s))))
            && (forall f | f in files && f != Root :: f in v')
            && (forall f | f in files && f != Root && f in v :: f in dups)
            && (forall i | 0 <= i < |dups| :: dups[i] in files && dups[i] != Root)
    decreases |files|
  {
    if files != [] {
      var p := files[0];
      var (dup, v1) := Offer(v, s, p);
      if p != Root {
        AddTreeProperties(v, p, s);
      }
      RegisterProperties(v1, s, files[1..]);
      var (rest, v2) := RegisterFiles(v1, s, files[1..]);
      assert RegisterFiles(v, s, files) == (dup + rest, v2);
      forall f | f in files && f != Root ensures f in v2 {
        if f != p {
          assert f in files[1..];
        }
      }
      forall f | f in files && f != Root && f in v ensures f in dup + rest {
        if f != p {
          assert f in files[1..];
        }
      }
      forall i | 0 <= i < |dup + rest| ensures (dup + rest)[i] in files && (dup + rest)[i] != Root {
        if i >= |dup| {
          assert (dup + rest)[i] == rest[i - |dup|];
        }
      }
    }
  }

  // ---------------------------------------------------------------------------
  // delete

  /** `order` lists the elements of `s`, each once: an iteration order of the set. */
  predicate IsEnumeration<T>(order: seq<T>, s: set<T>) {
    && (forall i, j | 0 <= i < j < |order| :: order[i] != order[j])
    && (forall i | 0 <= i < |order| :: order[i] in s)
    && (forall x | x in s :: x in order)
  }

  /** The command reference the server looks up for a node's storage: nothing for a node
      without one (the lookup of null) or for an unregistered storage. */
  function PrimaryOf(stub: Option<Storage>, commands: map<Storage, Command>): Option<Command> {
    if stub.Some? && stub.value in commands then Some(commands[stub.value]) else None
  }

  /** How delete's loop over the storages to delete from stands: still running, left by
      a network failure (delete returns false), or left by a null dereference. */
  datatype Stop = Running | Aborted | Crashed

  /** The loop's state: how it stands, the last round's result, the remote calls made so
      far (call i came back with oracle(i)), and the rounds completed. */
  datatype Sweep = Sweep(stop: Stop, success: bool, calls: seq<RemoteCall>, rounds: nat)

  const Start: Sweep := Sweep(Running, true, [], 0)

  /** One round for a storage whose command reference is `replica`: delete `path` at the
      primary and at the replica (in the order `primaryFirst` says), joined by a
      short-circuit and. */
  function Round(w: Sweep, replica: Command, primary: Option<Command>, primaryFirst: bool,
                 path: Path, oracle: Oracle): Sweep
    requires w.stop == Running
  {
    var first := if primaryFirst then primary else Some(replica);
    var second := if primaryFirst then Some(replica) else primary;
    if first.None? then w.(stop := Crashed)
    else
      var c1 := w.calls + [Delete(first.value, path)];
      var o1 := oracle(|w.calls|);
      if o1.NetworkFailure? then w.(stop := Aborted, calls := c1)
      else if !o1.value then w.(success := false, calls := c1, rounds := w.rounds + 1)
      else if second.None? then w.(stop := Crashed, calls := c1)
      else
        var c2 := c1 + [Delete(second.value, path)];
        var o2 := oracle(|c1|);
        if o2.NetworkFailure? then w.(stop := Aborted, calls := c2)
        else w.(success := o2.value, calls := c2, rounds := w.rounds + 1)
  }

  /** The rounds over the storages in the order the set iterator yields them. */
  function Rounds(w: Sweep, order: seq<Storage>, commands: map<Storage, Command>, primary: Option<Command>,
                  primaryFirst: bool, path: Path, oracle: Oracle): Sweep
    requires StoresRegistered(order, commands)
    decreases |order|
  {
    if order == [] || w.stop != Running then w
    else Rounds(Round(w, commands[order[0]], primary, primaryFirst, path, oracle), order[1..],
                commands, primary, primaryFirst, path, oracle)
  }

  lemma {:induction false} RoundsAppend(w: Sweep, a: seq<Storage>, b: seq<Storage>, commands: map<Storage, Command>,
                                        primary: Option<Command>, primaryFirst: bool, path: Path, oracle: Oracle)
    requires StoresRegistered(a + b, commands)
    ensures StoresRegistered(a, commands) && StoresRegistered(b, commands)
    ensures Rounds(w, a + b, commands, primary, primaryFirst, path, oracle)
         == Rounds(Rounds(w, a, commands, primary, primaryFirst, path, oracle), b, commands, primary, primaryFirst, path, oracle)
    decreases |a|
  {
    assert forall i | 0 <= i < |a| :: a[i] == (a + b)[i];
    assert forall i | 0 <= i < |b| :: b[i] == (a + b)[|a| + i];
    if a != [] && w.stop == Running {
      assert (a + b)[0] == a[0] && (a + b)[1..] == a[1..] + b;
      RoundsAppend(Round(w, commands[a[0]], primary, primaryFirst, path, oracle), a[1..], b,
                   commands, primary, primaryFirst, path, oracle);
    } else if a == [] {
      assert a + b == b;
    }
  }

  /** The rounds only issue deletes of `path`, at most two per storage, each to the
      primary or to a storage of the order; they complete at most one round per storage. */
  lemma {:induction false} RoundsCalls(w: Sweep, order: seq<Storage>, commands: map<Storage, Command>,
                                       primary: Option<Command>, primaryFirst: bool, path: Path, oracle: Oracle)
    requires StoresRegistered(order, commands)
    ensures var w' := Rounds(w, order, commands, primary, primaryFirst, path, oracle);
            && w.calls <= w'.calls
            && |w'.calls| <= |w.calls| + 2 * |order|
            && w.rounds <= w'.rounds <= w.rounds + |order|
            && (forall i | |w.calls| <= i < |w'.calls| ::
                  w'.calls[i].Delete? && w'.calls[i].path == path &&
                  (Some(w'.calls[i].target) == primary ||
                   exists j | 0 <= j < |order| :: w'.calls[i].target == commands[order[j]]))
    decreases |order|
  {
    if order != [] && w.stop == Running {
      var w1 := Round(w, commands[order[0]], primary, primaryFirst, path, oracle);
      RoundsCalls(w1, order[1..], commands, primary, primaryFirst, path, oracle);
      var w' := Rounds(w1, order[1..], commands, primary, primaryFirst, path, oracle);
      forall i | |w.calls| <= i < |w'.calls|
        ensures w'.calls[i].Delete? && w'.calls[i].path == path &&
                (Some(w'.calls[i].target) == primary ||
                 exists j | 0 <= j < |order| :: w'.calls[i].target == commands[order[j]])
      {
        if i < |w1.calls| {
          assert w'.calls[i] == w1.calls[i];
          assert w'.calls[i].target == commands[order[0]] || Some(w'.calls[i].target) == primary;
        } else {
          if !(Some(w'.calls[i].target) == primary) {
            var j :| 0 <= j < |order[1..]| && w'.calls[i].target == commands[order[1..][j]];
            assert order[1..][j] == order[j + 1];
          }
        }
      }
    }
  }

  /** The outcome of delete: its result, the new tree, the new replica map, the remote
      calls it made, and the directory node's list after getFilesUnder. */
  datatype Deletion = Deletion(r: Result<bool>, view: View, replicas: Replicas, calls: seq<RemoteCall>,
                               listed: seq<Path>)

  /** The end of a loop of rounds: a network failure makes delete return false with the
      tree at `kept`; a completed loop returns the last round's result with the tree at
      `done`; each completed round removed `path`'s replica entry. */
  function Finish(w: Sweep, kept: View, done: View, replicas: Replicas, path: Path, listed: seq<Path>): Deletion {
    var reps := if w.rounds > 0 then replicas - {path} else replicas;
    match w.stop
    case Crashed => Deletion(Failure(NullPointer), kept, reps, w.calls, listed)
    case Aborted => Deletion(Success(false), kept, reps, w.calls, listed)
    case Running => Deletion(Success(w.success), done, reps, w.calls, listed)
  }

  /** A single delete at the primary: a network failure returns false with the tree at
      `kept`, otherwise its result is returned with the tree at `done`. */
  function Single(call: RemoteCall, o: Outcome, kept: View, done: View, replicas: Replicas, listed: seq<Path>): Deletion {
    if o.NetworkFailure? then Deletion(Success(false), kept, replicas, [call], listed)
    else Deletion(Success(o.value), done, replicas, [call], listed)
  }

  /** getFilesUnder's list followed by the replicated paths below `path`, appended to the
      node's list as it stood (`prior`), with the replicated paths in the iterator's
      order `keyOrder`. */
  function Listed(v: View, path: Path, prior: seq<Path>, keyOrder: seq<Path>): seq<Path> {
    prior + Repeat(path, |Subtree(v, path)|) + keyOrder
  }

  /** The storages whose replicas delete removes: for a directory, the union of the
      replica sets of the listed paths; for a file, its own replica set. */
  function Targets(v: View, replicas: Replicas, path: Path, prior: seq<Path>, keyOrder: seq<Path>): set<Storage> {
    if path == Root || path !in v || replicas == map[] then {}
    else if !v[path].isFile then
      Union(replicas, Listed(v, path, prior, keyOrder))
    else if path in replicas then replicas[path]
    else {}
  }

  /** The union of the replica sets of the listed paths that have one. */
  function Union(replicas: Replicas, listed: seq<Path>): set<Storage>
    decreases |listed|
  {
    if listed == [] then {}
    else
      var p := listed[|listed| - 1];
      Union(replicas, listed[..|listed| - 1]) + (if p in replicas then replicas[p] else {})
  }

  /** Every storage delete iterates over is registered. */
  lemma {:induction false} UnionRegistered(replicas: Replicas, commands: map<Storage, Command>, listed: seq<Path>)
    requires HoldersRegistered(replicas, commands)
    ensures Union(replicas, listed) <= commands.Keys
    decreases |listed|
  {
    if listed != [] {
      UnionRegistered(replicas, commands, listed[..|listed| - 1]);
    }
  }

  /** delete as the code performs it, given the node's earlier list `prior`, the order
      `keyOrder` in which the replica map yields the paths below `path`, the order
      `order` in which the set of storages to delete from is iterated, and the outcomes
      of the remote calls. */
  function DeleteSpec(v: View, replicas: Replicas, commands: map<Storage, Command>, path: Path,
                      prior: seq<Path>, keyOrder: seq<Path>, order: seq<Storage>, oracle: Oracle): Deletion
    requires StoresRegistered(order, commands)
  {
    if path == Root then Deletion(Success(false), v, replicas, [], prior)
    else if path !in v then Deletion(Failure(NotFound), v, replicas, [], prior)
    else if !v[path].isFile then
      DirectoryDeletion(v, replicas, commands, path, Listed(v, path, prior, keyOrder), order, oracle)
    else FileDeletion(v, replicas, commands, path, prior, order, oracle)
  }

  /** delete of a directory whose listed paths are `listed`: NullPointer when one of them
      has no replica entry; otherwise the rounds over the storages holding their
      replicas, each deleting at the primary first, or with no replica anywhere a single
      delete at the primary. The subtree goes only when the deletes came back. */
  function DirectoryDeletion(v: View, replicas: Replicas, commands: map<Storage, Command>, path: Path,
                             listed: seq<Path>, order: seq<Storage>, oracle: Oracle): (d: Deletion)
    requires StoresRegistered(order, commands) && path in v
    ensures d.listed == listed
  {
    var primary := PrimaryOf(v[path].stub, commands);
    if replicas != map[] then
      if exists i | 0 <= i < |listed| :: listed[i] !in replicas then
        Deletion(Failure(NullPointer), v, replicas, [], listed)
      else
        Finish(Rounds(Start, order, commands, primary, true, path, oracle), v, Prune(v, path), replicas, path, listed)
    else if primary.None? then Deletion(Failure(NullPointer), v, replicas, [], listed)
    else Single(Delete(primary.value, path), oracle(0), v, Prune(v, path), replicas, listed)
  }

  /** delete of a file: the node goes first; then NullPointer for a file without a replica
      entry while other files have one, true for one with no holder, the rounds over its
      holders, each deleting at the holder first, or with no replica anywhere a single
      delete at the primary. */
  function FileDeletion(v: View, replicas: Replicas, commands: map<Storage, Command>, path: Path,
                        prior: seq<Path>, order: seq<Storage>, oracle: Oracle): (d: Deletion)
    requires StoresRegistered(order, commands) && path in v
    ensures d.listed == prior
  {
    var primary := PrimaryOf(v[path].stub, commands);
    var gone := Prune(v, path);
    if replicas != map[] then
      if path !in replicas then Deletion(Failure(NullPointer), gone, replicas, [], prior)
      else if replicas[path] == {} then Deletion(Success(true), gone, replicas, [], prior)
      else Finish(Rounds(Start, order, commands, primary, false, path, oracle), gone, gone, replicas, path, prior)
    else if primary.None? then Deletion(Failure(NullPointer), gone, replicas, [], prior)
    else Single(Delete(primary.value, path), oracle(0), gone, gone, replicas, prior)
  }

  lemma UpPrefix(p: Path, q: Path)
    requires q != Root
    ensures p <= Up(q) ==> p <= q
  {
    if p <= Up(q) {
      assert q[..|p|] == Up(q)[..|p|];
    }
  }

  /** Pruning a non-root path keeps the tree a tree. */
  lemma PruneWellFormed(v: View, p: Path)
    requires WellFormed(v) && p != Root
    ensures WellFormed(Prune(v, p))
  {
    forall q | q in Prune(v, p) && q != Root ensures Up(q) in Prune(v, p) && !Prune(v, p)[Up(q)].isFile {
      UpPrefix(p, q);
    }
  }

  /** Pruning a path drops its name, and no other, from its parent's list. */
  lemma PruneChildNames(v: View, p: Path)
    requires p != Root
    ensures ChildNames(Prune(v, p), Up(p)) == ChildNames(v, Up(p)) - {p[|p| - 1]}
  {
    var u, c := Up(p), p[|p| - 1];
    assert p == u + [c];
    forall d | d in ChildNames(v, u) - {c} ensures d in ChildNames(Prune(v, p), u) {
      var q :| q in v && q != Root && Up(q) == u && q[|q| - 1] == d;
      assert q == Up(q) + [d];
      assert |q| == |p| && q != p;
    }
    forall d | d in ChildNames(Prune(v, p), u) ensures d != c {
      var q :| q in Prune(v, p) && q != Root && Up(q) == u && q[|q| - 1] == d;
      assert q == Up(q) + [d];
      assert q != p;
    }
  }

  /** What delete does to the tree: NotFound exactly for a missing non-root path, and
      then nothing changes; the root is never deleted; otherwise the tree stays a tree
      and either stays as it was or loses exactly the subtree at `path` — always for a
      file, and whenever delete returns true; a directory stays when delete throws and
      goes when every remote call is answered and delete returns; a network failure
      among the calls makes the result false and keeps a directory; the replica map loses
      at most `path`'s own entry. */
  lemma DeleteTree(v: View, replicas: Replicas, commands: map<Storage, Command>, path: Path,
                   prior: seq<Path>, keyOrder: seq<Path>, order: seq<Storage>, oracle: Oracle)
    requires WellFormed(v) && StoresRegistered(order, commands)
    ensures var d := DeleteSpec(v, replicas, commands, path, prior, keyOrder, order, oracle);
            && WellFormed(d.view)
            && (d.r == Failure(NotFound) <==> path != Root && path !in v)
            && (path == Root ==> d == Deletion(Success(false), v, replicas, [], prior))
            && (path !in v ==> d.view == v && d.replicas == replicas && d.calls == [])
            && (d.view == v || (path != Root && path in v && d.view == Prune(v, path)))
            && (path in v && v[path].isFile && path != Root ==> d.view == Prune(v, path))
            && (d.r == Success(true) && path != Root ==> d.view == Prune(v, path))
            && (path in v && !v[path].isFile && d.r.Failure? ==> d.view == v)
            && ((path in v && !v[path].isFile && path != Root && (forall i :: oracle(i).Returned?) && d.r.Success?)
                ==> d.view == Prune(v, path))
            && ((exists i | 0 <= i < |d.calls| :: oracle(i).NetworkFailure?)
                ==> d.r == Success(false) && (path in v && !v[path].isFile ==> d.view == v))
            && (d.replicas == replicas || d.replicas == replicas - {path})
  {
    if path != Root && path in v {
      PruneWellFormed(v, path);
      if v[path].isFile {
        FileDeletionTree(v, replicas, commands, path, prior, order, oracle);
      } else {
        DirectoryDeletionTree(v, replicas, commands, path, Listed(v, path, prior, keyOrder), order, oracle);
      }
    }
  }

  lemma DirectoryDeletionTree(v: View, replicas: Replicas, commands: map<Storage, Command>, path: Path,
                              listed: seq<Path>, order: seq<Storage>, oracle: Oracle)
    requires StoresRegistered(order, commands) && path in v
    ensures var d := DirectoryDeletion(v, replicas, commands, path, listed, order, oracle);
            && d.r != Failure(NotFound)
            && (d.view == v || d.view == Prune(v, path))
            && (d.r == Success(true) ==> d.view == Prune(v, path))
            && (d.r.Failure? ==> d.view == v)
            && ((forall i :: oracle(i).Returned?) && d.r.Success? ==> d.view == Prune(v, path))
            && ((exists i | 0 <= i < |d.calls| :: oracle(i).NetworkFailure?) ==> d.r == Success(false) && d.view == v)
            && (d.replicas == replicas || d.replicas == replicas - {path})
  {
    var primary := PrimaryOf(v[path].stub, commands);
    if forall i :: oracle(i).Returned? {
      RoundsAnswered(Start, order, commands, primary, true, path, oracle);
    }
    RoundsAbortOnFailure(Start, order, commands, primary, true, path, oracle);
  }

  /** From a running loop whose calls so far were all answered, the loop stops on a
      network failure exactly when one of its calls failed. */
  lemma {:induction false} RoundsAbortOnFailure(w: Sweep, order: seq<Storage>, commands: map<Storage, Command>,
                                                primary: Option<Command>, primaryFirst: bool, path: Path, oracle: Oracle)
    requires StoresRegistered(order, commands) && w.stop != Aborted
    requires forall i | 0 <= i < |w.calls| :: oracle(i).Returned?
    ensures var w' := Rounds(w, order, commands, primary, primaryFirst, path, oracle);
            w'.stop == Aborted <==> exists i | 0 <= i < |w'.calls| :: oracle(i).NetworkFailure?
    decreases |order|
  {
    if order != [] && w.stop == Running {
      var w1 := Round(w, commands[order[0]], primary, primaryFirst, path, oracle);
      if w1.stop == Aborted {
        assert oracle(|w1.calls| - 1).NetworkFailure?;
      } else {
        assert forall i | 0 <= i < |w1.calls| :: oracle(i).Returned?;
        RoundsAbortOnFailure(w1, order[1..], commands, primary, primaryFirst, path, oracle);
      }
    }
  }

  /** With every remote call answered, no round stops on a network failure. */
  lemma {:induction false} RoundsAnswered(w: Sweep, order: seq<Storage>, commands: map<Storage, Command>,
                                          primary: Option<Command>, primaryFirst: bool, path: Path, oracle: Oracle)
    requires StoresRegistered(order, commands) && w.stop != Aborted
    requires forall i :: oracle(i).Returned?
    ensures Rounds(w, order, commands, primary, primaryFirst, path, oracle).stop != Aborted
    decreases |order|
  {
    if order != [] && w.stop == Running {
      RoundsAnswered(Round(w, commands[order[0]], primary, primaryFirst, path, oracle), order[1..],
                     commands, primary, primaryFirst, path, oracle);
    }
  }

  /** getFilesUnder lists the directory's own path, so while any file has replicas,
      deleting a directory without a replica entry of its own throws NullPointer before
      any remote call, and nothing changes. */
  lemma DirectoryDeleteThrows(v: View, replicas: Replicas, commands: map<Storage, Command>, path: Path,
                              prior: seq<Path>, keyOrder: seq<Path>, order: seq<Storage>, oracle: Oracle)
    requires StoresRegistered(order, commands) && path != Root && path in v && !v[path].isFile
    requires replicas != map[] && path !in replicas
    ensures DeleteSpec(v, replicas, commands, path, prior, keyOrder, order, oracle)
         == Deletion(Failure(NullPointer), v, replicas, [], Listed(v, path, prior, keyOrder))
  {
    var listed := Listed(v, path, prior, keyOrder);
    assert path in Subtree(v, path);
    assert |Subtree(v, path)| > 0;
    assert listed[|prior|] == path;
  }

  lemma FileDeletionTree(v: View, replicas: Replicas, commands: map<Storage, Command>, path: Path,
                         prior: seq<Path>, order: seq<Storage>, oracle: Oracle)
    requires StoresRegistered(order, commands) && path in v
    ensures var d := FileDeletion(v, replicas, commands, path, prior, order, oracle);
            && d.r != Failure(NotFound) && d.view == Prune(v, path)
            && ((exists i | 0 <= i < |d.calls| :: oracle(i).NetworkFailure?) ==> d.r == Success(false))
            && (d.replicas == replicas || d.replicas == replicas - {path})
  {
    RoundsAbortOnFailure(Start, order, commands, PrimaryOf(v[path].stub, commands), false, path, oracle);
  }

  /** Every remote call delete makes deletes `path`, at the primary storage or at one of
      the storages iterated over, at most two calls per storage. */
  lemma DeleteCalls(v: View, replicas: Replicas, commands: map<Storage, Command>, path: Path,
                    prior: seq<Path>, keyOrder: seq<Path>, order: seq<Storage>, oracle: Oracle)
    requires StoresRegistered(order, commands)
    ensures var d := DeleteSpec(v, replicas, commands, path, prior, keyOrder, order, oracle);
            && |d.calls| <= 2 * |order| + 1
            && (forall i | 0 <= i < |d.calls| ::
                  d.calls[i].Delete? && d.calls[i].path == path &&
                  ((path in v && PrimaryOf(v[path].stub, commands) == Some(d.calls[i].target)) ||
                   exists j | 0 <= j < |order| :: d.calls[i].target == commands[order[j]]))
  {
    if path != Root && path in v {
      var primary := PrimaryOf(v[path].stub, commands);
      RoundsCalls(Start, order, commands, primary, true, path, oracle);
      RoundsCalls(Start, order, commands, primary, false, path, oracle);
    }
  }
}
