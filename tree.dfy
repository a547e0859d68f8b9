/** Directory-tree nodes: each node knows whether it is a file, its own path, the storage
    holding a file's primary copy, its lock, and its children by component name.

    The shape of the tree is stated against a ghost map from paths to nodes and a ghost
    snapshot of each node's children: every path of the map is reachable from the root by
    following child links named by its components, and every child link leads to the node
    mapped under the extended path. */
module Tree {
  import opened Wrappers
  import opened Paths
  import opened Remote
  import Locks

  class Node {
    var children: map<string, Node>
    const isFile: bool
    const myPath: Path
    const storageStub: Option<Storage>
    const lock: Locks.RWLock
    /** The list getFilesUnder appends to; it lives as long as the node. */
    var result: seq<Path>

    constructor(isFile: bool, myPath: Path, storageStub: Option<Storage>)
      ensures this.isFile == isFile && this.myPath == myPath && this.storageStub == storageStub
      ensures children == map[] && result == []
      ensures fresh(lock) && lock.State() == Locks.Initial && lock.Valid() && lock.home == myPath
    {
      children := map[];
      this.isFile := isFile;
      this.myPath := myPath;
      this.storageStub := storageStub;
      lock := new Locks.RWLock(myPath);
      result := [];
    }

    /** Follows the components of `p` from this node; NotFound at the first missing child. */
    method GetPathNode(p: Path, ghost t: map<Path, Node>, ghost k: map<Path, map<string, Node>>)
      returns (r: Result<Node>)
      requires Shaped(t, k) && Mirrors(t, k) && myPath in t && t[myPath] == this
      ensures myPath + p in t ==> r == Success(t[myPath + p])
      ensures myPath + p !in t ==> r == Failure(NotFound)
    {
      var nodeIter := this;
      var i := 0;
      assert myPath + p[..0] == myPath;
      while i < |p|
        invariant 0 <= i <= |p|
        invariant myPath + p[..i] in t && t[myPath + p[..i]] == nodeIter
        decreases |p| - i
      {
        var next := p[i];
        assert myPath + p[..i + 1] == (myPath + p[..i]) + [next];
        if next in nodeIter.children {
          nodeIter := nodeIter.children[next];
        } else {
          PathsPassChildren(t, k, myPath + p[..i]);
          assert (myPath + p)[..|myPath + p[..i]|] == myPath + p[..i];
          return Failure(NotFound);
        }
        i := i + 1;
      }
      assert p[..i] == p;
      return Success(nodeIter);
    }

    /** The paths of a subtree, in the way getFilesUnder lists them: one entry per node of
        the subtree, every entry being this node's own path. */
    method GetFilesUnder(ghost t: map<Path, Node>, ghost k: map<Path, map<string, Node>>)
      returns (r: seq<Path>)
      requires Shaped(t, k) && Mirrors(t, k) && myPath in t && t[myPath] == this
      modifies this`result
      ensures result == old(result) + Repeat(myPath, if isFile then 1 else |Subtree(t, myPath)|)
      ensures r == result
    {
      if isFile {
        result := result + [myPath];
        return result;
      } else {
        Aux(this, t, k);
        return result;
      }
    }

    /** The recursive walk of getFilesUnder, run on a directory receiver: each node of
        `n`'s subtree appends the receiver's path. */
    method Aux(n: Node, ghost t: map<Path, Node>, ghost k: map<Path, map<string, Node>>)
      requires Shaped(t, k) && Mirrors(t, k) && n.myPath in t && t[n.myPath] == n && !isFile
      modifies this`result
      ensures result == old(result) + Repeat(myPath, |Subtree(t, n.myPath)|)
      decreases Subtree(t, n.myPath)
    {
      var p := n.myPath;
      result := result + [myPath];
      var keys := n.children.Keys;
      CoveredStart(t, p, n.children.Keys);
      assert Repeat(myPath, 1) == [myPath];
      while keys != {}
        invariant keys <= n.children.Keys
        invariant result == old(result) + Repeat(myPath, |Covered(t, p, n.children.Keys - keys)|)
        decreases keys
      {
        var c :| c in keys;
        ghost var done := n.children.Keys - keys;
        ghost var before := result;
        ChildNode(t, k, p, c);
        SubtreeShrinks(t, k, p, c);
        Aux(n.children[c], t, k);
        VisitChild(t, k, p, done, c, old(result), before, result, myPath);
        keys := keys - {c};
        assert n.children.Keys - keys == done + {c};
      }
      CoveredAll(t, k, p);
    }
  }

  /** `k` holds the current children map of every node of `t`. */
  ghost predicate Mirrors(t: map<Path, Node>, k: map<Path, map<string, Node>>)
    reads t.Values`children
  {
    forall q | q in t && q in k :: t[q].children == k[q]
  }

  /** The tree shape of a path-to-node map `t` whose nodes have the children maps `k`:
      it holds the root; each node is mapped under its own path; every child link leads,
      under a valid name, to the node of the extended path; every other path hangs from
      its parent by a child link; files have no children; each node's lock is labelled
      with the node's path, so no two nodes share a lock. */
  ghost predicate Shaped(t: map<Path, Node>, k: map<Path, map<string, Node>>) {
    && t.Keys == k.Keys
    && Root in t
    && (forall p | p in t :: t[p].myPath == p && t[p].lock.home == p)
    && Links(t, k)
    && Parents(t, k)
    && (forall p | p in t && t[p].isFile :: k[p] == map[])
  }

  ghost predicate Links(t: map<Path, Node>, k: map<Path, map<string, Node>>) {
    forall p, c | p in k && c in k[p] :: ValidComponent(c) && p + [c] in t && k[p][c] == t[p + [c]]
  }

  ghost predicate Parents(t: map<Path, Node>, k: map<Path, map<string, Node>>) {
    forall q {:trigger Up(q)} | q in t && q != Root :: Up(q) in k && q[|q| - 1] in k[Up(q)]
  }

  /** The tree is closed under prefixes. */
  lemma {:induction false} PrefixIn(t: map<Path, Node>, k: map<Path, map<string, Node>>, q: Path, i: nat)
    requires Shaped(t, k) && q in t && i <= |q|
    ensures q[..i] in t
    decreases |q|
  {
    if i == |q| {
      assert q[..i] == q;
    } else {
      var u := Up(q);
      assert u in t;
      assert u[..i] == q[..i];
      PrefixIn(t, k, u, i);
    }
  }

  /** `p` itself and the paths below `p` whose next component is in `done`. */
  ghost function Covered<V>(t: map<Path, V>, p: Path, done: set<string>): set<Path> {
    set q | q in t && p <= q && (q == p || q[|p|] in done)
  }

  /** A child link leads to the node of the extended path. */
  lemma ChildNode(t: map<Path, Node>, k: map<Path, map<string, Node>>, p: Path, c: string)
    requires Shaped(t, k) && p in t && c in k[p]
    ensures ValidComponent(c) && p + [c] in t && k[p][c] == t[p + [c]] && t[p + [c]].myPath == p + [c]
  {
  }

  /** A non-root path is in a shaped tree exactly when its parent is and links to it. */
  lemma ChildIff(t: map<Path, Node>, k: map<Path, map<string, Node>>, q: Path)
    requires Shaped(t, k) && q != Root && Up(q) in t
    ensures q in t <==> q[|q| - 1] in k[Up(q)]
    ensures q in t ==> k[Up(q)][q[|q| - 1]] == t[q]
  {
    assert Up(q) + [q[|q| - 1]] == q;
  }

  /** Every path of the tree strictly below `p` passes through a child link of `p`'s node. */
  lemma PathsPassChildren(t: map<Path, Node>, k: map<Path, map<string, Node>>, p: Path)
    requires Shaped(t, k) && p in t
    ensures forall q | q in t && |q| > |p| && q[..|p|] == p :: q[|p|] in k[p]
  {
    forall q | q in t && |q| > |p| && q[..|p|] == p ensures q[|p|] in k[p] {
      var q' := q[..|p| + 1];
      PrefixIn(t, k, q, |p| + 1);
      assert Up(q') == p;
    }
  }

  /** Below a file, or below a path the tree lacks, the tree holds nothing. */
  lemma NothingBelowLeaf(t: map<Path, Node>, k: map<Path, map<string, Node>>, p: Path)
    requires Shaped(t, k) && (p !in t || t[p].isFile)
    ensures forall q | q in t && p <= q :: q == p
  {
    forall q | q in t && p <= q ensures q == p {
      if |q| > |p| {
        PrefixIn(t, k, q, |p|);
        assert q[..|p|] == p;
        PathsPassChildren(t, k, p);
      }
    }
  }

  lemma SubtreeShrinks(t: map<Path, Node>, k: map<Path, map<string, Node>>, p: Path, c: string)
    requires Shaped(t, k) && p in t && c in k[p]
    ensures Subtree(t, p + [c]) < Subtree(t, p)
  {
    assert p in Subtree(t, p) && p !in Subtree(t, p + [c]);
    forall q | q in Subtree(t, p + [c]) ensures q in Subtree(t, p) {
      assert q[..|p|] == (p + [c])[..|p|];
    }
  }

  lemma CoveredCount(t: map<Path, Node>, k: map<Path, map<string, Node>>, p: Path, done: set<string>, c: string)
    requires Shaped(t, k) && p in t && c !in done && c in k[p]
    ensures |Covered(t, p, done + {c})| == |Covered(t, p, done)| + |Subtree(t, p + [c])|
  {
    var a, b := Covered(t, p, done), Subtree(t, p + [c]);
    forall q | q in b ensures q in Covered(t, p, done + {c}) && q !in a {
      assert q[..|p| + 1] == p + [c];
      assert q[|p|] == (p + [c])[|p|];
    }
    forall q | q in Covered(t, p, done + {c}) ensures q in a + b {
      if q != p && q[|p|] == c {
        assert q[..|p| + 1] == q[..|p|] + [q[|p|]];
      }
    }
    assert Covered(t, p, done + {c}) == a + b;
  }

  /** One child visited by the walk: the subtree count adds up. */
  lemma VisitChild(t: map<Path, Node>, k: map<Path, map<string, Node>>, p: Path, done: set<string>,
                   c: string, start: seq<Path>, before: seq<Path>, after: seq<Path>, x: Path)
    requires Shaped(t, k) && p in t && c !in done && c in k[p]
    requires before == start + Repeat(x, |Covered(t, p, done)|)
    requires after == before + Repeat(x, |Subtree(t, p + [c])|)
    ensures after == start + Repeat(x, |Covered(t, p, done + {c})|)
  {
    CoveredCount(t, k, p, done, c);
    RepeatAdd(x, |Covered(t, p, done)|, |Subtree(t, p + [c])|);
  }

  lemma CoveredStart<V>(t: map<Path, V>, p: Path, keys: set<string>)
    ensures |Covered(t, p, keys - keys)| == (if p in t then 1 else 0)
  {
    assert keys - keys == {};
    if p in t {
      assert Covered(t, p, {}) == {p};
    } else {
      assert Covered(t, p, {}) == {};
    }
  }

  /** Once every child has been visited the covered paths are the whole subtree. */
  lemma CoveredAll(t: map<Path, Node>, k: map<Path, map<string, Node>>, p: Path)
    requires Shaped(t, k) && p in t
    ensures Covered(t, p, k[p].Keys - {}) == Subtree(t, p)
  {
    assert k[p].Keys - {} == k[p].Keys;
    PathsPassChildren(t, k, p);
  }

  /** Attaching a fresh childless node `n` at `q`, under a directory, where the tree had
      nothing or a file, keeps the tree shaped. */
  lemma Attach(t: map<Path, Node>, k: map<Path, map<string, Node>>, q: Path, n: Node)
    requires Shaped(t, k) && q != Root && Up(q) in t && !t[Up(q)].isFile
    requires q !in t || t[q].isFile
    requires n.myPath == q && n.lock.home == q
    ensures Shaped(t[q := n], k[Up(q) := k[Up(q)][q[|q| - 1] := n]][q := map[]])
  {
    NothingBelowLeaf(t, k, q);
    AttachLinks(t, k, q, n);
    AttachParents(t, k, q, n);
  }

  lemma AttachLinks(t: map<Path, Node>, k: map<Path, map<string, Node>>, q: Path, n: Node)
    requires t.Keys == k.Keys && Links(t, k) && q != Root && Up(q) in t
    requires forall r | r in t && q <= r :: r == q
    requires q in t ==> k[q] == map[]
    ensures Links(t[q := n], k[Up(q) := k[Up(q)][q[|q| - 1] := n]][q := map[]])
  {
    var u, c := Up(q), q[|q| - 1];
    assert u + [c] == q;
    var t', k' := t[q := n], k[u := k[u][c := n]][q := map[]];
    forall p, d | p in k' && d in k'[p]
      ensures ValidComponent(d) && p + [d] in t' && k'[p][d] == t'[p + [d]]
    {
      if p == u && d == c {
        assert ValidComponent(q[|q| - 1]);
      } else {
        assert p != q && d in k[p];
        assert p + [d] != q;
      }
    }
  }

  lemma AttachParents(t: map<Path, Node>, k: map<Path, map<string, Node>>, q: Path, n: Node)
    requires t.Keys == k.Keys && Parents(t, k) && q != Root && Up(q) in t
    requires forall r | r in t && q <= r :: r == q
    ensures Parents(t[q := n], k[Up(q) := k[Up(q)][q[|q| - 1] := n]][q := map[]])
  {
    var u, c := Up(q), q[|q| - 1];
    var t', k' := t[q := n], k[u := k[u][c := n]][q := map[]];
    forall r | r in t' && r != Root ensures Up(r) in k' && r[|r| - 1] in k'[Up(r)] {
      if r != q {
        assert r in t;
        assert Up(r) != q;
      }
    }
  }

  /** Removing the subtree at `q` and its parent's link to it keeps the tree shaped. */
  lemma Detach(t: map<Path, Node>, k: map<Path, map<string, Node>>, q: Path)
    requires Shaped(t, k) && q in t && q != Root
    ensures Up(q) in Prune(k, q)
    ensures Shaped(Prune(t, q), Prune(k, q)[Up(q) := Prune(k, q)[Up(q)] - {q[|q| - 1]}])
  {
    DetachLinks(t, k, q);
    DetachParents(t, k, q);
  }

  lemma DetachLinks(t: map<Path, Node>, k: map<Path, map<string, Node>>, q: Path)
    requires t.Keys == k.Keys && Links(t, k) && q in t && q != Root && Up(q) in t
    ensures Links(Prune(t, q), Prune(k, q)[Up(q) := Prune(k, q)[Up(q)] - {q[|q| - 1]}])
  {
    var u, c := Up(q), q[|q| - 1];
    assert u + [c] == q;
    var t', k' := Prune(t, q), Prune(k, q)[u := Prune(k, q)[u] - {c}];
    forall p, d | p in k' && d in k'[p]
      ensures ValidComponent(d) && p + [d] in t' && k'[p][d] == t'[p + [d]]
    {
      assert d in k[p] && !(q <= p);
      ExtensionPrefix(q, p, d);
      SnocInjective(p, d, u, c);
    }
  }

  lemma DetachParents(t: map<Path, Node>, k: map<Path, map<string, Node>>, q: Path)
    requires t.Keys == k.Keys && Parents(t, k) && q in t && q != Root && Up(q) in t
    ensures Parents(Prune(t, q), Prune(k, q)[Up(q) := Prune(k, q)[Up(q)] - {q[|q| - 1]}])
  {
    var u, c := Up(q), q[|q| - 1];
    var t', k' := Prune(t, q), Prune(k, q)[u := Prune(k, q)[u] - {c}];
    forall r | r in t' && r != Root ensures Up(r) in k' && r[|r| - 1] in k'[Up(r)] {
      assert r in t && !(q <= r);
      assert !(q <= Up(r));
      assert r == Up(r) + [r[|r| - 1]];
      SnocInjective(Up(r), r[|r| - 1], u, c);
    }
  }

  lemma ExtensionPrefix(q: Path, p: Path, d: string)
    ensures q <= p + [d] <==> q <= p || q == p + [d]
  {
    if q <= p + [d] && |q| <= |p| {
      assert q == (p + [d])[..|q|] == p[..|q|];
    }
  }

  lemma SnocInjective<T>(p: seq<T>, d: T, u: seq<T>, c: T)
    ensures p + [d] == u + [c] <==> p == u && d == c
  {
    if p + [d] == u + [c] {
      assert p == (p + [d])[..|p|] == (u + [c])[..|u|] == u;
      assert d == (p + [d])[|p|] == (u + [c])[|u|] == c;
    }
  }

  /** A file's subtree is the file alone. */
  lemma FileSubtree(t: map<Path, Node>, k: map<Path, map<string, Node>>, p: Path)
    requires Shaped(t, k) && p in t && t[p].isFile
    ensures Subtree(t, p) == {p}
  {
    NothingBelowLeaf(t, k, p);
  }
}
