/** Distributed filesystem paths: an immutable sequence of components, the empty
    sequence being the root directory. The forward slash separates components and the
    colon is reserved, so neither may occur inside a component. */
module Paths {
  import opened Wrappers

  /** A component is non-empty and holds neither the separator nor the colon. */
  predicate ValidComponent(c: string) {
    |c| > 0 && '/' !in c && ':' !in c
  }

  predicate ValidComponents(cs: seq<string>) {
    forall i | 0 <= i < |cs| :: ValidComponent(cs[i])
  }

  /** Every Path the constructors can build has valid components only. */
  type Path = cs: seq<string> | ValidComponents(cs) witness []

  /** Path(): the root directory. */
  const Root: Path := []

  /** Path(path, component): rejects an empty component and one holding '/' or ':'. */
  function Append(p: Path, c: string): (r: Result<Path>)
    ensures r.Success? <==> ValidComponent(c)
    ensures r.Failure? ==> r.error == InvalidArgument
    ensures r.Success? ==> |r.value| == |p| + 1 && r.value[..|p|] == p && r.value[|p|] == c
  {
    if |c| == 0 || '/' in c || ':' in c then Failure(InvalidArgument)
    else Success(p + [c])
  }

  /** The segments of `s` between separators, empty ones included (what String.split
      yields before the empty segments are dropped). */
  function Split(s: string): (r: seq<string>)
    ensures |r| > 0
    ensures forall i | 0 <= i < |r| :: '/' !in r[i]
  {
    if s == [] then [[]]
    else
      var rest := Split(s[1..]);
      if s[0] == '/' then [[]] + rest else [[s[0]] + rest[0]] + rest[1..]
  }

  /** Re-inserts the separators between segments. */
  function Join(segs: seq<string>): string
    requires |segs| > 0
  {
    if |segs| == 1 then segs[0] else segs[0] + "/" + Join(segs[1..])
  }

  /** The non-empty segments, in their original order. */
  function NonEmpty(segs: seq<string>): (r: seq<string>)
    ensures forall x :: x in r <==> x in segs && x != []
    ensures |r| <= |segs|
  {
    if segs == [] then []
    else (if segs[0] == [] then [] else [segs[0]]) + NonEmpty(segs[1..])
  }

  /** Filtering distributes over concatenation: the kept segments of `a + b` are those of
      `a` followed by those of `b`, so the filter keeps order and multiplicity. */
  lemma {:induction false} NonEmptyAppend(a: seq<string>, b: seq<string>)
    ensures NonEmpty(a + b) == NonEmpty(a) + NonEmpty(b)
    decreases |a|
  {
    if a == [] {
      assert a + b == b;
    } else {
      assert (a + b)[0] == a[0] && (a + b)[1..] == a[1..] + b;
      NonEmptyAppend(a[1..], b);
    }
  }

  /** A single segment is kept exactly when it is non-empty. */
  lemma NonEmptyOne(x: string)
    ensures NonEmpty([x]) == (if x == [] then [] else [x])
  {
  }

  /** Path(String): the string must be non-empty, begin with '/' and hold no ':'. */
  function Parse(s: string): (r: Result<Path>)
    ensures r.Success? <==> |s| > 0 && s[0] == '/' && ':' !in s
    ensures r.Failure? ==> r.error == InvalidArgument
    ensures r.Success? ==> r.value == NonEmpty(Split(s))
  {
    if s == [] || s[0] != '/' || ':' in s then Failure(InvalidArgument)
    else
      var cs := NonEmpty(Split(s));
      assert ValidComponents(cs) by {
        var segs := Split(s);
        SplitChars(s);
        forall i | 0 <= i < |cs| ensures ValidComponent(cs[i]) {
          assert cs[i] in segs;
          var j :| 0 <= j < |segs| && segs[j] == cs[i];
        }
      }
      Success(cs)
  }

  /** isRoot(). */
  predicate IsRoot(p: Path) {
    |p| == 0
  }

  /** parent(): every component but the last; the root has no parent. */
  function Parent(p: Path): (r: Result<Path>)
    ensures r.Failure? <==> IsRoot(p)
    ensures r.Failure? ==> r.error == InvalidArgument
    ensures r.Success? ==> |r.value| + 1 == |p| && r.value <= p
  {
    if IsRoot(p) then Failure(InvalidArgument) else Success(p[..|p| - 1])
  }

  /** The path one component up, for a path known not to be the root. */
  function Up(q: Path): (r: Path)
    requires q != Root
    ensures |r| + 1 == |q| && r <= q
    ensures Parent(q) == Success(r)
  {
    q[..|q| - 1]
  }

  /** The first `i` components of `p`. */
  function Prefix(p: Path, i: nat): (r: Path)
    requires i <= |p|
    ensures |r| == i && r <= p
  {
    p[..i]
  }

  /** One component more of `p`. */
  lemma PrefixStep(p: Path, i: nat)
    requires i < |p|
    ensures Prefix(p, i + 1) == Prefix(p, i) + [p[i]]
    ensures Prefix(p, i + 1) != Root && Up(Prefix(p, i + 1)) == Prefix(p, i)
    ensures Prefix(p, i + 1)[i] == p[i]
  {
  }

  lemma PrefixEnds(p: Path)
    ensures Prefix(p, 0) == Root && Prefix(p, |p|) == p
  {
  }

  /** last(): the final component; the root has none. */
  function Last(p: Path): (r: Result<string>)
    ensures r.Failure? <==> IsRoot(p)
    ensures r.Failure? ==> r.error == InvalidArgument
    ensures r.Success? ==> ValidComponent(r.value) && r.value == p[|p| - 1]
  {
    if IsRoot(p) then Failure(InvalidArgument) else Success(p[|p| - 1])
  }

  /** The component-by-component comparison loop of isSubpath: does `b` match `a`
      from the start? */
  function Matches(a: seq<string>, b: seq<string>): (r: bool)
    requires |b| <= |a|
    ensures r <==> b <= a
  {
    b == [] || (a[0] == b[0] && Matches(a[1..], b[1..]))
  }

  /** isSubpath(other): `other` is a prefix of this path. */
  function IsSubpath(p: Path, other: Path): (r: bool)
    ensures r <==> other <= p
  {
    if |p| < |other| then false else Matches(p, other)
  }

  /** The comparison loop of equals: the two sequences agree position by position. */
  function Same(a: seq<string>, b: seq<string>): (r: bool)
    requires |a| == |b|
    ensures r <==> a == b
  {
    a == [] || (a[0] == b[0] && Same(a[1..], b[1..]))
  }

  /** equals(other): same length and the same components. */
  function Equals(p: Path, other: Path): (r: bool)
    ensures r <==> p == other
  {
    if |p| != |other| then false else Same(p, other)
  }

  /** Each component prefixed with the separator. */
  function Slashed(cs: seq<string>): string {
    if cs == [] then "" else "/" + cs[0] + Slashed(cs[1..])
  }

  /** toString(): "/" for the root, otherwise "/c1/c2/...". */
  function Render(p: Path): (r: string)
    ensures |r| > 0 && r[0] == '/'
  {
    if IsRoot(p) then "/" else Slashed(p)
  }

  // ---------------------------------------------------------------------------
  // Lemmas

  /** Every character of a segment comes from the input. */
  lemma {:induction false} SplitChars(s: string)
    ensures forall i, ch | 0 <= i < |Split(s)| && ch in Split(s)[i] :: ch in s
  {
    if s != [] {
      SplitChars(s[1..]);
      var rest := Split(s[1..]);
      forall i, ch | 0 <= i < |Split(s)| && ch in Split(s)[i] ensures ch in s {
        if s[0] == '/' {
          assert i > 0 && Split(s)[i] == rest[i - 1];
          assert ch in s[1..];
        } else if i == 0 {
          assert Split(s)[0] == [s[0]] + rest[0];
          assert ch == s[0] || ch in s[1..];
        } else {
          assert Split(s)[i] == rest[i];
          assert ch in s[1..];
        }
      }
    }
  }

  /** Split is undone by Join: no character of the input is lost or invented. */
  lemma {:induction false} SplitJoin(s: string)
    ensures Join(Split(s)) == s
  {
    if s != [] {
      var rest := Split(s[1..]);
      SplitJoin(s[1..]);
      if s[0] == '/' {
        assert Split(s) == [[]] + rest;
        assert Split(s)[1..] == rest;
        assert Join(Split(s)) == [] + "/" + Join(rest);
      } else {
        var r := Split(s);
        assert r == [[s[0]] + rest[0]] + rest[1..];
        if |rest| == 1 {
          assert Join(r) == [s[0]] + rest[0];
          assert Join(rest) == rest[0];
        } else {
          assert r[1..] == rest[1..];
          assert Join(r) == [s[0]] + rest[0] + "/" + Join(rest[1..]);
          assert Join(rest) == rest[0] + "/" + Join(rest[1..]);
        }
        assert s == [s[0]] + s[1..];
      }
    }
  }

  /** A separator-free prefix glues onto the first segment of what follows. */
  lemma {:induction false} SplitPrefix(c: string, t: string)
    requires '/' !in c
    ensures Split(c + t) == [c + Split(t)[0]] + Split(t)[1..]
  {
    if c == [] {
      assert c + t == t;
      assert c + Split(t)[0] == Split(t)[0];
      assert [Split(t)[0]] + Split(t)[1..] == Split(t);
    } else {
      assert (c + t)[0] == c[0] && (c + t)[1..] == c[1..] + t;
      SplitPrefix(c[1..], t);
      assert [c[0]] + (c[1..] + Split(t)[0]) == c + Split(t)[0];
    }
  }

  lemma {:induction false} SplitSlashed(cs: seq<string>)
    requires forall i | 0 <= i < |cs| :: '/' !in cs[i]
    ensures Split(Slashed(cs)) == [[]] + cs
  {
    if cs != [] {
      var rest := Slashed(cs[1..]);
      SplitSlashed(cs[1..]);
      var s := Slashed(cs);
      assert s == "/" + (cs[0] + rest);
      assert s[0] == '/' && s[1..] == cs[0] + rest;
      SplitPrefix(cs[0], rest);
      assert Split(cs[0] + rest) == [cs[0] + []] + cs[1..];
      assert cs[0] + [] == cs[0];
      assert [cs[0]] + cs[1..] == cs;
    }
  }

  lemma {:induction false} SlashedNoColon(cs: seq<string>)
    requires forall i | 0 <= i < |cs| :: ':' !in cs[i]
    ensures ':' !in Slashed(cs)
  {
    if cs != [] {
      SlashedNoColon(cs[1..]);
      assert Slashed(cs) == "/" + cs[0] + Slashed(cs[1..]);
    }
  }

  lemma {:induction false} NonEmptyKeeps(cs: seq<string>)
    requires forall i | 0 <= i < |cs| :: cs[i] != []
    ensures NonEmpty(cs) == cs
  {
    if cs != [] {
      NonEmptyKeeps(cs[1..]);
      assert [cs[0]] + cs[1..] == cs;
    }
  }

  /** toString() is accepted back by Path(String) and gives the same path. */
  lemma RenderParse(p: Path)
    ensures Parse(Render(p)) == Success(p)
  {
    var s := Render(p);
    if IsRoot(p) {
      assert s == "/";
      assert Split(s) == [[]] + Split(s[1..]);
      assert s[1..] == [];
      assert Split(s) == [[], []];
      assert NonEmpty(Split(s)) == [];
    } else {
      SplitSlashed(p);
      SlashedNoColon(p);
      assert NonEmpty([[]] + p) == NonEmpty(p);
      NonEmptyKeeps(p);
    }
  }

  /** Parsing is canonical: re-rendering a parsed path and parsing again changes nothing. */
  lemma ParseCanonical(s: string)
    requires Parse(s).Success?
    ensures Parse(Render(Parse(s).value)) == Parse(s)
  {
    RenderParse(Parse(s).value);
  }

  /** Empty segments collapse: "/a//b/" and "/a/b" name the same path. */
  lemma EmptySegmentsCollapse()
    ensures Parse("/a//b/") == Parse("/a/b") == Success(["a", "b"])
  {
    SplitDoubled();
    SplitPlain();
    assert NonEmpty([[], "a", [], "b", []]) == ["a", "b"];
    assert NonEmpty([[], "a", "b"]) == ["a", "b"];
  }

  lemma SplitTail()
    ensures Split("b/") == ["b", []]
  {
    assert Split("/") == [[], []] by { assert Split("") == [[]]; assert "/"[1..] == ""; }
    assert "b/"[1..] == "/";
    assert ['b'] + [] == "b";
  }

  lemma SplitDoubled()
    ensures Split("/a//b/") == [[], "a", [], "b", []]
  {
    SplitTail();
    assert Split("/b/") == [[], "b", []] by { assert "/b/"[1..] == "b/"; }
    assert Split("//b/") == [[], [], "b", []] by { assert "//b/"[1..] == "/b/"; }
    assert Split("a//b/") == ["a", [], "b", []] by { assert "a//b/"[1..] == "//b/"; assert ['a'] + [] == "a"; }
    assert "/a//b/"[1..] == "a//b/";
  }

  lemma SplitPlain()
    ensures Split("/a/b") == [[], "a", "b"]
  {
    assert Split("b") == ["b"] by { assert Split("") == [[]]; assert "b"[1..] == ""; assert ['b'] + [] == "b"; }
    assert Split("/b") == [[], "b"] by { assert "/b"[1..] == "b"; }
    assert Split("a/b") == ["a", "b"] by { assert "a/b"[1..] == "/b"; assert ['a'] + [] == "a"; }
    assert "/a/b"[1..] == "a/b";
  }

  /** A non-root path is its parent extended by its last component. */
  lemma ParentLastRebuild(p: Path)
    requires !IsRoot(p)
    ensures Append(Parent(p).value, Last(p).value) == Success(p)
  {
    assert p[..|p| - 1] + [p[|p| - 1]] == p;
  }

  /** Every path is a subpath of itself. */
  lemma SubpathReflexive(p: Path)
    ensures IsSubpath(p, p)
  {
  }

  lemma SubpathTransitive(p: Path, q: Path, r: Path)
    requires IsSubpath(p, q) && IsSubpath(q, r)
    ensures IsSubpath(p, r)
  {
  }

  /** Every path lies below the root. */
  lemma SubpathOfRoot(p: Path)
    ensures IsSubpath(p, Root)
  {
  }

  // ---------------------------------------------------------------------------
  // Path-keyed collections

  /** The paths of `t` at or below `p`. */
  function Subtree<V>(t: map<Path, V>, p: Path): set<Path> {
    set q | q in t && p <= q
  }

  /** `m` without the paths at or below `p`. */
  function Prune<V>(m: map<Path, V>, p: Path): (r: map<Path, V>)
    ensures forall q :: q in r <==> q in m && !(p <= q)
    ensures forall q | q in r :: r[q] == m[q]
  {
    map q | q in m && !(p <= q) :: m[q]
  }

  function Repeat<T>(x: T, n: nat): (r: seq<T>)
    ensures |r| == n && forall i | 0 <= i < n :: r[i] == x
  {
    if n == 0 then [] else [x] + Repeat(x, n - 1)
  }

  lemma RepeatAdd<T>(x: T, a: nat, b: nat)
    ensures Repeat(x, a) + Repeat(x, b) == Repeat(x, a + b)
  {
    assert |Repeat(x, a) + Repeat(x, b)| == a + b;
  }

}
