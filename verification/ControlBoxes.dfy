/** The ordering of controlsets in a dialog description (dialog.c): a flat array that stays
    grouped like a tree. */
module ControlBoxes {
  import opened CText
  import opened Wrappers

  const INT_MAX: int := 0x7FFF_FFFF

  /** A control path: '/'-separated, NUL-free, short enough for its elements to be counted. */
  type Path = p: seq<byte> | NulFree(p) && |p| < INT_MAX - 1

  // ---------------------------------------------------------------- path elements

  function Elements(p: seq<byte>): (e: seq<seq<byte>>)
    ensures 0 < |e| <= |p| + 1
  {
    if p == [] then [[]]
    else
      var rest := Elements(p[1..]);
      if p[0] == SLASH then [[]] + rest else [[p[0]] + rest[0]] + rest[1..]
  }

  function Join(e: seq<seq<byte>>): seq<byte> {
    if e == [] then []
    else if |e| == 1 then e[0]
    else e[0] + [SLASH] + Join(e[1..])
  }

  /** The elements are what stands between the slashes. */
  lemma {:induction false} JoinInvertsElements(p: seq<byte>)
    ensures Join(Elements(p)) == p
    ensures forall i | 0 <= i < |Elements(p)| :: SLASH !in Elements(p)[i]
  {
    if p != [] {
      JoinInvertsElements(p[1..]);
      var rest := Elements(p[1..]);
      if p[0] == SLASH {
        assert ([[]] + rest)[1..] == rest;
      } else {
        var e := [[p[0]] + rest[0]] + rest[1..];
        assert e[1..] == rest[1..];
      }
    }
  }

  /** How many leading elements two lists share. */
  function Common<T(==)>(e: seq<T>, f: seq<T>): (n: nat)
    ensures n <= |e| && n <= |f| && e[..n] == f[..n]
    ensures n < |e| && n < |f| ==> e[n] != f[n]
  {
    if e == [] || f == [] || e[0] != f[0] then 0
    else
      var n := Common(e[1..], f[1..]);
      assert e[..n + 1] == [e[0]] + e[1..][..n] && f[..n + 1] == [f[0]] + f[1..][..n];
      1 + n
  }

  lemma CommonIsLongest<T>(e: seq<T>, f: seq<T>, n: nat)
    requires n <= |e| && n <= |f| && e[..n] == f[..n]
    ensures n <= Common(e, f)
  {
    forall i | 0 <= i < n
      ensures e[i] == f[i]
    {
      assert e[..n][i] == f[..n][i];
    }
  }

  /** How closely two paths are related: the number of leading elements they share, or INT_MAX
      for equal paths. */
  function Kinship(p: seq<byte>, q: seq<byte>): int {
    if p == q then INT_MAX else Common(Elements(p), Elements(q))
  }

  function CharAt(p: seq<byte>, i: nat): byte {
    if i < |p| then p[i] else NUL
  }

  predicate Boundary(c: byte) {
    c == SLASH || c == NUL
  }

  function Matched(p: seq<byte>, q: seq<byte>): nat {
    if Boundary(CharAt(p, 0)) && Boundary(CharAt(q, 0)) then 1 else 0
  }

  /** The comparison of ctrl_path_compare, character by character. */
  lemma {:induction false} ElementsCharByChar(p: seq<byte>, q: seq<byte>)
    requires NulFree(p) && NulFree(q) && p != q
    ensures CharAt(p, 0) != CharAt(q, 0) ==> Common(Elements(p), Elements(q)) == Matched(p, q)
    ensures CharAt(p, 0) == CharAt(q, 0) ==>
      && p != [] && q != [] && p[1..] != q[1..]
      && Common(Elements(p), Elements(q)) == Matched(p, q) + Common(Elements(p[1..]), Elements(q[1..]))
  {
    var e, f := Elements(p), Elements(q);
    if CharAt(p, 0) == CharAt(q, 0) {
      assert p == [p[0]] + p[1..] && q == [q[0]] + q[1..];
      var e', f' := Elements(p[1..]), Elements(q[1..]);
      if p[0] == SLASH {
        assert e[1..] == e' && f[1..] == f';
      } else {
        assert e[1..] == e'[1..] && f[1..] == f'[1..];
        assert e[0][1..] == e'[0] && f[0][1..] == f'[0];
      }
    } else if Boundary(CharAt(p, 0)) && Boundary(CharAt(q, 0)) {
      assert e[0] == [] && f[0] == [];
      assert p == [] ==> e[1..] == [];
      assert q == [] ==> f[1..] == [];
    } else {
      assert (e[0] == []) == Boundary(CharAt(p, 0)) && (f[0] == []) == Boundary(CharAt(q, 0));
      assert e[0] != [] ==> e[0][0] == p[0];
      assert f[0] != [] ==> f[0][0] == q[0];
    }
  }

  /** One step of the comparison at index `k`. */
  lemma CompareStep(p: seq<byte>, q: seq<byte>, k: nat)
    requires NulFree(p) && NulFree(q) && k <= |p| && k <= |q| && p[k..] != q[k..]
    ensures var hit := if Boundary(CharAt(p, k)) && Boundary(CharAt(q, k)) then 1 else 0;
            var here := Common(Elements(p[k..]), Elements(q[k..]));
            if CharAt(p, k) != CharAt(q, k) then here == hit
            else k < |p| && k < |q| && p[k + 1..] != q[k + 1..]
                 && here == hit + Common(Elements(p[k + 1..]), Elements(q[k + 1..]))
  {
    hide Elements, Common;
    assert CharAt(p[k..], 0) == CharAt(p, k) && CharAt(q[k..], 0) == CharAt(q, k);
    ElementsCharByChar(p[k..], q[k..]);
    if CharAt(p, k) == CharAt(q, k) {
      assert p[k..][1..] == p[k + 1..] && q[k..][1..] == q[k + 1..];
    }
  }

  method CtrlPathCompare(p1: Path, p2: Path) returns (n: int)
    ensures n == Kinship(p1, p2)
  {
    hide Elements, Common;
    var i, k := 0, 0;
    assert p1[0..] == p1 && p2[0..] == p2;
    while CharAt(p1, k) != NUL || CharAt(p2, k) != NUL
      invariant 0 <= k <= |p1| && k <= |p2| && p1[..k] == p2[..k]
      invariant p1 != p2 ==> p1[k..] != p2[k..] && Kinship(p1, p2) == i + Common(Elements(p1[k..]), Elements(p2[k..]))
      decreases |p1| - k
    {
      if p1 != p2 {
        CompareStep(p1, p2, k);
      }
      if Boundary(CharAt(p1, k)) && Boundary(CharAt(p2, k)) {
        i := i + 1;
      }
      if CharAt(p1, k) != CharAt(p2, k) {
        return i;
      }
      k := k + 1;
    }
    assert p1[..k] == p1 && p2[..k] == p2;
    return INT_MAX;
  }

  // ---------------------------------------------------------------- kinship is an ultrametric

  lemma KinshipIsSymmetric(p: seq<byte>, q: seq<byte>)
    ensures Kinship(p, q) == Kinship(q, p)
  {
    var e, f := Elements(p), Elements(q);
    CommonIsLongest(f, e, Common(e, f));
    CommonIsLongest(e, f, Common(f, e));
  }

  lemma KinshipIsBounded(p: Path, q: Path)
    ensures 0 <= Kinship(p, q) <= INT_MAX
    ensures Kinship(p, q) == INT_MAX <==> p == q
  {
  }

  /** Two relatives of `q` are as closely related to each other as the more distant of them is to `q`. */
  lemma KinshipIsUltrametric(p: Path, q: Path, r: Path)
    ensures Kinship(p, r) >= Kinship(p, q) || Kinship(p, r) >= Kinship(q, r)
  {
    if p != q && q != r && p != r {
      var e, f, g := Elements(p), Elements(q), Elements(r);
      var m, n := Common(e, f), Common(f, g);
      var k := if m < n then m else n;
      assert e[..k] == e[..m][..k] == f[..m][..k] == f[..k];
      assert g[..k] == g[..n][..k] == f[..n][..k] == f[..k];
      CommonIsLongest(e, g, k);
    }
  }

  // ---------------------------------------------------------------- grouped arrays of paths

  /** Between two paths stands nothing less related to the first than the second is. */
  ghost predicate Grouped(ps: seq<Path>) {
    forall i, j, k | 0 <= i <= j <= k < |ps| :: Kinship(ps[i], ps[k]) <= Kinship(ps[i], ps[j])
  }

  /** What that means: the paths under any prefix stand together, and so do equal paths. */
  lemma GroupedMeansContiguous(ps: seq<Path>, q: seq<seq<byte>>, i: nat, j: nat, k: nat)
    requires Grouped(ps) && i <= j <= k < |ps|
    ensures q <= Elements(ps[i]) && q <= Elements(ps[k]) ==> q <= Elements(ps[j])
    ensures ps[i] == ps[k] ==> ps[j] == ps[i]
  {
    var e, f, g := Elements(ps[i]), Elements(ps[j]), Elements(ps[k]);
    KinshipIsBounded(ps[i], ps[j]);
    assert Kinship(ps[i], ps[k]) <= Kinship(ps[i], ps[j]);
    if q <= e && q <= g && ps[i] != ps[j] {
      var n := |q|;
      assert e[..n] == q == g[..n];
      CommonIsLongest(e, g, n);
      var m := Common(e, f);
      assert n <= m;
      assert f[..n] == f[..m][..n] == e[..m][..n] == e[..n];
    }
  }

  /** In a grouped array the kinship with any path has one peak. */
  lemma OnePeak(ps: seq<Path>, x: Path, a: nat, j: nat, k: nat)
    requires Grouped(ps) && a <= j <= k < |ps|
    ensures Kinship(x, ps[j]) >= Kinship(x, ps[a]) || Kinship(x, ps[j]) >= Kinship(x, ps[k])
  {
    hide Kinship;
    KinshipIsUltrametric(ps[a], x, ps[k]);
    KinshipIsUltrametric(x, ps[a], ps[j]);
    KinshipIsSymmetric(x, ps[a]);
    assert Kinship(ps[a], ps[k]) <= Kinship(ps[a], ps[j]);
  }

  function Inserted<T>(s: seq<T>, at: nat, x: T): (r: seq<T>)
    requires at <= |s|
    ensures |r| == |s| + 1 && r[at] == x && r[..at] == s[..at] && r[at + 1..] == s[at..]
  {
    s[..at] + [x] + s[at..]
  }

  /** Where a path may be put in: after a climb of the kinship, and at the end, in front of an
      equal path, or at the first drop. */
  ghost predicate GoodPlace(ps: seq<Path>, x: Path, at: nat)
    requires at <= |ps|
  {
    && (forall i, j | 0 <= i <= j < at :: Kinship(x, ps[i]) <= Kinship(x, ps[j]))
    && (at == |ps| || ps[at] == x || (at > 0 && Kinship(x, ps[at - 1]) > Kinship(x, ps[at])))
  }

  lemma FallsAfter(ps: seq<Path>, x: Path, at: nat, j: nat, k: nat)
    requires Grouped(ps) && at <= j <= k < |ps| && GoodPlace(ps, x, at)
    ensures Kinship(x, ps[k]) <= Kinship(x, ps[j])
  {
    hide Kinship;
    if ps[at] == x {
      KinshipIsBounded(x, ps[at]);
      KinshipIsBounded(x, ps[k]);
      OnePeak(ps, x, at, j, k);
    } else {
      OnePeak(ps, x, at - 1, j, k);
      OnePeak(ps, x, at - 1, at, j);
    }
  }

  lemma BetweenNeighbours(ps: seq<Path>, x: Path, at: nat, i: nat, k: nat)
    requires Grouped(ps) && i < at <= k < |ps| && GoodPlace(ps, x, at)
    ensures Kinship(ps[i], ps[k]) <= Kinship(ps[i], x)
  {
    hide Kinship;
    KinshipIsSymmetric(x, ps[i]);
    if ps[at] == x {
      assert Kinship(ps[i], ps[k]) <= Kinship(ps[i], ps[at]);
    } else if Kinship(ps[i], ps[k]) > Kinship(ps[i], x) {
      SameKinship(ps, x, i, at - 1, k);
      SameKinship(ps, x, i, at, k);
      assert false;
    }
  }

  /** Relatives closer to each other than to `x` are equally related to `x`. */
  lemma SameKinship(ps: seq<Path>, x: Path, i: nat, j: nat, k: nat)
    requires Grouped(ps) && i <= j <= k < |ps| && Kinship(ps[i], ps[k]) > Kinship(ps[i], x)
    ensures Kinship(x, ps[j]) == Kinship(x, ps[i])
  {
    hide Kinship;
    assert Kinship(ps[i], ps[k]) <= Kinship(ps[i], ps[j]);
    KinshipIsUltrametric(x, ps[i], ps[j]);
    KinshipIsUltrametric(ps[i], ps[j], x);
    KinshipIsSymmetric(x, ps[i]);
    KinshipIsSymmetric(x, ps[j]);
  }

  lemma InsertKeepsGrouped(ps: seq<Path>, x: Path, at: nat)
    requires Grouped(ps) && at <= |ps| && GoodPlace(ps, x, at)
    ensures Grouped(Inserted(ps, at, x))
  {
    hide Kinship;
    var qs: seq<Path> := Inserted(ps, at, x);
    forall i, j, k | 0 <= i <= j <= k < |qs|
      ensures Kinship(qs[i], qs[k]) <= Kinship(qs[i], qs[j])
    {
      InsertedTriple(ps, x, at, i, j, k);
    }
  }

  lemma InsertedAt<T>(s: seq<T>, at: nat, x: T, i: nat)
    requires at <= |s| && i <= |s|
    ensures |Inserted(s, at, x)| == |s| + 1
    ensures Inserted(s, at, x)[i] == if i < at then s[i] else if i == at then x else s[i - 1]
  {
  }

  lemma GroupedAt(ps: seq<Path>, i: nat, j: nat, k: nat)
    requires Grouped(ps) && i <= j <= k < |ps|
    ensures Kinship(ps[i], ps[k]) <= Kinship(ps[i], ps[j])
  {
  }

  lemma ClimbsBefore(ps: seq<Path>, x: Path, at: nat, i: nat, j: nat)
    requires at <= |ps| && GoodPlace(ps, x, at) && i <= j < at
    ensures Kinship(ps[i], x) <= Kinship(ps[i], ps[j])
  {
    hide Kinship;
    KinshipIsSymmetric(x, ps[i]);
    KinshipIsUltrametric(ps[i], x, ps[j]);
  }

  lemma InsertedTriple(ps: seq<Path>, x: Path, at: nat, i: nat, j: nat, k: nat)
    requires Grouped(ps) && at <= |ps| && GoodPlace(ps, x, at) && i <= j <= k <= |ps|
    ensures |Inserted(ps, at, x)| == |ps| + 1
    ensures var qs := Inserted(ps, at, x); Kinship(qs[i], qs[k]) <= Kinship(qs[i], qs[j])
  {
    hide Kinship, Inserted, Grouped, GoodPlace;
    InsertedAt(ps, at, x, i);
    InsertedAt(ps, at, x, j);
    InsertedAt(ps, at, x, k);
    if j == i {
      KinshipIsBounded(Inserted(ps, at, x)[i], Inserted(ps, at, x)[k]);
      KinshipIsBounded(Inserted(ps, at, x)[i], Inserted(ps, at, x)[j]);
    } else if i == at {
      FallsAfter(ps, x, at, j - 1, k - 1);
    } else if k == at {
      if j < at {
        ClimbsBefore(ps, x, at, i, j);
      }
    } else if j == at {
      BetweenNeighbours(ps, x, at, i, k - 1);
    } else {
      GroupedAt(ps, if i < at then i else i - 1, if j < at then j else j - 1, if k < at then k else k - 1);
    }
  }

  // ---------------------------------------------------------------- ctrl_find_set

  /** The first index from `i` on at which the search stops. */
  function FindFrom(ps: seq<Path>, path: Path, start: bool, i: nat, last: int): (r: nat)
    requires i <= |ps|
    ensures i <= r <= |ps|
    decreases |ps| - i
  {
    if i == |ps| then i
    else
      var thisone := Kinship(path, ps[i]);
      if (start && thisone == INT_MAX) || thisone < last then i
      else FindFrom(ps, path, start, i + 1, thisone)
  }

  function FindSet(ps: seq<Path>, path: Path, start: bool): (r: nat)
    ensures r <= |ps|
  {
    FindFrom(ps, path, start, 0, 0)
  }

  lemma {:induction false} FindFromClimbs(ps: seq<Path>, x: Path, start: bool, i: nat)
    requires i <= |ps|
    requires forall a, b | 0 <= a <= b < i :: Kinship(x, ps[a]) <= Kinship(x, ps[b])
    requires start ==> forall a | 0 <= a < i :: ps[a] != x
    ensures var last := if i == 0 then 0 else Kinship(x, ps[i - 1]);
            var r := FindFrom(ps, x, start, i, last);
            && (forall a, b | 0 <= a <= b < r :: Kinship(x, ps[a]) <= Kinship(x, ps[b]))
            && (start ==> forall a | 0 <= a < r :: ps[a] != x)
            && (r == |ps| || (start && ps[r] == x) || (r > 0 && Kinship(x, ps[r - 1]) > Kinship(x, ps[r])))
    decreases |ps| - i
  {
    hide Kinship;
    if i < |ps| {
      KinshipIsBounded(x, ps[i]);
      var last := if i == 0 then 0 else Kinship(x, ps[i - 1]);
      if !((start && Kinship(x, ps[i]) == INT_MAX) || Kinship(x, ps[i]) < last) {
        FindFromClimbs(ps, x, start, i + 1);
      }
    }
  }

  /** What ctrl_find_set finds is a place where the path may be put in, and nothing before it
      has that path. */
  lemma FindSetIsGoodPlace(ps: seq<Path>, x: Path)
    ensures GoodPlace(ps, x, FindSet(ps, x, true))
    ensures forall i | 0 <= i < FindSet(ps, x, true) :: ps[i] != x
  {
    FindFromClimbs(ps, x, true, 0);
  }

  /** In a grouped array it finds the first set with the path, if there is one. */
  lemma FindSetFindsFirst(ps: seq<Path>, x: Path, m: nat)
    requires Grouped(ps) && m < |ps| && ps[m] == x
    ensures FindSet(ps, x, true) <= m && ps[FindSet(ps, x, true)] == x
  {
    hide Kinship, FindSet;
    var r := FindSet(ps, x, true);
    FindSetIsGoodPlace(ps, x);
    if r < |ps| && ps[r] != x {
      KinshipIsBounded(x, ps[m]);
      KinshipIsBounded(x, ps[r]);
      KinshipIsBounded(x, ps[r - 1]);
      OnePeak(ps, x, r - 1, r, m);
      assert false;
    }
  }

  // ---------------------------------------------------------------- ctrl_find_path

  function FindPath(ps: seq<Path>, path: Path, index: int): (r: int)
    ensures r == -1 || (0 <= r < |ps| && index < r && ps[r] == path)
  {
    var at := if index < 0 then FindSet(ps, path, true) else index + 1;
    if at < |ps| && ps[at] == path then at else -1
  }

  /** The indices met by calling ctrl_find_path again and again on its own result. */
  function Visits(ps: seq<Path>, path: Path, index: int): seq<int>
    requires -1 <= index
    decreases |ps| - index
  {
    var r := FindPath(ps, path, index);
    if r == -1 then [] else [r] + Visits(ps, path, r)
  }

  /** All indices from `i` on that hold the path, in order. */
  function IndicesOf(ps: seq<Path>, path: Path, i: nat): seq<int>
    requires i <= |ps|
    decreases |ps| - i
  {
    if i == |ps| then []
    else if ps[i] == path then [i] + IndicesOf(ps, path, i + 1)
    else IndicesOf(ps, path, i + 1)
  }

  lemma {:induction false} NoneFrom(ps: seq<Path>, path: Path, i: nat)
    requires i <= |ps| && forall k | i <= k < |ps| :: ps[k] != path
    ensures IndicesOf(ps, path, i) == []
    decreases |ps| - i
  {
    if i < |ps| {
      NoneFrom(ps, path, i + 1);
    }
  }

  lemma {:induction false} SkipOthers(ps: seq<Path>, path: Path, i: nat, j: nat)
    requires i <= j <= |ps| && forall k | i <= k < j :: ps[k] != path
    ensures IndicesOf(ps, path, i) == IndicesOf(ps, path, j)
    decreases j - i
  {
    if i < j {
      SkipOthers(ps, path, i + 1, j);
    }
  }

  /** From a set with the path, iteration visits every later one. */
  lemma {:induction false} VisitsTheRest(ps: seq<Path>, path: Path, i: nat)
    requires Grouped(ps) && i < |ps| && ps[i] == path
    ensures Visits(ps, path, i) == IndicesOf(ps, path, i + 1)
    decreases |ps| - i
  {
    if i + 1 < |ps| && ps[i + 1] == path {
      VisitsTheRest(ps, path, i + 1);
    } else {
      forall k | i + 1 <= k < |ps|
        ensures ps[k] != path
      {
        GroupedMeansContiguous(ps, [], i, i + 1, k);
      }
      NoneFrom(ps, path, i + 1);
    }
  }

  /** Iterating from -1 visits exactly the sets with the path, each once, in array order. */
  lemma IterationIsComplete(ps: seq<Path>, path: Path)
    requires Grouped(ps)
    ensures Visits(ps, path, -1) == IndicesOf(ps, path, 0)
  {
    hide Grouped, FindSet;
    var r := FindSet(ps, path, true);
    FindSetIsGoodPlace(ps, path);
    if r < |ps| && ps[r] == path {
      SkipOthers(ps, path, 0, r);
      VisitsTheRest(ps, path, r);
    } else {
      forall k | 0 <= k < |ps|
        ensures ps[k] != path
      {
        if ps[k] == path {
          FindSetFindsFirst(ps, path, k);
        }
      }
      NoneFrom(ps, path, 0);
    }
  }

  // ---------------------------------------------------------------- controlboxes

  class ControlSet {
    const pathname: Path
    const boxname: Option<seq<byte>>
    const boxtitle: Option<seq<byte>>
    const ncolumns: nat

    constructor (pathname: Path, boxname: Option<seq<byte>>, boxtitle: Option<seq<byte>>, ncolumns: nat)
      ensures this.pathname == pathname && this.boxname == boxname
      ensures this.boxtitle == boxtitle && this.ncolumns == ncolumns
    {
      this.pathname, this.boxname, this.boxtitle, this.ncolumns := pathname, boxname, boxtitle, ncolumns;
    }
  }

  function PathsOf(sets: seq<ControlSet>): (ps: seq<Path>)
    ensures |ps| == |sets| && forall i | 0 <= i < |sets| :: ps[i] == sets[i].pathname
  {
    seq(|sets|, i requires 0 <= i < |sets| => sets[i].pathname)
  }

  predicate Named(s: ControlSet, path: Path, name: seq<byte>) {
    s.pathname == path && s.boxname == Some(name)
  }

  /** No two sets have the same path and the same box name. */
  ghost predicate NamesUnique(sets: seq<ControlSet>) {
    forall i, j | 0 <= i < j < |sets| && sets[i].boxname.Some? ::
      !Named(sets[j], sets[i].pathname, sets[i].boxname.value)
  }

  /** The end of the run of sets with the path that starts at `i`. */
  function AfterRun(ps: seq<Path>, path: Path, i: nat): (r: nat)
    requires i <= |ps|
    ensures i <= r <= |ps| && (r == |ps| || ps[r] != path)
    ensures forall k | i <= k < r :: ps[k] == path
    decreases |ps| - i
  {
    if i < |ps| && ps[i] == path then AfterRun(ps, path, i + 1) else i
  }

  /** Behind the run of equal paths is a good place too, and then no equal path is left behind it. */
  lemma AfterRunIsGoodPlace(ps: seq<Path>, x: Path)
    requires Grouped(ps)
    ensures GoodPlace(ps, x, AfterRun(ps, x, FindSet(ps, x, true)))
    ensures forall k | 0 <= k < |ps| && ps[k] == x ::
              FindSet(ps, x, true) <= k < AfterRun(ps, x, FindSet(ps, x, true))
  {
    hide Kinship, FindSet, AfterRun;
    var r := FindSet(ps, x, true);
    var e := AfterRun(ps, x, r);
    FindSetIsGoodPlace(ps, x);
    KinshipIsBounded(x, x);
    forall i | 0 <= i < |ps|
      ensures Kinship(x, ps[i]) <= INT_MAX && (Kinship(x, ps[i]) == INT_MAX <==> ps[i] == x)
    {
      KinshipIsBounded(x, ps[i]);
    }
    forall k | 0 <= k < |ps| && ps[k] == x
      ensures r <= k < e
    {
      FindSetFindsFirst(ps, x, k);
      if e <= k {
        GroupedMeansContiguous(ps, [], r, e, k);
      }
    }
  }

  lemma InsertKeepsNames(sets: seq<ControlSet>, at: nat, s: ControlSet)
    requires at <= |sets| && NamesUnique(sets)
    requires s.boxname.Some? ==> forall k | 0 <= k < |sets| :: !Named(sets[k], s.pathname, s.boxname.value)
    ensures NamesUnique(Inserted(sets, at, s))
  {
  }

  class ControlBox {
    var ctrlsets: seq<ControlSet>

    constructor ()
      ensures ctrlsets == [] && Valid()
    {
      ctrlsets := [];
    }

    ghost predicate Valid()
      reads this
    {
      Grouped(PathsOf(ctrlsets)) && NamesUnique(ctrlsets)
    }

    method CtrlFindSet(path: Path, start: bool) returns (i: nat)
      ensures i == FindSet(PathsOf(ctrlsets), path, start)
    {
      ghost var ps := PathsOf(ctrlsets);
      var last := 0;
      i := 0;
      while i < |ctrlsets|
        invariant i <= |ctrlsets|
        invariant FindFrom(ps, path, start, i, last) == FindSet(ps, path, start)
      {
        var thisone := CtrlPathCompare(path, ctrlsets[i].pathname);
        if (start && thisone == INT_MAX) || thisone < last {
          return;
        }
        last := thisone;
        i := i + 1;
      }
    }

    method CtrlFindPath(path: Path, index: int) returns (r: int)
      ensures r == FindPath(PathsOf(ctrlsets), path, index)
    {
      var at := index;
      if at < 0 {
        at := CtrlFindSet(path, true);
      } else {
        at := at + 1;
      }
      if at < |ctrlsets| && path == ctrlsets[at].pathname {
        return at;
      } else {
        return -1;
      }
    }

    method InsertAt(at: nat, s: ControlSet)
      requires Valid() && at <= |ctrlsets| && GoodPlace(PathsOf(ctrlsets), s.pathname, at)
      requires s.boxname.Some? ==> forall k | 0 <= k < |ctrlsets| :: !Named(ctrlsets[k], s.pathname, s.boxname.value)
      modifies this
      ensures Valid() && ctrlsets == Inserted(old(ctrlsets), at, s)
    {
      hide Grouped, GoodPlace, NamesUnique;
      InsertKeepsNames(ctrlsets, at, s);
      InsertKeepsGrouped(PathsOf(ctrlsets), s.pathname, at);
      assert PathsOf(Inserted(ctrlsets, at, s)) == Inserted(PathsOf(ctrlsets), at, s.pathname);
      ctrlsets := ctrlsets[..at] + [s] + ctrlsets[at..];
    }

    method CtrlSettitle(path: Path, title: seq<byte>) returns (s: ControlSet)
      requires Valid()
      modifies this
      ensures Valid() && fresh(s)
      ensures s.pathname == path && s.boxname == None && s.boxtitle == Some(title) && s.ncolumns == 0
      ensures ctrlsets == Inserted(old(ctrlsets), FindSet(PathsOf(old(ctrlsets)), path, true), s)
    {
      hide Grouped, GoodPlace;
      var index := CtrlFindSet(path, true);
      FindSetIsGoodPlace(PathsOf(ctrlsets), path);
      s := new ControlSet(path, None, Some(title), 0);
      InsertAt(index, s);
    }

    /** Finds the set of that path and name wherever it is, and only otherwise makes one. */
    method CtrlGetset(path: Path, name: seq<byte>, boxtitle: Option<seq<byte>>) returns (s: ControlSet)
      requires Valid()
      modifies this
      ensures Valid() && Named(s, path, name) && s in ctrlsets
      ensures forall i | 0 <= i < |old(ctrlsets)| && Named(old(ctrlsets)[i], path, name) ::
                s == old(ctrlsets)[i] && ctrlsets == old(ctrlsets)
      ensures (forall i | 0 <= i < |old(ctrlsets)| :: !Named(old(ctrlsets)[i], path, name)) ==>
        && fresh(s) && s.boxtitle == boxtitle && s.ncolumns == 1
        && var ps := PathsOf(old(ctrlsets));
           ctrlsets == Inserted(old(ctrlsets), AfterRun(ps, path, FindSet(ps, path, true)), s)
    {
      hide Grouped, GoodPlace, FindSet;
      ghost var ps := PathsOf(ctrlsets);
      var first := CtrlFindSet(path, true);
      AfterRunIsGoodPlace(ps, path);
      var index := first;
      while index < |ctrlsets| && ctrlsets[index].pathname == path
        invariant first <= index <= |ctrlsets|
        invariant AfterRun(ps, path, index) == AfterRun(ps, path, first)
        invariant forall k | first <= k < index :: !Named(ctrlsets[k], path, name)
      {
        if ctrlsets[index].boxname == Some(name) {
          return ctrlsets[index];
        }
        index := index + 1;
      }
      s := new ControlSet(path, Some(name), boxtitle, 1);
      InsertAt(index, s);
      assert ctrlsets[index] == s;
    }
  }
}
