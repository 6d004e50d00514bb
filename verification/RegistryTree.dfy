/** Copying, deleting and renaming registry trees (kitty_registry.c, kitty.c). */
module RegistryTree {
  import opened CText

  type Name = seq<byte>
  type Path = seq<Name>

  /** A value's type and contents. */
  datatype Data = Data(kind: int, bytes: seq<byte>)

  type Values = map<Name, Data>

  /** The keys there are, each with its values. */
  type Keys = map<Path, Values>

  /** With a key there are all the keys it lies below. */
  ghost predicate Tree(r: Keys) {
    forall p, q | q in r && p <= q :: p in r
  }

  ghost function Below(r: Keys, p: Path): set<Path> {
    set q | q in r && p <= q
  }

  function Subkeys(r: Keys, p: Path): set<Name> {
    set q | q in r && |q| == |p| + 1 && p <= q :: q[|p|]
  }

  ghost predicate Apart(p: Path, q: Path) {
    !(p <= q) && !(q <= p)
  }

  // ---------------------------------------------------------------- what the operations mean

  ghost function Deleted(r: Keys, p: Path): Keys {
    map q | q in r && !(p <= q) :: r[q]
  }

  function ValuesAt(r: Keys, q: Path): Values {
    if q in r then r[q] else map[]
  }

  function Created(r: Keys, p: Path): (c: Keys)
    ensures forall q :: q in c <==> q in r || q <= p
    ensures forall q | q in c :: c[q] == ValuesAt(r, q)
  {
    var added := set k | 0 <= k <= |p| :: p[..k];
    assert forall q | q <= p :: q in added by {
      forall q | q <= p
        ensures q in added
      {
        assert q == p[..|q|];
      }
    }
    map q | q in r.Keys + added :: ValuesAt(r, q)
  }

  /** The key that is copied to `q`. */
  ghost function Source(q: Path, src: Path, dst: Path): Path
    requires dst <= q
  {
    src + q[|dst|..]
  }

  ghost predicate Receives(r: Keys, src: Path, dst: Path, q: Path) {
    dst <= q && Source(q, src, dst) in r
  }

  /** Every key below `src` is made below `dst`, where what values there were are kept unless the
      source has one of the same name. The keys `dst` lies below are made if need be. */
  ghost function Copied(r: Keys, src: Path, dst: Path): (c: Keys)
    ensures src !in r ==> c == r
    ensures src in r ==> forall q :: q in c <==> q in r || q <= dst || Receives(r, src, dst, q)
    ensures src in r ==> forall q | q in c ::
      c[q] == ValuesAt(r, q) + if Receives(r, src, dst, q) then r[Source(q, src, dst)] else map[]
  {
    if src !in r then r
    else
      var images := set p | p in r && src <= p :: dst + p[|src|..];
      assert forall q | Receives(r, src, dst, q) :: q in images by {
        forall q | Receives(r, src, dst, q)
          ensures q in images
        {
          var p := Source(q, src, dst);
          assert p in r && src <= p && dst + p[|src|..] == q;
        }
      }
      assert forall q | q in images :: Receives(r, src, dst, q) by {
        forall q | q in images
          ensures Receives(r, src, dst, q)
        {
          var p :| p in r && src <= p && q == dst + p[|src|..];
          assert Source(q, src, dst) == p;
        }
      }
      map q | q in Created(r, dst).Keys + images ::
        ValuesAt(r, q) + if Receives(r, src, dst, q) then r[Source(q, src, dst)] else map[]
  }

  ghost function Moved(r: Keys, src: Path, dst: Path): Keys {
    Deleted(Copied(Deleted(r, dst), src, dst), src)
  }

  // ---------------------------------------------------------------- a move

  lemma PrefixTransitive(p: Path, q: Path, s: Path)
    requires p <= q && q <= s
    ensures p <= s
  {
  }

  /** Two keys above the same one: one of them lies above the other. */
  lemma PrefixesOfOne(p: Path, q: Path, s: Path)
    requires p <= s && q <= s
    ensures p <= q || q <= p
  {
    if |p| <= |q| {
      assert p == s[..|p|] == q[..|p|];
    } else {
      assert q == s[..|q|] == p[..|q|];
    }
  }

  lemma SourceIsBelow(q: Path, src: Path, dst: Path)
    requires dst <= q
    ensures src <= Source(q, src, dst) && Source(Source(q, src, dst), dst, src) == q
  {
    assert Source(q, src, dst)[..|src|] == src;
    assert Source(q, src, dst)[|src|..] == q[|dst|..];
    assert dst + q[|dst|..] == q;
  }

  /** After a move everything that was below the source is below the destination, in place of
      what was there; nothing is left of the source; all other keys are as they were, and the
      keys the destination lies below have been made where they were missing. */
  lemma MovedExactly(r: Keys, src: Path, dst: Path, q: Path)
    requires Tree(r) && src in r && Apart(src, dst)
    ensures q in Moved(r, src, dst) <==>
      if dst <= q then Source(q, src, dst) in r else (q in r && !(src <= q)) || q <= dst
    ensures q in Moved(r, src, dst) ==>
      Moved(r, src, dst)[q] == if dst <= q then r[Source(q, src, dst)] else ValuesAt(r, q)
  {
    hide Copied, Source;
    var d := Deleted(r, dst);
    assert src in d;
    if dst <= q {
      SourceIsApart(q, src, dst);
      assert Source(q, src, dst) in d <==> Source(q, src, dst) in r;
      if q <= dst {
        assert q == dst;
        SourceOfEnd(src, dst);
      }
    } else if src <= q && q <= dst {
      PrefixTransitive(src, q, dst);
    }
  }

  /** What is copied below `dst` lies outside `src`, and comes from outside `dst`. */
  lemma SourceIsApart(q: Path, src: Path, dst: Path)
    requires Apart(src, dst) && dst <= q
    ensures !(src <= q) && src <= Source(q, src, dst) && !(dst <= Source(q, src, dst))
  {
    SourceIsBelow(q, src, dst);
    if src <= q {
      PrefixesOfOne(src, dst, q);
    }
    if dst <= Source(q, src, dst) {
      PrefixesOfOne(src, dst, Source(q, src, dst));
    }
  }

  lemma MovedNothing(r: Keys, src: Path, dst: Path)
    requires Tree(r) && src !in r
    ensures Moved(r, src, dst) == Deleted(r, dst)
  {
    var d := Deleted(r, dst);
    forall q | q in d
      ensures !(src <= q)
    {
      assert q in r;
    }
  }

  /** Moving a tree to where there was nothing and back again changes nothing. */
  lemma MoveBack(r: Keys, src: Path, dst: Path)
    requires Tree(r) && src in r && dst !in r && Apart(src, dst)
    requires dst != [] && dst[..|dst| - 1] in r
    ensures Tree(Moved(r, src, dst)) && Moved(Moved(r, src, dst), dst, src) == r
  {
    hide Moved, Source;
    var m := Moved(r, src, dst);
    MoveKeepsTree(r, src, dst);
    MovedExactly(r, src, dst, dst);
    SourceOfEnd(src, dst);
    var b := Moved(m, dst, src);
    forall q
      ensures q in b <==> q in r
      ensures q in b ==> b[q] == r[q]
    {
      MovedExactly(m, dst, src, q);
      MovedExactly(r, src, dst, q);
      if src <= q {
        SourceIsBelow(q, dst, src);
        MovedExactly(r, src, dst, Source(q, dst, src));
      } else if q <= src {
        assert q in r;
      }
      if dst <= q {
        assert dst in r <== q in r;
      }
      if q <= dst && q != dst {
        assert q <= dst[..|dst| - 1];
      }
    }
  }

  lemma SourceOfEnd(src: Path, dst: Path)
    ensures Source(dst, src, dst) == src
  {
  }

  lemma MoveKeepsTree(r: Keys, src: Path, dst: Path)
    requires Tree(r) && src in r && Apart(src, dst)
    ensures Tree(Moved(r, src, dst))
  {
    hide Moved, Source;
    var m := Moved(r, src, dst);
    forall p, q | q in m && p <= q
      ensures p in m
    {
      MovedExactly(r, src, dst, q);
      MovedExactly(r, src, dst, p);
      if dst <= p {
        SourceIsMonotone(p, q, src, dst);
      } else if dst <= q {
        PrefixesOfOne(p, dst, q);
      } else if src <= p {
        PrefixTransitive(src, p, q);
      }
    }
  }

  lemma SourceIsMonotone(p: Path, q: Path, src: Path, dst: Path)
    requires dst <= p && p <= q
    ensures dst <= q && Source(p, src, dst) <= Source(q, src, dst)
  {
    assert p == q[..|p|];
    assert p[|dst|..] == q[|dst|..][..|p| - |dst|];
  }

  // ---------------------------------------------------------------- steps of the recursions

  lemma SubkeysAreBelow(r: Keys, p: Path, n: Name)
    ensures n in Subkeys(r, p) <==> p + [n] in r
  {
    if p + [n] in r {
      var q := p + [n];
      assert |q| == |p| + 1 && p <= q && q[|p|] == n;
    }
    if n in Subkeys(r, p) {
      var q :| q in r && |q| == |p| + 1 && p <= q && q[|p|] == n;
      assert q == p + [n];
    }
  }

  /** A key below `p` lies below one of its subkeys. */
  lemma BelowASubkey(r: Keys, p: Path, q: Path)
    requires Tree(r) && q in r && p <= q && q != p
    ensures q[|p|] in Subkeys(r, p) && p + [q[|p|]] <= q
  {
    var s := q[..|p| + 1];
    assert s <= q && s == p + [q[|p|]];
    SubkeysAreBelow(r, p, q[|p|]);
  }

  lemma NothingBelow(r: Keys, p: Path)
    requires Tree(r) && Subkeys(r, p) == {}
    ensures Deleted(r, p) == r - {p}
  {
    forall q | q in r && p <= q && q != p
      ensures false
    {
      BelowASubkey(r, p, q);
    }
  }

  lemma FewerBelow(r: Keys, p: Path, n: Name)
    requires p in r
    ensures |Below(r, p + [n])| < |Below(r, p)|
  {
    var c := p + [n];
    assert p <= c && !(c <= p);
    forall q | q in Below(r, c)
      ensures q in Below(r, p)
    {
      PrefixTransitive(p, c, q);
    }
    assert p in Below(r, p) && p !in Below(r, c);
    Smaller(Below(r, c), Below(r, p));
  }

  lemma Smaller<T>(a: set<T>, b: set<T>)
    requires a < b
    ensures |a| < |b|
  {
    assert b == a + (b - a);
    assert b - a != {};
  }

  /** Deleting what is below a subkey of `p` takes some of the keys below `p`, and no others. */
  lemma DeletedBelow(r: Keys, p: Path, n: Name)
    requires Tree(r) && p in r && p + [n] in r
    ensures var d := Deleted(r, p + [n]);
      Tree(d) && p in d && Deleted(d, p) == Deleted(r, p) && |Below(d, p)| < |Below(r, p)|
  {
    var c := p + [n];
    var d := Deleted(r, c);
    assert !(c <= p);
    forall q | q in r && c <= q
      ensures p <= q
    {
      PrefixTransitive(p, c, q);
    }
    forall q, s | s in d && q <= s
      ensures q in d
    {
      if c <= q {
        PrefixTransitive(c, q, s);
      }
    }
    assert c in Below(r, p) && c !in Below(d, p);
    Smaller(Below(d, p), Below(r, p));
  }

  lemma DeleteKeepsTree(r: Keys, p: Path)
    requires Tree(r)
    ensures Tree(Deleted(r, p))
  {
    forall q, s | s in Deleted(r, p) && q <= s
      ensures q in Deleted(r, p)
    {
      if p <= q {
        PrefixTransitive(p, q, s);
      }
    }
  }

  lemma CreateKeepsTree(r: Keys, p: Path)
    requires Tree(r)
    ensures Tree(Created(r, p))
  {
    forall q, s | s in Created(r, p) && q <= s
      ensures q in Created(r, p)
    {
      if s <= p {
        PrefixTransitive(q, s, p);
      }
    }
  }

  /** What has come to `q` once the values of `src` and the subkeys `done` have been copied. */
  ghost predicate Arrived(r: Keys, src: Path, dst: Path, done: set<Name>, q: Path) {
    Receives(r, src, dst, q) && (q == dst || q[|dst|] in done)
  }

  /** What holds of `q` once `done` has been copied. */
  ghost predicate CopiedAt(r: Keys, c: Keys, src: Path, dst: Path, done: set<Name>, q: Path) {
    && (q in c <==> q in r || q <= dst || Arrived(r, src, dst, done, q))
    && (q in c ==>
          c[q] == ValuesAt(r, q) + if Arrived(r, src, dst, done, q) then r[Source(q, src, dst)] else map[])
  }

  ghost predicate CopiedSoFar(r: Keys, c: Keys, src: Path, dst: Path, done: set<Name>) {
    forall q :: CopiedAt(r, c, src, dst, done, q)
  }

  lemma ValuesCopied(r: Keys, src: Path, dst: Path)
    requires src in r
    ensures CopiedSoFar(r, Created(r, dst)[dst := ValuesAt(r, dst) + r[src]], src, dst, {})
  {
    hide Created;
    var c := Created(r, dst)[dst := ValuesAt(r, dst) + r[src]];
    SourceOfEnd(src, dst);
    forall q | q in c
      ensures Arrived(r, src, dst, {}, q) <==> q == dst
    {
    }
  }

  lemma AllCopied(r: Keys, c: Keys, src: Path, dst: Path)
    requires Tree(r) && src in r && CopiedSoFar(r, c, src, dst, Subkeys(r, src))
    ensures c == Copied(r, src, dst)
  {
    hide Copied, Source, Subkeys, CopiedSoFar;
    var k := Copied(r, src, dst);
    forall q
      ensures (q in c <==> q in k) && (q in c ==> c[q] == k[q])
    {
      CopiedEverywhere(r, c, src, dst, Subkeys(r, src), q);
      if Receives(r, src, dst, q) && q != dst {
        SourceIsBelow(q, src, dst);
        SourceKeeps(q, src, dst);
        BelowASubkey(r, src, Source(q, src, dst));
      }
    }
    assert c.Keys == k.Keys;
  }

  lemma SourceKeeps(q: Path, src: Path, dst: Path)
    requires dst <= q && q != dst
    ensures Source(q, src, dst) != src && |Source(q, src, dst)| > |src| && Source(q, src, dst)[|src|] == q[|dst|]
    ensures dst + [q[|dst|]] <= q
    ensures Source(q, src + [q[|dst|]], dst + [q[|dst|]]) == Source(q, src, dst)
  {
    assert |q| > |dst|;
    var n := q[|dst|];
    assert q[..|dst| + 1] == dst + [n];
    assert q[|dst|..] == [n] + q[|dst| + 1..];
  }

  lemma BelowOneName(dst: Path, n: Name, q: Path)
    ensures dst + [n] <= q <==> dst <= q && q != dst && q[|dst|] == n
  {
    if dst + [n] <= q {
      assert q[|dst|] == (dst + [n])[|dst|];
      PrefixTransitive(dst, dst + [n], q);
    } else if dst <= q && q != dst {
      SourceKeeps(q, dst, dst);
    }
  }

  /** The source is the same all the time. */
  lemma SourceUntouched(r: Keys, c: Keys, src: Path, dst: Path, done: set<Name>, p: Path)
    requires Apart(src, dst) && CopiedSoFar(r, c, src, dst, done) && src <= p
    ensures p in c <==> p in r
    ensures p in r ==> c[p] == r[p]
  {
    hide Source;
    if dst <= p {
      PrefixesOfOne(src, dst, p);
    }
    if p <= dst {
      PrefixTransitive(src, p, dst);
    }
    assert CopiedAt(r, c, src, dst, done, p);
  }

  lemma SubkeysAreApart(src: Path, dst: Path, n: Name)
    requires Apart(src, dst)
    ensures Apart(src + [n], dst + [n])
  {
    NotAbove(src, dst, n, src + [n]);
    NotAbove(dst, src, n, dst + [n]);
  }

  lemma NotAbove(src: Path, dst: Path, n: Name, p: Path)
    requires Apart(src, dst) && src <= p
    ensures !(p <= dst + [n])
  {
    if p <= dst + [n] {
      PrefixTransitive(src, p, dst + [n]);
      PrefixesOfOne(src, dst, dst + [n]);
    }
  }

  lemma SourceInCreated(r: Keys, c: Keys, src: Path, dst: Path, done: set<Name>, n: Name, p: Path)
    requires Apart(src, dst) && CopiedSoFar(r, c, src, dst, done) && src + [n] <= p
    ensures p in Created(c, dst + [n]) <==> p in r
    ensures p in r ==> Created(c, dst + [n])[p] == r[p]
  {
    hide Created, CopiedSoFar;
    PrefixTransitive(src, src + [n], p);
    SourceUntouched(r, c, src, dst, done, p);
    NotAbove(src, dst, n, p);
  }

  lemma CopiedEverywhere(r: Keys, c: Keys, src: Path, dst: Path, done: set<Name>, q: Path)
    requires CopiedSoFar(r, c, src, dst, done)
    ensures CopiedAt(r, c, src, dst, done, q)
  {
  }

  /** One more subkey has been copied: what that does to a key below its copy, */
  lemma SubkeyCopiedInside(r: Keys, c: Keys, src: Path, dst: Path, done: set<Name>, n: Name, q: Path)
    requires Apart(src, dst) && CopiedSoFar(r, c, src, dst, done) && n !in done && src + [n] in r && dst + [n] <= q
    ensures CopiedAt(r, Copied(Created(c, dst + [n]), src + [n], dst + [n]), src, dst, done + {n}, q)
  {
    hide Copied, Source, Created, CopiedSoFar;
    var s, d := src + [n], dst + [n];
    BelowOneName(dst, n, q);
    SourceKeeps(q, src, dst);
    SourceIsBelow(q, s, d);
    SourceInCreated(r, c, src, dst, done, n, s);
    SourceInCreated(r, c, src, dst, done, n, Source(q, src, dst));
    CopiedEverywhere(r, c, src, dst, done, q);
    if q <= d {
      assert q == d;
      SourceOfEnd(s, d);
    }
  }

  /** and what to any other key. */
  lemma SubkeyCopiedOutside(r: Keys, c: Keys, src: Path, dst: Path, done: set<Name>, n: Name, q: Path)
    requires Apart(src, dst) && CopiedSoFar(r, c, src, dst, done) && n !in done && src + [n] in r && !(dst + [n] <= q)
    ensures CopiedAt(r, Copied(Created(c, dst + [n]), src + [n], dst + [n]), src, dst, done + {n}, q)
  {
    hide Copied, Source, Created, CopiedSoFar;
    var s, d := src + [n], dst + [n];
    BelowOneName(dst, n, q);
    SourceInCreated(r, c, src, dst, done, n, s);
    CopiedEverywhere(r, c, src, dst, done, q);
    assert Arrived(r, src, dst, done + {n}, q) == Arrived(r, src, dst, done, q);
    if q <= d {
      assert q == d[..|q|] == dst[..|q|];
    }
  }

  lemma SubkeyCopied(r: Keys, c: Keys, src: Path, dst: Path, done: set<Name>, n: Name)
    requires Apart(src, dst) && CopiedSoFar(r, c, src, dst, done) && n !in done && src + [n] in r
    ensures CopiedSoFar(r, Copied(Created(c, dst + [n]), src + [n], dst + [n]), src, dst, done + {n})
  {
    hide Copied, Created, CopiedAt;
    var c2 := Copied(Created(c, dst + [n]), src + [n], dst + [n]);
    forall q
      ensures CopiedAt(r, c2, src, dst, done + {n}, q)
    {
      if dst + [n] <= q {
        SubkeyCopiedInside(r, c, src, dst, done, n, q);
      } else {
        SubkeyCopiedOutside(r, c, src, dst, done, n, q);
      }
    }
  }

  /** The copy goes through a buffer of 1024 bytes. */
  ghost predicate ShortValues(r: Keys, src: Path) {
    forall p, name | p in r && src <= p && name in r[p] :: |r[p][name].bytes| <= 1024
  }

  /** Copying a subkey is a smaller task of the same kind. */
  lemma SubkeyIsSmaller(r: Keys, c: Keys, src: Path, dst: Path, done: set<Name>, n: Name)
    requires Apart(src, dst) && CopiedSoFar(r, c, src, dst, done) && src in r && src + [n] in r
    requires ShortValues(r, src)
    ensures var c1 := Created(c, dst + [n]);
      && Apart(src + [n], dst + [n]) && ShortValues(c1, src + [n])
      && |Below(c1, src + [n])| < |Below(r, src)|
  {
    hide Created, CopiedSoFar;
    var c1, s := Created(c, dst + [n]), src + [n];
    SubkeysAreApart(src, dst, n);
    FewerBelow(r, src, n);
    forall p | s <= p
      ensures src <= p && (p in c1 <==> p in r) && (p in r ==> c1[p] == r[p])
    {
      PrefixTransitive(src, s, p);
      SourceInCreated(r, c, src, dst, done, n, p);
    }
    assert Below(c1, s) == Below(r, s);
  }

  lemma SameSubkeys(r: Keys, c: Keys, src: Path, dst: Path, done: set<Name>)
    requires Apart(src, dst) && CopiedSoFar(r, c, src, dst, done)
    ensures Subkeys(c, src) == Subkeys(r, src)
  {
    hide Subkeys, CopiedSoFar;
    forall n
      ensures n in Subkeys(c, src) <==> n in Subkeys(r, src)
    {
      SubkeysAreBelow(c, src, n);
      SubkeysAreBelow(r, src, n);
      SourceUntouched(r, c, src, dst, done, src + [n]);
    }
  }

  // ---------------------------------------------------------------- the registry

  class Registry {
    var keys: Keys

    ghost predicate Valid()
      reads this
    {
      Tree(keys)
    }

    constructor ()
      ensures Valid() && keys == map[[] := map[]]
    {
      keys := map[[] := map[]];
    }

    /** A key is deleted only if it has no subkeys. */
    method RegDeleteKey(p: Path) returns (ok: bool)
      requires Valid() && p != []
      modifies this
      ensures Valid() && (ok <==> p in old(keys) && Subkeys(old(keys), p) == {})
      ensures keys == if ok then Deleted(old(keys), p) else old(keys)
    {
      ok := p in keys && Subkeys(keys, p) == {};
      if ok {
        NothingBelow(keys, p);
        DeleteKeepsTree(keys, p);
        keys := keys - {p};
      }
    }

    /** A key is made together with those it lies below. */
    method RegCreateKey(p: Path)
      requires Valid()
      modifies this
      ensures Valid() && keys == Created(old(keys), p)
    {
      CreateKeepsTree(keys, p);
      keys := Created(keys, p);
    }

    method RegSetValueEx(p: Path, name: Name, data: Data)
      requires Valid() && p in keys
      modifies this
      ensures Valid() && keys == old(keys)[p := old(keys)[p][name := data]]
    {
      keys := keys[p := keys[p][name := data]];
    }

    /** Deletes a key with everything below it. */
    method RegDelTree(p: Path) returns (ok: bool)
      requires Valid() && p != []
      modifies this
      ensures ok && Valid() && keys == Deleted(old(keys), p)
      decreases |Below(keys, p)|
    {
      hide Below, Subkeys, Deleted, Tree;
      ok := RegDeleteKey(p);
      if ok {
        return;
      }
      if p !in keys {
        NothingToDelete(keys, p);
        return true;
      }
      var names := Subkeys(keys, p);
      while names != {}
        invariant Valid() && p in keys && names == Subkeys(keys, p)
        invariant Deleted(keys, p) == Deleted(old(keys), p)
        invariant |Below(keys, p)| <= |Below(old(keys), p)|
        decreases |Below(keys, p)|
      {
        var name :| name in names;
        SubkeysAreBelow(keys, p, name);
        FewerBelow(keys, p, name);
        DeletedBelow(keys, p, name);
        ok := RegDelTree(p + [name]);
        if !ok {
          break;
        }
        names := Subkeys(keys, p);
      }
      ok := RegDeleteKey(p);
    }

    /** Sets the values of one key at another, in whatever order. */
    method CopyValues(src: Path, dst: Path)
      requires Valid() && src in keys && dst in keys && src != dst
      modifies this
      ensures Valid() && keys == old(keys)[dst := old(keys)[dst] + old(keys)[src]]
    {
      hide Tree;
      ghost var vs, was := keys[src], keys[dst];
      var todo := keys[src].Keys;
      ghost var done: Values := map[];
      assert was + done == was;
      while todo != {}
        invariant Valid() && src in keys && dst in keys && keys[src] == vs
        invariant keys == old(keys)[dst := was + done]
        invariant todo <= vs.Keys && done == vs - todo
        decreases todo
      {
        var name :| name in todo;
        RegSetValueEx(dst, name, keys[src][name]);
        assert vs - (todo - {name}) == done[name := vs[name]];
        assert (was + done)[name := vs[name]] == was + done[name := vs[name]];
        todo, done := todo - {name}, done[name := vs[name]];
      }
      assert done == vs;
    }

    /** Copies a key and everything below it, subkeys and values in whatever order. */
    method RegCopyTree(src: Path, dst: Path)
      requires Valid() && Apart(src, dst) && ShortValues(keys, src)
      modifies this
      ensures Valid() && keys == Copied(old(keys), src, dst)
      decreases |Below(keys, src)|
    {
      hide Below, Subkeys, Copied, Created, Tree, CopiedSoFar, CopiedAt, ShortValues, ValuesAt;
      if src !in keys {
        return;
      }
      ghost var r := keys;
      RegCreateKey(dst);
      assert keys[src] == ValuesAt(r, src) == r[src] && keys[dst] == ValuesAt(r, dst) by {
        TheValues(r, src);
      }
      CopyValues(src, dst);
      ValuesCopied(r, src, dst);
      SameSubkeys(r, keys, src, dst, {});
      var todo := Subkeys(keys, src);
      ghost var done: set<Name> := {};
      while todo != {}
        invariant Valid() && CopiedSoFar(r, keys, src, dst, done)
        invariant done !! todo && done + todo == Subkeys(r, src)
        decreases todo
      {
        var name :| name in todo;
        SubkeysAreBelow(r, src, name);
        SubkeyIsSmaller(r, keys, src, dst, done, name);
        SubkeyCopied(r, keys, src, dst, done, name);
        RegCreateKey(dst + [name]);
        RegCopyTree(src + [name], dst + [name]);
        todo, done := todo - {name}, done + {name};
      }
      AllCopied(r, keys, src, dst);
    }

    /** Moves a key with everything below it, in place of what was at the destination. */
    method RegRenameTree(src: Path, dst: Path)
      requires Valid() && Apart(src, dst) && ShortValues(keys, src)
      modifies this
      ensures Valid() && keys == Moved(old(keys), src, dst)
    {
      hide Copied, Tree;
      var ok;
      if dst in keys {
        ok := RegDelTree(dst);
      } else {
        NothingToDelete(keys, dst);
      }
      RegCopyTree(src, dst);
      ok := RegDelTree(src);
    }
  }

  lemma TheValues(r: Keys, p: Path)
    requires p in r
    ensures ValuesAt(r, p) == r[p]
  {
  }

  lemma NothingToDelete(r: Keys, p: Path)
    requires Tree(r) && p !in r
    ensures Deleted(r, p) == r
  {
  }
}
