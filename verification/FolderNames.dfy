/** Cleaning folder names and navigating the session path (kitty_commun.c, kitty_store.c). */
module FolderNames {
  import opened CText

  // ---------------------------------------------------------------- what cleaning means

  function Slashes(s: seq<byte>): (t: seq<byte>)
    ensures |t| == |s| && forall i | 0 <= i < |s| :: t[i] == if s[i] == SLASH then BACKSLASH else s[i]
  {
    seq(|s|, i requires 0 <= i < |s| => if s[i] == SLASH then BACKSLASH else s[i])
  }

  /** Without the spaces that follow a backslash; `after` says that one went before. */
  function DropAfter(t: seq<byte>, after: bool): seq<byte> {
    if t == [] then []
    else if t[0] == SPACE && after then DropAfter(t[1..], true)
    else [t[0]] + DropAfter(t[1..], t[0] == BACKSLASH)
  }

  /** Without the spaces that lead up to a backslash. */
  function DropBefore(t: seq<byte>): seq<byte> {
    if t == [] then []
    else
      var r := DropBefore(t[1..]);
      if t[0] == SPACE && r != [] && r[0] == BACKSLASH then r else [t[0]] + r
  }

  function Clean(s: seq<byte>): seq<byte> {
    DropBefore(DropAfter(Slashes(s), false))
  }

  predicate SpaceAfter(t: seq<byte>, i: nat)
    requires i + 1 < |t|
  {
    t[i] == BACKSLASH && t[i + 1] == SPACE
  }

  predicate SpaceBefore(t: seq<byte>, i: nat)
    requires i + 1 < |t|
  {
    t[i] == SPACE && t[i + 1] == BACKSLASH
  }

  predicate NoneAfter(t: seq<byte>) {
    forall i | 0 <= i < |t| - 1 :: !SpaceAfter(t, i)
  }

  predicate NoneBefore(t: seq<byte>) {
    forall i | 0 <= i < |t| - 1 :: !SpaceBefore(t, i)
  }

  /** No '/', and no space next to a backslash. */
  predicate IsClean(t: seq<byte>) {
    SLASH !in t && NoneAfter(t) && NoneBefore(t)
  }

  lemma NoneInFront(c: byte, r: seq<byte>)
    ensures var t := [c] + r;
            && (NoneAfter(t) <==> NoneAfter(r) && !(c == BACKSLASH && r != [] && r[0] == SPACE))
            && (NoneBefore(t) <==> NoneBefore(r) && !(c == SPACE && r != [] && r[0] == BACKSLASH))
  {
    var t := [c] + r;
    forall i | 0 <= i < |r| - 1
      ensures SpaceAfter(r, i) == SpaceAfter(t, i + 1) && SpaceBefore(r, i) == SpaceBefore(t, i + 1)
    {
    }
    if r != [] {
      assert SpaceAfter(t, 0) == (c == BACKSLASH && r[0] == SPACE);
      assert SpaceBefore(t, 0) == (c == SPACE && r[0] == BACKSLASH);
    }
    forall i | 0 < i < |t| - 1
      ensures SpaceAfter(t, i) == SpaceAfter(r, i - 1) && SpaceBefore(t, i) == SpaceBefore(r, i - 1)
    {
    }
  }

  lemma {:induction false} DropAfterLeavesNone(t: seq<byte>, after: bool)
    ensures var r := DropAfter(t, after);
            && NoneAfter(r) && (after && r != [] ==> r[0] != SPACE)
            && forall i | 0 <= i < |r| :: r[i] in t
  {
    if t != [] {
      var next := if t[0] == SPACE && after then true else t[0] == BACKSLASH;
      var r := DropAfter(t[1..], next);
      DropAfterLeavesNone(t[1..], next);
      NoneInFront(t[0], r);
      assert forall i | 0 <= i < |r| :: r[i] in t[1..];
    }
  }

  lemma {:induction false} DropBeforeLeavesNone(t: seq<byte>)
    requires NoneAfter(t)
    ensures var r := DropBefore(t);
            && NoneAfter(r) && NoneBefore(r)
            && (t == [] <==> r == []) && (r != [] && r[0] == SPACE ==> t[0] == SPACE)
            && forall i | 0 <= i < |r| :: r[i] in t
  {
    if t != [] {
      assert t == [t[0]] + t[1..];
      var r := DropBefore(t[1..]);
      NoneInFront(t[0], t[1..]);
      DropBeforeLeavesNone(t[1..]);
      NoneInFront(t[0], r);
      assert forall i | 0 <= i < |r| :: r[i] in t[1..];
    }
  }

  /** Cleaning leaves a clean name. */
  lemma CleanIsClean(s: seq<byte>)
    ensures IsClean(Clean(s))
    ensures NulFree(s) ==> NulFree(Clean(s))
  {
    var u := DropAfter(Slashes(s), false);
    DropAfterLeavesNone(Slashes(s), false);
    DropBeforeLeavesNone(u);
    assert SLASH !in Slashes(s);
    assert NulFree(s) ==> NulFree(Slashes(s));
  }

  lemma {:induction false} DropAfterOfClean(t: seq<byte>, after: bool)
    requires NoneAfter(t)
    requires after && t != [] ==> t[0] != SPACE
    ensures DropAfter(t, after) == t
  {
    if t != [] {
      assert t == [t[0]] + t[1..];
      NoneInFront(t[0], t[1..]);
      DropAfterOfClean(t[1..], t[0] == BACKSLASH);
    }
  }

  lemma {:induction false} DropBeforeOfClean(t: seq<byte>)
    requires NoneBefore(t)
    ensures DropBefore(t) == t
  {
    if t != [] {
      assert t == [t[0]] + t[1..];
      NoneInFront(t[0], t[1..]);
      DropBeforeOfClean(t[1..]);
    }
  }

  /** A clean name stays as it is, so cleaning twice is cleaning once. */
  lemma CleanOfClean(t: seq<byte>)
    requires IsClean(t)
    ensures Clean(t) == t
  {
    assert Slashes(t) == t;
    DropAfterOfClean(t, false);
    DropBeforeOfClean(t);
  }

  lemma CleanIsIdempotent(s: seq<byte>)
    ensures Clean(Clean(s)) == Clean(s)
  {
    CleanIsClean(s);
    CleanOfClean(Clean(s));
  }

  /** The bytes of a name that are not spaces. */
  function Solid(t: seq<byte>): seq<byte> {
    if t == [] then [] else (if t[0] == SPACE then [] else [t[0]]) + Solid(t[1..])
  }

  lemma {:induction false} DropsOnlySpaces(t: seq<byte>, after: bool)
    ensures Solid(DropAfter(t, after)) == Solid(t) && Solid(DropBefore(t)) == Solid(t)
  {
    if t != [] {
      DropsOnlySpaces(t[1..], if t[0] == SPACE && after then true else t[0] == BACKSLASH);
      var a, b := DropAfter(t[1..], t[0] == BACKSLASH), DropBefore(t[1..]);
      assert ([t[0]] + a)[1..] == a && ([t[0]] + b)[1..] == b;
    }
  }

  /** Cleaning takes out nothing but spaces. */
  lemma CleanKeepsSolid(s: seq<byte>)
    ensures Solid(Clean(s)) == Solid(Slashes(s))
  {
    DropsOnlySpaces(Slashes(s), false);
    DropsOnlySpaces(DropAfter(Slashes(s), false), false);
  }

  // ---------------------------------------------------------------- part by part

  function TrimLeft(s: seq<byte>): seq<byte> {
    if s != [] && s[0] == SPACE then TrimLeft(s[1..]) else s
  }

  function TrimRight(s: seq<byte>): seq<byte> {
    if s == [] then []
    else
      var r := TrimRight(s[1..]);
      if s[0] == SPACE && r == [] then [] else [s[0]] + r
  }

  /** Every part of a path trimmed: on the left if a backslash precedes it (`after`), on the
      right if one follows. */
  function TrimParts(t: seq<byte>, after: bool): seq<byte>
    decreases |t|
  {
    var k := Index(t, BACKSLASH);
    var part := if after then TrimLeft(t[..k]) else t[..k];
    if k == |t| then part else TrimRight(part) + [BACKSLASH] + TrimParts(t[k + 1..], true)
  }

  lemma DropAfterCons(c: byte, r: seq<byte>, after: bool)
    ensures DropAfter([c] + r, after)
            == if c == SPACE && after then DropAfter(r, true) else [c] + DropAfter(r, c == BACKSLASH)
    ensures TrimLeft([c] + r) == if c == SPACE then TrimLeft(r) else [c] + r
  {
    assert ([c] + r)[1..] == r;
  }

  lemma DropNone()
    ensures (forall after :: DropAfter([], after) == []) && TrimLeft([]) == []
  {
  }

  /** In front of the end or of a backslash, a part is only trimmed. */
  lemma {:induction false} DropAfterPart(base: seq<byte>, u: seq<byte>, after: bool)
    requires BACKSLASH !in base && (u == [] || u[0] == BACKSLASH)
    ensures DropAfter(base + u, after) == (if after then TrimLeft(base) else base) + DropAfter(u, false)
    decreases |base|
  {
    hide DropAfter, TrimLeft;
    var d := DropAfter(u, false);
    DropNone();
    CatCons(base, u);
    CatCons(base, d);
    if base == [] {
      CatCons(u, []);
      if u != [] {
        DropAfterCons(BACKSLASH, u[1..], after);
        DropAfterCons(BACKSLASH, u[1..], false);
      }
    } else {
      var c, b := base[0], base[1..];
      assert c in base;
      DropAfterCons(c, b, after);
      DropAfterCons(c, b + u, after);
      DropAfterPart(b, u, c == SPACE && after);
    }
  }

  lemma DropBeforeCons(c: byte, r: seq<byte>)
    ensures var d := DropBefore(r);
            DropBefore([c] + r) == if c == SPACE && d != [] && d[0] == BACKSLASH then d else [c] + d
    ensures var d := TrimRight(r); TrimRight([c] + r) == if c == SPACE && d == [] then [] else [c] + d
    ensures DropBefore([]) == [] && TrimRight([]) == []
  {
    assert ([c] + r)[1..] == r;
  }

  lemma {:induction false} DropBeforePart(base: seq<byte>, u: seq<byte>)
    requires BACKSLASH !in base && (u == [] || u[0] == BACKSLASH)
    ensures DropBefore(base + u) == if u == [] then base else TrimRight(base) + DropBefore(u)
    decreases |base|
  {
    hide DropBefore, TrimRight;
    DropBeforeCons(BACKSLASH, []);
    CatCons(base, u);
    if base == [] {
      CatCons([], DropBefore(u));
    } else {
      var c, b := base[0], base[1..];
      DropBeforePart(b, u);
      DropBeforeCons(c, b);
      DropBeforeCons(c, b + u);
      if u == [] {
        CatCons(b, []);
        assert b != [] ==> b[0] in base;
      } else {
        BackslashStays(u);
        TrimmedFront(c, b, DropBefore(u));
      }
    }
  }

  lemma BackslashStays(u: seq<byte>)
    requires u != [] && u[0] == BACKSLASH
    ensures DropBefore(u) != [] && DropBefore(u)[0] == BACKSLASH
  {
  }

  /** Putting a byte in front of a trimmed part and its backslash. */
  lemma TrimmedFront(c: byte, b: seq<byte>, d: seq<byte>)
    requires BACKSLASH !in b && d != [] && d[0] == BACKSLASH
    ensures var r := TrimRight(b) + d;
            TrimRight([c] + b) + d == if c == SPACE && r[0] == BACKSLASH then r else [c] + r
  {
    hide DropBefore, TrimRight;
    DropBeforeCons(c, b);
    TrimRightKeeps(b);
    var t := TrimRight(b);
    CatCons(t, d);
    CatCons([c] + t, d);
    assert t != [] ==> t[0] in t;
    assert ([c] + t)[1..] == t;
  }

  lemma {:induction false} TrimRightKeeps(s: seq<byte>)
    requires BACKSLASH !in s
    ensures BACKSLASH !in TrimRight(s)
  {
    if s != [] {
      TrimRightKeeps(s[1..]);
    }
  }

  lemma {:induction false} TrimLeftKeeps(s: seq<byte>)
    requires BACKSLASH !in s
    ensures BACKSLASH !in TrimLeft(s)
  {
    if s != [] && s[0] == SPACE {
      TrimLeftKeeps(s[1..]);
    }
  }

  lemma {:induction false} DropsTrimParts(t: seq<byte>, after: bool)
    ensures DropBefore(DropAfter(t, after)) == TrimParts(t, after)
    decreases |t|
  {
    hide DropAfter, DropBefore, TrimLeft, TrimRight;
    var k := Index(t, BACKSLASH);
    if k == |t| {
      assert t[..k] == t;
      LastPart(t, after);
    } else {
      var rest := t[k + 1..];
      assert t == t[..k] + ([BACKSLASH] + rest);
      OnePart(t[..k], rest, after);
      DropsTrimParts(rest, true);
    }
  }

  lemma LastPart(t: seq<byte>, after: bool)
    requires BACKSLASH !in t
    ensures DropBefore(DropAfter(t, after)) == if after then TrimLeft(t) else t
  {
    hide DropAfter, DropBefore, TrimLeft, TrimRight;
    var part := if after then TrimLeft(t) else t;
    TrimLeftKeeps(t);
    CatCons(t, []);
    CatCons(part, []);
    DropNone();
    DropAfterPart(t, [], after);
    DropBeforePart(part, []);
  }

  lemma OnePart(base: seq<byte>, rest: seq<byte>, after: bool)
    requires BACKSLASH !in base
    ensures DropBefore(DropAfter(base + ([BACKSLASH] + rest), after))
            == TrimRight(if after then TrimLeft(base) else base) + [BACKSLASH] + DropBefore(DropAfter(rest, true))
  {
    hide DropAfter, DropBefore, TrimLeft, TrimRight;
    var part, d := if after then TrimLeft(base) else base, DropAfter(rest, true);
    TrimLeftKeeps(base);
    DropAfterPart(base, [BACKSLASH] + rest, after);
    DropAfterCons(BACKSLASH, rest, false);
    DropBeforePart(part, [BACKSLASH] + d);
    DropBeforeCons(BACKSLASH, d);
    CatAssoc(TrimRight(part), [BACKSLASH], DropBefore(d));
  }

  /** Cleaning a name is turning '/' into a backslash and trimming the parts between backslashes. */
  lemma CleanTrimsParts(s: seq<byte>)
    ensures Clean(s) == TrimParts(Slashes(s), false)
  {
    DropsTrimParts(Slashes(s), false);
  }

  // ---------------------------------------------------------------- a clean path stays in front

  lemma {:induction false} CleanKeepsPrefix(base: seq<byte>, rest: seq<byte>)
    requires IsClean(base) && (base != [] ==> base[|base| - 1] != SPACE)
    ensures Clean(base + [BACKSLASH] + rest) == base + [BACKSLASH] + DropBefore(DropAfter(Slashes(rest), true))
    ensures base + [BACKSLASH] <= Clean(base + [BACKSLASH] + rest)
  {
    var t, u := Slashes(rest), DropAfter(Slashes(rest), true);
    assert Slashes(base + [BACKSLASH] + rest) == base + [BACKSLASH] + t;
    DropAfterPrefix(base, t, false);
    DropBeforePrefix(base, u);
    assert base + [BACKSLASH] + DropBefore(u) == base + ([BACKSLASH] + DropBefore(u));
  }

  lemma {:induction false} DropAfterPrefix(base: seq<byte>, t: seq<byte>, after: bool)
    requires NoneAfter(base)
    requires after && base != [] ==> base[0] != SPACE
    ensures DropAfter(base + [BACKSLASH] + t, after) == base + [BACKSLASH] + DropAfter(t, true)
    decreases |base|
  {
    var s := base + [BACKSLASH] + t;
    if base == [] {
      assert s[1..] == t;
    } else {
      var b := base[1..];
      assert base == [base[0]] + b;
      NoneInFront(base[0], b);
      assert s[1..] == b + [BACKSLASH] + t;
      DropAfterPrefix(b, t, base[0] == BACKSLASH);
      assert [base[0]] + (b + [BACKSLASH] + DropAfter(t, true)) == base + [BACKSLASH] + DropAfter(t, true);
    }
  }

  lemma {:induction false} DropBeforePrefix(base: seq<byte>, u: seq<byte>)
    requires NoneBefore(base)
    requires base != [] ==> base[|base| - 1] != SPACE
    ensures DropBefore(base + [BACKSLASH] + u) == base + [BACKSLASH] + DropBefore(u)
    decreases |base|
  {
    var s := base + [BACKSLASH] + u;
    if base == [] {
      assert s[1..] == u;
    } else {
      var b := base[1..];
      assert base == [base[0]] + b;
      NoneInFront(base[0], b);
      assert s[1..] == b + [BACKSLASH] + u;
      DropBeforePrefix(b, u);
      assert [base[0]] + (b + [BACKSLASH] + DropBefore(u)) == base + [BACKSLASH] + DropBefore(u);
    }
  }

  // ---------------------------------------------------------------- CleanFolderName

  /** Any number of spaces and then a separator. */
  predicate ToSeparator(s: seq<byte>) {
    s != [] && (s[0] == BACKSLASH || s[0] == SLASH || (s[0] == SPACE && ToSeparator(s[1..])))
  }

  /** One or more spaces and then a separator, at the very front of a name. */
  predicate SpacesThenSeparator(s: seq<byte>) {
    s != [] && s[0] == SPACE && ToSeparator(s[1..])
  }

  lemma StrIs(m: seq<byte>, s: seq<byte>)
    ensures IsStr(m, s) ==> NUL in m && StrLen(m) == |s|
  {
    if IsStr(m, s) {
      StrLenOfStr(m, s);
    }
  }

  /** A string in the middle of being shifted down over index `at`. */
  function Shifting(s: seq<byte>, at: nat, j: nat): seq<byte>
    requires at <= j <= |s| && at < |s|
  {
    if j < |s| then WithoutByte(s, at)[..j] + s[j..] else WithoutByte(s, at)
  }

  lemma ShiftStep(m: seq<byte>, s: seq<byte>, at: nat, j: nat)
    requires at <= j < |s| && IsStr(m, Shifting(s, at, j)) && NulFree(s)
    ensures IsStr(m[j := m[j + 1]], Shifting(s, at, j + 1))
  {
    var cur, next := Shifting(s, at, j), Shifting(s, at, j + 1);
    assert forall i | 0 <= i < |next| :: next[i] in s;
    assert forall i | 0 <= i < |s| :: m[i] == m[..|s|][i] == cur[i];
  }

  lemma ShiftEnds(s: seq<byte>, at: nat, j: nat)
    requires at <= j <= |s| && at < |s|
    ensures |Shifting(s, at, j)| == if j < |s| then |s| else |s| - 1
    ensures j == at ==> Shifting(s, at, j) == s
    ensures j == |s| ==> Shifting(s, at, j) == WithoutByte(s, at)
  {
  }

  /** Moves the rest of the string, terminator included, down over the byte at `at`. */
  method DeleteChar(folder: array<byte>, at: nat, ghost s: seq<byte>)
    requires IsStr(folder[..], s) && at < |s|
    modifies folder
    ensures IsStr(folder[..], WithoutByte(s, at))
  {
    hide IsStr, NulFree, WithoutByte, Shifting;
    var j := at;
    ShiftEnds(s, at, at);
    StrIs(folder[..], s);
    StrBytes(folder[..], s);
    while j < StrLen(folder[..])
      invariant at <= j <= |s| < folder.Length && IsStr(folder[..], Shifting(s, at, j))
      invariant NUL in folder[..] && StrLen(folder[..]) == |Shifting(s, at, j)| == if j < |s| then |s| else |s| - 1
      invariant j == |s| ==> Shifting(s, at, j) == WithoutByte(s, at)
      decreases |s| - j
    {
      ShiftStep(folder[..], s, at, j);
      ghost var m := folder[..];
      folder[j] := folder[j + 1];
      assert folder[..] == m[j := m[j + 1]];
      j := j + 1;
      ShiftEnds(s, at, j);
      StrIs(folder[..], Shifting(s, at, j));
    }
  }

  // How the three passes change the string, one deletion at a time.

  lemma {:induction false} DeleteAfter(t: seq<byte>, i: nat, after: bool)
    requires i + 1 < |t| && SpaceAfter(t, i)
    ensures DropAfter(WithoutByte(t, i + 1), after) == DropAfter(t, after)
    decreases i
  {
    var w := WithoutByte(t, i + 1);
    if i == 0 {
      assert w[1..] == t[2..] && t[1..][1..] == t[2..];
    } else {
      assert w[1..] == WithoutByte(t[1..], i);
      DeleteAfter(t[1..], i - 1, if t[0] == SPACE && after then true else t[0] == BACKSLASH);
    }
  }

  lemma {:induction false} DeleteBefore(t: seq<byte>, i: nat)
    requires i + 1 < |t| && SpaceBefore(t, i)
    ensures DropBefore(WithoutByte(t, i)) == DropBefore(t)
    decreases i
  {
    var w := WithoutByte(t, i);
    if i == 0 {
      assert w == t[1..];
      assert DropBefore(t[1..])[0] == BACKSLASH;
    } else {
      assert w[1..] == WithoutByte(t[1..], i - 1);
      DeleteBefore(t[1..], i - 1);
    }
  }

  /** A string whose first `i` bytes have their '/' replaced. */
  function Partly(s: seq<byte>, i: nat): seq<byte>
    requires i <= |s|
  {
    Slashes(s)[..i] + s[i..]
  }

  lemma PartlyStep(m: seq<byte>, s: seq<byte>, i: nat)
    requires i < |s| && IsStr(m, Partly(s, i))
    ensures IsStr(m[i := if m[i] == SLASH then BACKSLASH else m[i]], Partly(s, i + 1))
  {
    var cur, next := Partly(s, i), Partly(s, i + 1);
    StrBytes(m, cur);
    forall k | 0 <= k < |next|
      ensures next[k] != NUL
    {
      assert cur[k] in cur && m[k] == cur[k];
    }
  }

  lemma PartlyEnds(s: seq<byte>)
    ensures Partly(s, 0) == s && Partly(s, |s|) == Slashes(s)
  {
  }

  method ReplaceSlashes(folder: array<byte>, ghost s: seq<byte>)
    requires IsStr(folder[..], s)
    modifies folder
    ensures IsStr(folder[..], Slashes(s))
  {
    hide IsStr, Slashes;
    PartlyEnds(s);
    StrIs(folder[..], s);
    StrBytes(folder[..], s);
    var i := 0;
    while i < StrLen(folder[..])
      invariant 0 <= i <= |s| < folder.Length && IsStr(folder[..], Partly(s, i))
      invariant NUL in folder[..] && StrLen(folder[..]) == |s|
      decreases |s| - i
    {
      PartlyStep(folder[..], s, i);
      ghost var m := folder[..];
      if folder[i] == SLASH {
        folder[i] := BACKSLASH;
      }
      assert folder[..] == m[i := folder[i]];
      i := i + 1;
      StrIs(folder[..], Partly(s, i));
    }
  }

  /** No space follows a backslash among the first `i` bytes. */
  predicate NoneAfterTo(t: seq<byte>, i: nat) {
    forall k | 0 <= k < i && k + 1 < |t| :: !SpaceAfter(t, k)
  }

  /** The second pass: deletes the spaces that follow a backslash. */
  method DeleteSpacesAfter(folder: array<byte>, ghost s: seq<byte>) returns (ghost t: seq<byte>)
    requires IsStr(folder[..], s) && s != []
    modifies folder
    ensures IsStr(folder[..], t) && t == DropAfter(s, false) && t != []
  {
    hide IsStr, DropAfter, NulFree;
    t := s;
    StrIs(folder[..], t);
    StrBytes(folder[..], t);
    var i := 0;
    while i < StrLen(folder[..]) - 1
      invariant IsStr(folder[..], t) && t != [] && NUL in folder[..] && StrLen(folder[..]) == |t| < folder.Length
      invariant forall k | 0 <= k < |t| :: folder[k] == t[k]
      invariant 0 <= i && NoneAfterTo(t, i) && DropAfter(t, false) == DropAfter(s, false)
      decreases |s| - i
      invariant |t| <= |s|
    {
      ghost var was := t;
      if folder[i] == BACKSLASH {
        t := DeleteSpacesAt(folder, i, t);
      }
      forall k | 0 <= k <= i && k + 1 < |t|
        ensures !SpaceAfter(t, k)
      {
        assert k < i ==> !SpaceAfter(was, k);
      }
      i := i + 1;
    }
    DropAfterOfClean(t, false);
  }

  method DeleteSpacesAt(folder: array<byte>, i: nat, ghost s: seq<byte>) returns (ghost t: seq<byte>)
    requires IsStr(folder[..], s) && i + 1 < |s| && s[i] == BACKSLASH
    modifies folder
    ensures IsStr(folder[..], t) && i < |t| <= |s| && forall k | 0 <= k <= i :: t[k] == s[k]
    ensures i + 1 < |t| ==> t[i + 1] != SPACE
    ensures DropAfter(t, false) == DropAfter(s, false)
    ensures NUL in folder[..] && StrLen(folder[..]) == |t| < folder.Length
    ensures forall k | 0 <= k < |t| :: folder[k] == t[k]
  {
    hide IsStr, DropAfter, NulFree;
    t := s;
    StrBytes(folder[..], t);
    while folder[i + 1] == SPACE
      invariant IsStr(folder[..], t) && i < |t| <= |s| && |t| < folder.Length && forall k | 0 <= k <= i :: t[k] == s[k]
      invariant folder[|t|] == NUL && forall k | 0 <= k < |t| :: folder[k] == t[k]
      invariant DropAfter(t, false) == DropAfter(s, false)
      decreases |t|
    {
      assert t[i] == s[i] && t[i + 1] == SPACE;
      DeleteAfter(t, i, false);
      DeleteChar(folder, i + 1, t);
      t := WithoutByte(t, i + 1);
      StrBytes(folder[..], t);
    }
    StrIs(folder[..], t);
  }

  lemma {:induction false} SlashesToSeparator(s: seq<byte>)
    ensures ToSeparator(Slashes(s)) == ToSeparator(s)
    ensures SpacesThenSeparator(Slashes(s)) == SpacesThenSeparator(s)
    decreases |s|
  {
    if s != [] {
      assert Slashes(s)[1..] == Slashes(s[1..]);
      SlashesToSeparator(s[1..]);
    }
  }

  lemma {:induction false} DropAfterToSeparator(t: seq<byte>)
    ensures ToSeparator(DropAfter(t, false)) == ToSeparator(t)
    ensures SpacesThenSeparator(DropAfter(t, false)) == SpacesThenSeparator(t)
  {
    if t != [] {
      DropAfterToSeparator(t[1..]);
      assert ([t[0]] + DropAfter(t[1..], t[0] == BACKSLASH))[1..] == DropAfter(t[1..], t[0] == BACKSLASH);
    }
  }

  /** The last byte before `i` that is not a space: where the inner loop of the third pass stops,
      begun at a separator at `i`. It is -1 when all are spaces, and the loop goes on to look
      before the front. */
  function SpacesStop(t: seq<byte>, i: nat): (k: int)
    requires i <= |t|
    ensures -1 <= k < i && (k >= 0 ==> t[k] != SPACE)
    ensures forall m | k < m < i :: t[m] == SPACE
  {
    if i == 0 then -1
    else if t[i - 1] != SPACE then i - 1
    else SpacesStop(t, i - 1)
  }

  /** Whether the third pass, come to `i`, will look before the front. */
  predicate PassLeaves(t: seq<byte>, i: int)
    requires i < |t|
    decreases i
  {
    i > 0 &&
    if t[i] == BACKSLASH then SpacesStop(t, i) == -1 || PassLeaves(t, SpacesStop(t, i))
    else PassLeaves(t, i - 1)
  }

  predicate SpacesUpTo(t: seq<byte>, j: nat) {
    j < |t| && t[j] == BACKSLASH && forall m | 0 <= m < j :: t[m] == SPACE
  }

  lemma {:induction false} PassLeavesAt(t: seq<byte>, i: int)
    requires i < |t|
    ensures PassLeaves(t, i) <==> exists j: nat :: 0 < j <= i && SpacesUpTo(t, j)
    decreases i
  {
    if i > 0 {
      if t[i] == BACKSLASH {
        var k := SpacesStop(t, i);
        if k == -1 {
          assert SpacesUpTo(t, i);
        } else {
          PassLeavesAt(t, k);
          forall j: nat | k < j <= i
            ensures !SpacesUpTo(t, j)
          {
            assert t[k] != SPACE;
          }
        }
      } else {
        PassLeavesAt(t, i - 1);
      }
    }
  }

  lemma {:induction false} ToSeparatorAt(t: seq<byte>)
    requires SLASH !in t
    ensures ToSeparator(t) <==> exists j: nat :: SpacesUpTo(t, j)
  {
    if t != [] {
      assert t[0] in t;
      assert forall b | b in t[1..] :: b in t;
      ToSeparatorAt(t[1..]);
      if ToSeparator(t) {
        if t[0] == BACKSLASH {
          assert SpacesUpTo(t, 0);
        } else {
          var j: nat :| SpacesUpTo(t[1..], j);
          assert forall m | 0 < m <= j :: t[m] == t[1..][m - 1];
          assert SpacesUpTo(t, j + 1);
        }
      }
      if j: nat :| SpacesUpTo(t, j) {
        if j > 0 {
          assert forall m | 0 <= m < j - 1 :: t[1..][m] == t[m + 1];
          assert SpacesUpTo(t[1..], j - 1);
        }
      }
    }
  }

  /** The third pass looks before the front of the name if and only if it begins with spaces and
      then a separator. */
  lemma PassLeavesExactly(t: seq<byte>)
    requires SLASH !in t && t != []
    ensures PassLeaves(t, |t| - 1) <==> SpacesThenSeparator(t)
  {
    hide PassLeaves, ToSeparator;
    PassLeavesAt(t, |t| - 1);
    assert forall b | b in t[1..] :: b in t;
    ToSeparatorAt(t[1..]);
    if t[0] == SPACE {
      if j: nat :| SpacesUpTo(t[1..], j) {
        assert forall m | 0 < m <= j :: t[m] == t[1..][m - 1];
        assert SpacesUpTo(t, j + 1);
      }
      if j: nat :| 0 < j && SpacesUpTo(t, j) {
        assert forall m | 0 <= m < j - 1 :: t[1..][m] == t[m + 1];
        assert SpacesUpTo(t[1..], j - 1);
      }
    }
  }

  /** The name of two spaces, a backslash and an x makes it do so. */
  lemma LeadingSpacesLeave()
    ensures var t := [SPACE, SPACE, BACKSLASH, 120];
      SpacesStop(t, 2) == -1 && PassLeaves(t, 3) && SpacesThenSeparator(t)
  {
    var t: seq<byte> := [SPACE, SPACE, BACKSLASH, 120];
    assert SpacesStop(t, 1) == -1;
    assert PassLeaves(t, 2);
    assert t[1..][1..][0] == BACKSLASH;
  }

  lemma {:induction false} StopsAlike(s: seq<byte>, t: seq<byte>, i: nat)
    requires i <= |s| && i <= |t| && forall m | 0 <= m < i :: s[m] == t[m]
    ensures SpacesStop(s, i) == SpacesStop(t, i)
  {
    if i > 0 {
      StopsAlike(s, t, i - 1);
    }
  }

  lemma {:induction false} LeavesAlike(s: seq<byte>, t: seq<byte>, i: int)
    requires i < |s| && i < |t| && forall m | 0 <= m <= i :: s[m] == t[m]
    ensures PassLeaves(s, i) == PassLeaves(t, i)
    decreases i
  {
    if i > 0 {
      StopsAlike(s, t, i);
      LeavesAlike(s, t, if s[i] == BACKSLASH then SpacesStop(s, i) else i - 1);
    }
  }

  /** No space leads up to a backslash from index `i` on. */
  predicate NoneBeforeFrom(t: seq<byte>, i: int) {
    forall k | 0 <= k < |t| - 1 && i <= k :: !SpaceBefore(t, k)
  }

  /** The third pass, backwards: deletes the spaces that lead up to a backslash. It is left when
      it would look before the front. */
  method DeleteSpacesBefore(folder: array<byte>, ghost s: seq<byte>) returns (inside: bool, ghost t: seq<byte>)
    requires IsStr(folder[..], s) && s != []
    modifies folder
    ensures inside <==> !PassLeaves(s, |s| - 1)
    ensures inside ==> IsStr(folder[..], t) && t == DropBefore(s)
  {
    hide IsStr, DropBefore, NulFree, PassLeaves;
    t := s;
    StrIs(folder[..], t);
    StrBytes(folder[..], t);
    var i := StrLen(folder[..]) - 1;
    while i > 0
      invariant IsStr(folder[..], t) && 0 <= i < |t| < folder.Length
      invariant forall k | 0 <= k < |t| :: folder[k] == t[k]
      invariant NoneBeforeFrom(t, i) && DropBefore(t) == DropBefore(s)
      invariant PassLeaves(t, i) <==> PassLeaves(s, |s| - 1)
      decreases i
    {
      PassStep(t, i);
      if folder[i] == BACKSLASH {
        ghost var u := t;
        inside, i, t := DeleteSpacesUpTo(folder, i, t);
        if !inside {
          return;
        }
        LeavesAlike(u, t, i - 1);
      }
      i := i - 1;
    }
    PassEnds(t, i);
    DropBeforeOfClean(t);
    inside := true;
  }

  lemma PassStep(t: seq<byte>, i: int)
    requires 0 < i < |t|
    ensures PassLeaves(t, i) <==>
      if t[i] == BACKSLASH then SpacesStop(t, i) == -1 || PassLeaves(t, SpacesStop(t, i)) else PassLeaves(t, i - 1)
  {
  }

  lemma PassEnds(t: seq<byte>, i: int)
    requires i <= 0 && i < |t|
    ensures !PassLeaves(t, i)
  {
  }

  method DeleteSpacesUpTo(folder: array<byte>, at: nat, ghost s: seq<byte>)
    returns (inside: bool, i: nat, ghost t: seq<byte>)
    requires IsStr(folder[..], s) && 0 < at < |s| && s[at] == BACKSLASH
    requires NoneBeforeFrom(s, at)
    modifies folder
    ensures inside <==> SpacesStop(s, at) >= 0
    ensures inside ==> IsStr(folder[..], t) && i == SpacesStop(s, at) + 1 <= at && i < |t| < folder.Length
    ensures inside ==> forall k | 0 <= k < |t| :: folder[k] == t[k]
    ensures inside ==> forall k | 0 <= k < i :: t[k] == s[k]
    ensures inside ==> NoneBeforeFrom(t, i - 1) && DropBefore(t) == DropBefore(s)
  {
    hide IsStr, DropBefore, NulFree;
    i, t := at, s;
    StrBytes(folder[..], t);
    while i > 0 && folder[i - 1] == SPACE
      invariant IsStr(folder[..], t) && 0 <= i <= at && i < |t| < folder.Length
      invariant forall k | 0 <= k < |t| :: folder[k] == t[k]
      invariant forall k | 0 <= k < i :: t[k] == s[k]
      invariant SpacesStop(s, i) == SpacesStop(s, at)
      invariant t[i] == BACKSLASH && NoneBeforeFrom(t, i) && DropBefore(t) == DropBefore(s)
      decreases i
    {
      assert SpaceBefore(t, i - 1);
      DeleteBefore(t, i - 1);
      DeleteChar(folder, i - 1, t);
      NoneBeforeWithout(t, i - 1);
      t := WithoutByte(t, i - 1);
      StrBytes(folder[..], t);
      i := i - 1;
    }
    inside := i > 0;
  }

  lemma NoneBeforeWithout(t: seq<byte>, j: nat)
    requires j + 1 < |t| && NoneBeforeFrom(t, j + 1)
    ensures NoneBeforeFrom(WithoutByte(t, j), j)
  {
    forall k | j <= k < |t| - 2
      ensures !SpaceBefore(WithoutByte(t, j), k)
    {
      assert !SpaceBefore(t, k + 1);
    }
  }

  /** Cleans the name in place; `inside` says that it does not look before the front. */
  method CleanFolderName(folder: array<byte>) returns (inside: bool)
    requires NUL in folder[..]
    modifies folder
    ensures inside <==> !SpacesThenSeparator(old(folder[..StrLen(folder[..])]))
    ensures inside ==> IsStr(folder[..], Clean(old(folder[..StrLen(folder[..])])))
  {
    hide PassLeaves, ToSeparator;
    ghost var s := folder[..StrLen(folder[..])];
    if StrLen(folder[..]) == 0 {
      return true;
    }
    SlashesToSeparator(s);
    DropAfterToSeparator(Slashes(s));
    ReplaceSlashes(folder, s);
    ghost var t := DeleteSpacesAfter(folder, Slashes(s));
    DropAfterHasNoSlash(s);
    PassLeavesExactly(t);
    inside, t := DeleteSpacesBefore(folder, t);
  }

  lemma DropAfterHasNoSlash(s: seq<byte>)
    ensures SLASH !in DropAfter(Slashes(s), false)
  {
    DropAfterKeeps(Slashes(s), false);
  }

  lemma {:induction false} DropAfterKeeps(t: seq<byte>, after: bool)
    requires SLASH !in t
    ensures SLASH !in DropAfter(t, after)
  {
    if t != [] {
      assert t[0] in t && forall b | b in t[1..] :: b in t;
      DropAfterKeeps(t[1..], true);
      DropAfterKeeps(t[1..], t[0] == BACKSLASH);
    }
  }

  // ---------------------------------------------------------------- SetSessPath

  const UP: seq<byte> := [DOT, DOT]

  /** A path that is the initial one or below it. */
  predicate Below(initial: seq<byte>, path: seq<byte>) {
    path == initial || initial + [BACKSLASH] <= path
  }

  /** The index of the last backslash, or 0. */
  function LastBackslash(path: seq<byte>): (i: nat)
    requires path != []
    ensures i < |path| && BACKSLASH !in path[i + 1..] && (i == 0 || path[i] == BACKSLASH)
  {
    LastBackslashFrom(path, |path| - 1)
  }

  function LastBackslashFrom(path: seq<byte>, n: nat): (i: nat)
    requires n < |path| && BACKSLASH !in path[n + 1..]
    ensures i <= n && BACKSLASH !in path[i + 1..] && (i == 0 || path[i] == BACKSLASH)
  {
    if path[n] == BACKSLASH || n == 0 then n
    else
      assert path[n..] == [path[n]] + path[n + 1..];
      LastBackslashFrom(path, n - 1)
  }

  /** The session path after SetSessPath( dec ). */
  function Navigate(initial: seq<byte>, path: seq<byte>, dec: seq<byte>): seq<byte> {
    Clean(if dec != UP then path + [BACKSLASH] + dec
          else if path == initial || path == [] then path
          else path[..LastBackslash(path)])
  }

  /** The initial path as it is configured. */
  predicate GoodInitial(initial: seq<byte>) {
    IsClean(initial) && (initial != [] ==> initial[|initial| - 1] != SPACE)
  }

  lemma PrefixIsClean(t: seq<byte>, n: nat)
    requires n <= |t| && IsClean(t)
    ensures IsClean(t[..n])
  {
    forall i | 0 <= i < n - 1
      ensures !SpaceAfter(t[..n], i) && !SpaceBefore(t[..n], i)
    {
      assert !SpaceAfter(t, i) && !SpaceBefore(t, i);
    }
  }

  /** One step of navigation never leaves the initial folder, and the path stays clean. */
  lemma NavigateStaysBelow(initial: seq<byte>, path: seq<byte>, dec: seq<byte>)
    requires GoodInitial(initial) && Below(initial, path) && IsClean(path)
    ensures Below(initial, Navigate(initial, path, dec)) && IsClean(Navigate(initial, path, dec))
  {
    if dec != UP {
      CleanIsClean(path + [BACKSLASH] + dec);
      var rest := if path == initial then dec else path[|initial| + 1..] + [BACKSLASH] + dec;
      assert path + [BACKSLASH] + dec == initial + [BACKSLASH] + rest;
      CleanKeepsPrefix(initial, rest);
    } else if path == initial || path == [] {
      CleanOfClean(path);
    } else {
      var n := LastBackslash(path);
      assert path[|initial|] == BACKSLASH;
      forall i | n < i < |path|
        ensures path[i] != BACKSLASH
      {
        assert path[i] == path[n + 1..][i - n - 1];
      }
      PrefixIsClean(path, n);
      CleanOfClean(path[..n]);
      assert n > |initial| ==> initial + [BACKSLASH] <= path[..n];
      assert n == |initial| ==> path[..n] == initial;
    }
  }

  function NavigateAll(initial: seq<byte>, path: seq<byte>, decs: seq<seq<byte>>): seq<byte>
    decreases |decs|
  {
    if decs == [] then path else NavigateAll(initial, Navigate(initial, path, decs[0]), decs[1..])
  }

  /** Over any navigation from the initial folder, the session path is that folder or below it. */
  lemma {:induction false} NavigationStaysBelow(initial: seq<byte>, path: seq<byte>, decs: seq<seq<byte>>)
    requires GoodInitial(initial) && Below(initial, path) && IsClean(path)
    ensures Below(initial, NavigateAll(initial, path, decs)) && IsClean(NavigateAll(initial, path, decs))
    decreases |decs|
  {
    if decs != [] {
      NavigateStaysBelow(initial, path, decs[0]);
      hide Navigate, Below, IsClean, GoodInitial;
      NavigationStaysBelow(initial, Navigate(initial, path, decs[0]), decs[1..]);
    }
  }

  /** The name of one folder. */
  predicate FolderName(dec: seq<byte>) {
    dec != UP && BACKSLASH !in dec && SLASH !in dec
  }

  /** Going down puts the name of the folder behind the path. */
  lemma DownAddsFolder(initial: seq<byte>, path: seq<byte>, dec: seq<byte>)
    requires IsClean(path) && (path != [] ==> path[|path| - 1] != SPACE) && FolderName(dec)
    ensures Navigate(initial, path, dec) == path + [BACKSLASH] + TrimLeft(dec)
  {
    hide DropAfter, DropBefore, TrimLeft, IsClean;
    CleanKeepsPrefix(path, dec);
    assert forall i | 0 <= i < |dec| :: dec[i] in dec;
    assert Slashes(dec) == dec;
    LastPart(dec, true);
  }

  /** Going up leaves the last folder and no more: it undoes going down, if and only if the path
      did not end in a space, which is lost when a folder is put behind it. */
  lemma UpUndoesDown(initial: seq<byte>, path: seq<byte>, dec: seq<byte>)
    requires GoodInitial(initial) && Below(initial, path) && IsClean(path) && FolderName(dec)
    ensures Navigate(initial, Navigate(initial, path, dec), UP) == path
      <==> (path == [] || path[|path| - 1] != SPACE)
  {
    hide Clean, Slashes, LastBackslash, TrimLeft;
    var down := Navigate(initial, path, dec);
    NavigateStaysBelow(initial, path, dec);
    CleanOfClean(down);
    if path == [] || path[|path| - 1] != SPACE {
      DownAddsFolder(initial, path, dec);
      TrimLeftKeeps(dec);
      LastIs(down, |path|);
      assert down[..|path|] == path;
      CleanOfClean(path);
    } else if down != initial && down != [] {
      UpEndsInNoSpace(down);
    }
  }

  /** A clean path that is cut at its last backslash does not end in a space. */
  lemma UpEndsInNoSpace(path: seq<byte>)
    requires IsClean(path) && path != []
    ensures var up := path[..LastBackslash(path)];
      Clean(up) == up && (up != [] ==> up[|up| - 1] != SPACE)
  {
    hide Clean;
    var n := LastBackslash(path);
    PrefixIsClean(path, n);
    CleanOfClean(path[..n]);
    assert n > 0 ==> !SpaceBefore(path, n - 1);
  }

  lemma {:induction false} NoSeparatorAhead(t: seq<byte>)
    requires SLASH !in t && NoneBefore(t)
    ensures SpacesThenSeparator(t) == false
    ensures t != [] && t[0] == SPACE ==> !ToSeparator(t)
  {
    if t != [] {
      assert t == [t[0]] + t[1..];
      NoneInFront(t[0], t[1..]);
      NoSeparatorAhead(t[1..]);
      assert t[1..] != [] ==> t[1..][0] in t;
    }
  }

  /** A clean path with something appended still has no separator behind leading spaces. */
  lemma {:induction false} AppendedHasNone(t: seq<byte>, rest: seq<byte>)
    requires IsClean(t) && (t == [] || BACKSLASH in t || t[|t| - 1] != SPACE)
    ensures !SpacesThenSeparator(t + [BACKSLASH] + rest)
    ensures t != [] && t[0] == SPACE ==> !ToSeparator(t + [BACKSLASH] + rest)
    decreases |t|
  {
    if t != [] && t[0] == SPACE {
      var u := t[1..];
      assert t == [t[0]] + u;
      NoneInFront(t[0], u);
      assert (t + [BACKSLASH] + rest)[1..] == u + [BACKSLASH] + rest;
      assert u != [];
      assert u[0] in t && u[0] != SLASH && u[0] != BACKSLASH;
      assert forall i | 0 <= i < |u| :: u[i] in t;
      if BACKSLASH in t {
        var k :| 0 <= k < |t| && t[k] == BACKSLASH;
        assert u[k - 1] == BACKSLASH;
      }
      AppendedHasNone(u, rest);
    }
  }

  class SessionPath {
    const initial: seq<byte>
    const sesspath: array<byte>

    constructor (initial: seq<byte>, capacity: nat)
      requires GoodInitial(initial) && NulFree(initial) && |initial| < capacity
      ensures this.initial == initial && sesspath.Length == capacity && fresh(sesspath)
      ensures Valid() && Path() == initial
    {
      this.initial := initial;
      sesspath := new byte[capacity](i => if 0 <= i < |initial| then initial[i] else NUL);
      new;
      assert sesspath[..|initial|] == initial;
      StrLenOfStr(sesspath[..], initial);
      assert Below(initial, initial);
    }

    function Path(): seq<byte>
      requires NUL in sesspath[..]
      reads sesspath
    {
      sesspath[..StrLen(sesspath[..])]
    }

    ghost predicate Valid()
      reads sesspath
    {
      && GoodInitial(initial) && NUL in sesspath[..]
      && Below(initial, Path()) && IsClean(Path())
    }

    method Append(s: seq<byte>, ghost path: seq<byte>)
      requires IsStr(sesspath[..], path) && NulFree(s) && |path| + |s| < sesspath.Length
      modifies sesspath
      ensures IsStr(sesspath[..], path + s)
    {
      StrIs(sesspath[..], path);
      StrBytes(sesspath[..], path);
      var n := StrLen(sesspath[..]);
      forall i | 0 <= i < |s| {
        sesspath[n + i] := s[i];
      }
      sesspath[n + |s|] := NUL;
      assert sesspath[..n + |s|] == path + s;
    }

    /** Cuts the path at its last backslash. */
    method CutLast(ghost path: seq<byte>)
      requires IsStr(sesspath[..], path) && path != []
      modifies sesspath
      ensures IsStr(sesspath[..], path[..LastBackslash(path)])
    {
      StrIs(sesspath[..], path);
      StrBytes(sesspath[..], path);
      var i := StrLen(sesspath[..]) - 1;
      while sesspath[i] != BACKSLASH && i > 0
        invariant 0 <= i < |path| && forall k | i < k < |path| :: path[k] != BACKSLASH
        decreases i
      {
        i := i - 1;
      }
      LastIs(path, i);
      sesspath[i] := NUL;
      assert sesspath[..i] == path[..i];
    }

    /** Goes down into a folder or up from one, and returns the path relative to the initial one. */
    method SetSessPath(dec: seq<byte>) returns (rel: seq<byte>)
      requires Valid() && NulFree(dec) && |Path()| + 1 + |dec| < sesspath.Length
      modifies sesspath
      ensures Valid() && Path() == Navigate(initial, old(Path()), dec)
      ensures rel == SkipBackslashes(Path()[|initial|..])
    {
      hide Clean, IsStr, LastBackslash, SkipBackslashes;
      ghost var path := Path();
      NavigateStaysBelow(initial, path, dec);
      PathIsStr(sesspath[..]);
      if dec == UP {
        if Path() != initial {
          CutLast(path);
          path := path[..LastBackslash(path)];
          PrefixIsClean(old(Path()), |path|);
        }
        NoSeparatorAhead(path);
      } else {
        assert path == initial || path[|initial|] == BACKSLASH;
        AppendedHasNone(path, dec);
        Append([BACKSLASH], path);
        Append(dec, path + [BACKSLASH]);
        path := path + [BACKSLASH] + dec;
      }
      StrLenOfStr(sesspath[..], path);
      var inside := CleanFolderName(sesspath);
      StrLenOfStr(sesspath[..], Clean(path));
      rel := SkipBackslashes(Path()[|initial|..]);
    }
  }

  lemma PathIsStr(m: seq<byte>)
    requires NUL in m
    ensures IsStr(m, m[..StrLen(m)])
  {
  }

  lemma {:induction false} LastIs(path: seq<byte>, i: nat)
    requires i < |path| && (i == 0 || path[i] == BACKSLASH) && forall k | i < k < |path| :: path[k] != BACKSLASH
    ensures LastBackslash(path) == i
  {
    var n := LastBackslash(path);
    forall k | n < k < |path|
      ensures path[k] != BACKSLASH
    {
      assert path[k] == path[n + 1..][k - n - 1];
    }
  }

  /** The text without its leading backslashes. */
  function SkipBackslashes(s: seq<byte>): (r: seq<byte>)
    ensures r == [] || r[0] != BACKSLASH
    ensures |r| <= |s| && r == s[|s| - |r|..] && forall i | 0 <= i < |s| - |r| :: s[i] == BACKSLASH
  {
    if s != [] && s[0] == BACKSLASH then SkipBackslashes(s[1..]) else s
  }
}
