/** Bytes and NUL-terminated text, shared by the other modules. */
module CText {

  type byte = b: int | 0 <= b < 256

  const NUL: byte := 0
  const LF: byte := 10
  const CR: byte := 13
  const SPACE: byte := 32
  const PERCENT: byte := 37
  const COMMA: byte := 44
  const DOT: byte := 46
  const SLASH: byte := 47
  const ZERO: byte := 48
  const COLON: byte := 58
  const EQUALS: byte := 61
  const AT: byte := 64
  const LBRACKET: byte := 91
  const BACKSLASH: byte := 92
  const RBRACKET: byte := 93

  /** The bytes as plain numbers. */
  function AsNats(s: seq<byte>): (n: seq<nat>)
    ensures |n| == |s| && forall i | 0 <= i < |s| :: n[i] == s[i]
  {
    seq(|s|, i requires 0 <= i < |s| => s[i] as nat)
  }

  /** The upper-case hex digit of a number below 16. */
  function HexDigit(n: nat): (c: byte)
    requires n < 16
    ensures 48 <= c <= 57 || 65 <= c <= 70
  {
    if n < 10 then 48 + n else 55 + n
  }

  /** The contents of a C string: everything before its terminator. */
  predicate NulFree(s: seq<byte>) {
    NUL !in s
  }

  function StrLen(m: seq<byte>): (n: nat)
    requires NUL in m
    ensures n < |m| && m[n] == NUL && NulFree(m[..n])
  {
    if m[0] == NUL then 0
    else
      var n := StrLen(m[1..]);
      assert m[..n + 1] == [m[0]] + m[1..][..n];
      n + 1
  }

  /** Memory `m` begins with the C string `s` and its terminator. */
  predicate IsStr(m: seq<byte>, s: seq<byte>) {
    NulFree(s) && |s| < |m| && m[..|s|] == s && m[|s|] == NUL
  }

  lemma StrBytes(m: seq<byte>, s: seq<byte>)
    requires IsStr(m, s)
    ensures |s| < |m| && NulFree(s) && m[|s|] == NUL && forall i | 0 <= i < |s| :: m[i] == s[i] && s[i] != NUL
  {
    forall i | 0 <= i < |s|
      ensures m[i] == s[i] && s[i] != NUL
    {
      assert m[..|s|][i] == s[i] && s[i] in s;
    }
  }

  lemma StrLenOfStr(m: seq<byte>, s: seq<byte>)
    requires IsStr(m, s)
    ensures NUL in m && StrLen(m) == |s| && m[..StrLen(m)] == s
  {
    var n := StrLen(m);
    forall i | 0 <= i < |s|
      ensures m[i] != NUL
    {
      assert m[..|s|][i] == s[i] && s[i] in s;
    }
    forall i | 0 <= i < n
      ensures m[i] != NUL
    {
      assert m[..n][i] in m[..n];
    }
  }

  /** The text with one byte taken out. */
  function WithoutByte(s: seq<byte>, i: nat): seq<byte>
    requires i < |s|
  {
    s[..i] + s[i + 1..]
  }

  lemma CatCons<T>(s: seq<T>, u: seq<T>)
    ensures s != [] ==> s == [s[0]] + s[1..] && s + u == [s[0]] + (s[1..] + u) && (s + u)[1..] == s[1..] + u
    ensures s == [] ==> s + u == u
    ensures s + [] == s && [] + u == u
  {
  }

  lemma CatAssoc<T>(a: seq<T>, b: seq<T>, c: seq<T>)
    ensures (a + b) + c == a + (b + c)
  {
  }

  lemma SliceOfSuffix<T>(s: seq<T>, k: nat, n: nat)
    requires k + n <= |s|
    ensures s[k..][..n] == s[k..k + n] && s[k..][n..] == s[k + n..]
  {
  }

  lemma CatEmpty<T>(s: seq<T>)
    ensures s + [] == s && [] + s == s
  {
  }

  /** The index of the first `c`, or the length. */
  function Index(s: seq<byte>, c: byte): (k: nat)
    ensures k <= |s| && c !in s[..k] && (k < |s| ==> s[k] == c)
  {
    if s == [] || s[0] == c then 0
    else
      var k := Index(s[1..], c);
      assert s[..k + 1] == [s[0]] + s[1..][..k];
      k + 1
  }

  lemma {:induction false} IndexIsUnique(s: seq<byte>, c: byte, k: nat)
    requires k <= |s| && c !in s[..k] && (k < |s| ==> s[k] == c)
    ensures Index(s, c) == k
  {
    var i := Index(s, c);
    assert forall j | 0 <= j < k :: s[..k][j] == s[j];
    assert forall j | 0 <= j < i :: s[..i][j] == s[j];
    assert !(i < k);
  }

  lemma IndexIsFirst(s: seq<byte>, c: byte, x: nat)
    requires x < |s| && s[x] == c
    ensures Index(s, c) <= x
  {
    var i := Index(s, c);
    assert forall j | 0 <= j < i :: s[..i][j] == s[j];
  }

  /** The C string at `m[from..]` is `s`. */
  predicate HoldsAt(m: array<byte>, from: nat, s: seq<byte>)
    reads m
  {
    && from + |s| < m.Length && m[from + |s|] == NUL
    && forall i | 0 <= i < |s| :: s[i] != NUL && m[from + i] == s[i]
  }

  lemma OnlyNulEnds(m: array<byte>, from: nat, s: seq<byte>, n: nat)
    requires HoldsAt(m, from, s) && n <= |s|
    ensures m[from + n] == NUL <==> n == |s|
  {
    if n < |s| {
      assert s[n] != NUL;
    }
  }

  /** Copies the string to `dst[at..]`, as strcpy does; its length is returned. */
  method StrCpy(dst: array<byte>, at: nat, src: array<byte>, from: nat, ghost s: seq<byte>) returns (n: nat)
    requires HoldsAt(src, from, s) && dst != src && at + |s| < dst.Length
    modifies dst
    ensures HoldsAt(dst, at, s) && n == |s|
    ensures forall i | 0 <= i < at :: dst[i] == old(dst[i])
  {
    n := 0;
    while src[from + n] != NUL
      invariant n <= |s| && forall k | 0 <= k < n :: dst[at + k] == s[k]
      invariant forall i | 0 <= i < at :: dst[i] == old(dst[i])
      decreases |s| - n
    {
      dst[at + n] := src[from + n];
      n := n + 1;
    }
    OnlyNulEnds(src, from, s, n);
    dst[at + n] := NUL;
  }

  /** The C string at `m[from..]`, as a value. */
  method TextOf(m: array<byte>, from: nat, ghost s: seq<byte>) returns (t: seq<byte>)
    requires HoldsAt(m, from, s)
    ensures t == s
  {
    var i := 0;
    while m[from + i] != NUL
      invariant i <= |s| && m[from..from + i] == s[..i]
      decreases |s| - i
    {
      i := i + 1;
    }
    OnlyNulEnds(m, from, s, i);
    t := m[from..from + i];
  }

  function Concat(pieces: seq<seq<byte>>): seq<byte> {
    if pieces == [] then [] else pieces[0] + Concat(pieces[1..])
  }

  lemma {:induction false} ConcatOfBoth(s: seq<seq<byte>>, t: seq<seq<byte>>)
    ensures Concat(s + t) == Concat(s) + Concat(t)
    decreases |s|
  {
    if s == [] {
      assert s + t == t;
    } else {
      assert (s + t)[1..] == s[1..] + t;
      ConcatOfBoth(s[1..], t);
    }
  }

  lemma ConcatOfOne(s: seq<byte>)
    ensures Concat([s]) == s && Concat([]) == []
  {
    assert [s][1..] == [];
    assert s + [] == s;
  }
}
