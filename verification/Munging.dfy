/** Percent-escaping of names and values (kitty_commun.c). */
module Munging {
  import opened CText

  /** Bytes written as %XY; a dot only at the very front. Bytes above '~' include those that a
      signed char counts as below ' '. */
  predicate Escaped(c: byte, first: bool) {
    || c < SPACE || c > 126
    || c == SPACE || c == BACKSLASH || c == 42 || c == 63 || c == COLON || c == SLASH
    || c == 34 || c == 60 || c == 62 || c == 124 || c == PERCENT
    || (c == DOT && first)
  }

  /** The value the decoder gives any (signed) character in a digit's place. */
  function HexValue(c: byte): int {
    var v := (if c < 128 then c else c - 256) - 48;
    if v > 9 then v - 7 else v
  }

  /** Two digits, cut to a byte. */
  function HexPair(a: byte, b: byte): byte {
    (HexValue(a) * 16 + HexValue(b)) % 256
  }

  lemma HexPairOfHex(c: byte)
    ensures HexPair(HexDigit(c / 16), HexDigit(c % 16)) == c
  {
    assert HexValue(HexDigit(c / 16)) == c / 16 && HexValue(HexDigit(c % 16)) == c % 16;
  }

  /** What one byte is written as. */
  function Piece(c: byte, first: bool): seq<byte> {
    if Escaped(c, first) then [PERCENT, HexDigit(c / 16), HexDigit(c % 16)] else [c]
  }

  function Munge(s: seq<byte>, first: bool): seq<byte> {
    if s == [] then [] else Piece(s[0], first) + Munge(s[1..], false)
  }

  function Unmunge(t: seq<byte>): (s: seq<byte>)
    ensures |s| <= |t|
  {
    if t == [] then []
    else if t[0] == PERCENT && |t| >= 3 then
      [HexPair(t[1], t[2])] + Unmunge(t[3..])
    else [t[0]] + Unmunge(t[1..])
  }

  /** Decoding undoes encoding, for every string. */
  lemma {:induction false} UnmungeInvertsMunge(s: seq<byte>, first: bool)
    ensures Unmunge(Munge(s, first)) == s
  {
    if s != [] {
      var rest := Munge(s[1..], false);
      UnmungeInvertsMunge(s[1..], false);
      if Escaped(s[0], first) {
        var t := [PERCENT, HexDigit(s[0] / 16), HexDigit(s[0] % 16)] + rest;
        assert t[3..] == rest;
        HexPairOfHex(s[0]);
      } else {
        assert ([s[0]] + rest)[1..] == rest;
      }
    }
  }

  lemma MungeIsInjective(s: seq<byte>, t: seq<byte>)
    requires Munge(s, true) == Munge(t, true)
    ensures s == t
  {
    UnmungeInvertsMunge(s, true);
    UnmungeInvertsMunge(t, true);
  }

  /** A visible byte that may stand in a file name: none of " * / : < > ? \ | */
  predicate Harmless(c: byte) {
    33 <= c <= 126 && c !in [34, 42, 47, 58, 60, 62, 63, 92, 124]
  }

  /** The sixteen digits of the escapes. */
  const HEX: seq<byte> := [48, 49, 50, 51, 52, 53, 54, 55, 56, 57, 65, 66, 67, 68, 69, 70]

  /** A harmless byte is written as itself, but for '%' and a dot at the front; any other byte
      is '%' and two digits, the high one first. */
  lemma PieceFormat(c: byte, first: bool)
    ensures Piece(c, first) ==
            if Harmless(c) && c != PERCENT && !(first && c == DOT) then [c] else [37, HEX[c / 16], HEX[c % 16]]
  {
    HexDigitIs(c / 16);
    HexDigitIs(c % 16);
  }

  lemma HexDigitIs(n: nat)
    requires n < 16
    ensures HexDigit(n) == HEX[n]
  {
  }

  /** Munged text is at most three times as long, holds no forbidden byte (so no NUL, space,
      separator or wildcard) and does not begin with a dot. */
  lemma {:induction false} MungedTextIsHarmless(s: seq<byte>, first: bool)
    ensures |Munge(s, first)| <= 3 * |s|
    ensures forall i | 0 <= i < |Munge(s, first)| :: Harmless(Munge(s, first)[i])
    ensures first && s != [] ==> Munge(s, first)[0] != DOT
    ensures NulFree(Munge(s, first))
    ensures s == [] <==> Munge(s, first) == []
  {
    if s != [] {
      MungedTextIsHarmless(s[1..], false);
    }
  }

  /** Harmless text without '%' and without a dot at its front is munged to itself. */
  lemma {:induction false} PlainTextIsKept(s: seq<byte>, first: bool)
    requires forall i | 0 <= i < |s| :: Harmless(s[i]) && s[i] != PERCENT
    requires first && s != [] ==> s[0] != DOT
    ensures Munge(s, first) == s
    decreases |s|
  {
    if s != [] {
      PieceFormat(s[0], first);
      PlainTextIsKept(s[1..], false);
    }
  }

  /** A '%' is only read as the front of an escape where two bytes follow it: other text decodes
      to itself. */
  lemma {:induction false} NoEscapeIsKept(t: seq<byte>)
    requires forall i | 0 <= i < |t| - 2 :: t[i] != PERCENT
    ensures Unmunge(t) == t
    decreases |t|
  {
    if t != [] {
      NoEscapeIsKept(t[1..]);
    }
  }

  lemma MungeStep(s: seq<byte>, i: nat, done: seq<byte>)
    requires i < |s| && Munge(s, true) == done + Munge(s[i..], i == 0)
    ensures Munge(s, true) == (done + Piece(s[i], i == 0)) + Munge(s[i + 1..], false)
  {
    hide *;
    MungeUnfolds(s[i..], i == 0);
    assert s[i..][1..] == s[i + 1..];
    CatAssoc(done, Piece(s[i], i == 0), Munge(s[i + 1..], false));
  }

  lemma MungeUnfolds(s: seq<byte>, first: bool)
    requires s != []
    ensures Munge(s, first) == Piece(s[0], first) + Munge(s[1..], false)
  {
    hide Piece;
  }

  method MungeStr(s: seq<byte>, out: array<byte>)
    requires NulFree(s) && |Munge(s, true)| < out.Length
    modifies out
    ensures IsStr(out[..], Munge(s, true))
  {
    hide Munge, Escaped, NulFree;
    var i, q, candot := 0, 0, false;
    ghost var done: seq<byte> := [];
    assert s[0..] == s;
    assert [] + Munge(s, true) == Munge(s, true);
    while i < |s|
      invariant 0 <= i <= |s| && q == |done| && candot == (i > 0)
      invariant Munge(s, true) == done + Munge(s[i..], i == 0)
      invariant q < out.Length && out[..q] == done
    {
      MungeStep(s, i, done);
      var c := s[i];
      if Escaped(c, !candot) {
        out[q] := PERCENT;
        out[q + 1] := HexDigit(c / 16);
        out[q + 2] := HexDigit(c % 16);
        q := q + 3;
      } else {
        out[q] := c;
        q := q + 1;
      }
      done := done + Piece(c, !candot);
      assert out[..q] == done;
      i := i + 1;
      candot := true;
    }
    MungedTextIsHarmless(s, true);
    MungedTextIsHarmless(s[i..], false);
    out[q] := NUL;
  }

  /** What unmungestr writes: all of the decoded text and a terminator, or, when `outlen` runs
      out first, that many bytes and no terminator. */
  function Unmunged(s: seq<byte>, outlen: int): seq<byte> {
    var d := Unmunge(s);
    if 1 <= outlen <= |d| then d[..outlen] else d + [NUL]
  }

  /** How many bytes the decoder takes at `k`, and the byte it makes of them. */
  function TakenAt(s: seq<byte>, k: nat): (n: nat)
    requires k < |s|
    ensures 0 < n && k + n <= |s|
  {
    if s[k] == PERCENT && k + 2 < |s| then 3 else 1
  }

  function ByteAt(s: seq<byte>, k: nat): byte
    requires k < |s|
  {
    if s[k] == PERCENT && k + 2 < |s| then HexPair(s[k + 1], s[k + 2]) else s[k]
  }

  lemma UnmungeStep(s: seq<byte>, k: nat, done: seq<byte>)
    requires k < |s| && Unmunge(s) == done + Unmunge(s[k..])
    ensures Unmunge(s) == (done + [ByteAt(s, k)]) + Unmunge(s[k + TakenAt(s, k)..])
  {
    hide *;
    var t := s[k..];
    UnmungeUnfolds(t);
    SuffixAt(s, k);
    assert t[TakenAt(s, k)..] == s[k + TakenAt(s, k)..];
    CatAssoc(done, [ByteAt(s, k)], Unmunge(t[TakenAt(s, k)..]));
  }

  lemma SuffixAt(s: seq<byte>, k: nat)
    requires k < |s|
    ensures ByteAt(s[k..], 0) == ByteAt(s, k) && TakenAt(s[k..], 0) == TakenAt(s, k)
  {
    hide HexPair;
  }

  lemma UnmungeUnfolds(t: seq<byte>)
    ensures t == [] ==> Unmunge(t) == []
    ensures t != [] ==> Unmunge(t) == [ByteAt(t, 0)] + Unmunge(t[TakenAt(t, 0)..])
  {
    hide HexPair;
  }

  method DecodeAt(src: array<byte>, ghost inPos: nat, p: nat, ghost s: seq<byte>, ghost k: nat)
    returns (c: byte, n: nat)
    requires k < |s| && p == inPos + k && inPos + |s| < src.Length
    requires forall i | p <= i <= inPos + |s| :: src[i] == StrAt(s, i - inPos)
    requires forall i | 0 <= i < |s| :: s[i] != NUL
    ensures c == ByteAt(s, k) && n == TakenAt(s, k)
  {
    hide HexPair;
    if src[p] == PERCENT && src[p + 1] != NUL && src[p + 2] != NUL {
      return HexPair(src[p + 1], src[p + 2]), 3;
    }
    return src[p], 1;
  }

  /** The decoding loop. It stops after `done`, at the end of the string or when `outlen` has
      run out. */
  method UnmungeLoop(src: array<byte>, inPos: nat, out: array<byte>, outPos: nat, outlen: int, ghost s: seq<byte>)
    returns (q: nat, full: bool, ghost done: seq<byte>)
    requires inPos + |s| < src.Length && forall i | inPos <= i <= inPos + |s| :: src[i] == StrAt(s, i - inPos)
    requires forall i | 0 <= i < |s| :: s[i] != NUL
    requires src == out ==> outPos <= inPos
    requires outPos + |Unmunged(s, outlen)| <= out.Length
    modifies out
    ensures q == outPos + |done| <= out.Length && forall i | outPos <= i < q :: out[i] == done[i - outPos]
    ensures forall i | 0 <= i < out.Length && !(outPos <= i < q) :: out[i] == old(out[i])
    ensures Unmunged(s, outlen) == if full then done else done + [NUL]
  {
    hide Unmunge, Unmunged, NulFree, ByteAt, TakenAt;
    var p, left := inPos, outlen;
    ghost var k := 0;
    q, full, done := outPos, false, [];
    assert s[0..] == s;
    assert [] + Unmunge(s) == Unmunge(s);
    while src[p] != NUL
      invariant 0 <= k <= |s| && p == inPos + k && q == outPos + |done| && |done| <= k && left == outlen - |done|
      invariant Unmunge(s) == done + Unmunge(s[k..]) && (outlen >= 1 ==> left >= 1)
      invariant forall i | p <= i <= inPos + |s| :: src[i] == StrAt(s, i - inPos)
      invariant q <= out.Length && forall i | outPos <= i < q :: out[i] == done[i - outPos]
      invariant forall i | 0 <= i < out.Length && !(outPos <= i < q) :: out[i] == old(out[i])
      decreases |s| - k
    {
      UnmungeStep(s, k, done);
      RoomLeft(s, outlen, done, ByteAt(s, k), s[k + TakenAt(s, k)..]);
      var c, n := DecodeAt(src, inPos, p, s, k);
      out[q] := c;
      done := done + [c];
      q := q + 1;
      left := left - 1;
      if left == 0 {
        full := true;
        return;
      }
      p, k := p + n, k + n;
    }
    AllDecoded(s, outlen, done, s[k..]);
  }

  /** Decodes the C string `s` at `src[inPos..]` to `out[outPos..]`. The two may be the same
      memory as long as the output does not start behind the input. */
  method UnmungeStr(src: array<byte>, inPos: nat, out: array<byte>, outPos: nat, outlen: int, ghost s: seq<byte>)
    requires inPos <= src.Length && IsStr(src[inPos..], s)
    requires src == out ==> outPos <= inPos
    requires outPos + |Unmunged(s, outlen)| <= out.Length
    modifies out
    ensures var w := Unmunged(s, outlen); out[outPos..outPos + |w|] == w
    ensures forall i | 0 <= i < out.Length && !(outPos <= i < outPos + |Unmunged(s, outlen)|) :: out[i] == old(out[i])
  {
    hide Unmunged;
    Terminated(src[inPos..], s);
    assert forall i | inPos <= i <= inPos + |s| :: src[i] == src[inPos..][i - inPos];
    var q, full; ghost var done;
    q, full, done := UnmungeLoop(src, inPos, out, outPos, outlen, s);
    if !full {
      out[q] := NUL;
    }
  }

  /** The byte about to be written has its place. */
  lemma RoomLeft(s: seq<byte>, outlen: int, done: seq<byte>, c: byte, rest: seq<byte>)
    requires Unmunge(s) == (done + [c]) + Unmunge(rest) && (outlen >= 1 ==> outlen - |done| >= 1)
    ensures |done| < |Unmunged(s, outlen)|
    ensures outlen == |done| + 1 ==> Unmunged(s, outlen) == done + [c]
  {
    hide Unmunge;
  }

  lemma AllDecoded(s: seq<byte>, outlen: int, done: seq<byte>, rest: seq<byte>)
    requires rest == [] && Unmunge(s) == done + Unmunge(rest) && (outlen >= 1 ==> outlen - |done| >= 1)
    ensures Unmunged(s, outlen) == done + [NUL]
  {
    hide Unmunge;
    UnmungeUnfolds(rest);
  }

  /** The byte at index `i` of a C string, terminator included. */
  function StrAt(s: seq<byte>, i: nat): byte {
    if i < |s| then s[i] else NUL
  }

  lemma Terminated(m: seq<byte>, s: seq<byte>)
    requires IsStr(m, s)
    ensures forall i | 0 <= i <= |s| :: m[i] == StrAt(s, i)
    ensures forall i | 0 <= i < |s| :: s[i] != NUL
  {
    forall i | 0 <= i < |s|
      ensures m[i] == s[i]
    {
      assert m[..|s|][i] == s[i];
    }
  }

  /** Decoding a munged string in memory gives it back, terminator included, exactly when
      `outlen` does not run out on it. */
  lemma RoundTripInMemory(s: seq<byte>, outlen: int)
    requires NulFree(s)
    ensures IsStr(Unmunged(Munge(s, true), outlen), s) <==> !(1 <= outlen <= |s|)
    ensures outlen > |s| ==> Unmunged(Munge(s, true), outlen) == s + [NUL]
  {
    UnmungeInvertsMunge(s, true);
  }
}
