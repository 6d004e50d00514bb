/** Old-style host keys turned into new-style ones (kitty_puttytray.c): bignums written in groups
    of four hex digits, least significant group first, become ordinary hex numbers. */
module HostKeys {
  import opened CText
  import opened Wrappers

  const LOWER_X: byte := 120

  // ---------------------------------------------------------------- numbers and their texts

  predicate IsHex(c: byte) {
    48 <= c <= 57 || 97 <= c <= 102
  }

  predicate AllHex(s: seq<byte>) {
    forall i | 0 <= i < |s| :: IsHex(s[i])
  }

  function DigitValue(c: byte): (v: nat)
    requires IsHex(c)
    ensures v < 16 && (v == 0 <==> c == ZERO)
  {
    if c <= 57 then c - 48 else c - 87
  }

  function Digit(v: nat): (c: byte)
    requires v < 16
    ensures IsHex(c) && DigitValue(c) == v
  {
    if v < 10 then 48 + v else 87 + v
  }

  /** The number an ordinary hex text denotes. */
  function HexNumber(s: seq<byte>): nat
    requires AllHex(s)
  {
    if s == [] then 0 else HexNumber(s[..|s| - 1]) * 16 + DigitValue(s[|s| - 1])
  }

  /** The number an old-style text denotes: groups of four digits, the lowest group first. */
  function OldNumber(h: seq<byte>): nat
    requires AllHex(h) && |h| % 4 == 0
  {
    if h == [] then 0 else HexNumber(h[..4]) + 0x1_0000 * OldNumber(h[4..])
  }

  /** The ordinary text of a number: no leading zero, except for zero itself. */
  function HexText(n: nat): (s: seq<byte>)
    ensures s != [] && AllHex(s)
  {
    if n < 16 then [Digit(n)] else HexText(n / 16) + [Digit(n % 16)]
  }

  lemma {:induction false} HexNumberOfText(n: nat)
    ensures HexNumber(HexText(n)) == n
  {
    var s := HexText(n);
    if n < 16 {
      assert s[..0] == [];
    } else {
      HexNumberOfText(n / 16);
      assert s[..|s| - 1] == HexText(n / 16);
    }
  }

  predicate NoLeadingZero(s: seq<byte>) {
    s != [] && (s[0] == ZERO ==> |s| == 1)
  }

  lemma {:induction false} PositiveNumber(s: seq<byte>)
    requires AllHex(s) && s != [] && s[0] != ZERO
    ensures HexNumber(s) > 0
    decreases |s|
  {
    if |s| > 1 {
      PositiveNumber(s[..|s| - 1]);
    }
  }

  /** A text without a leading zero is the text of its number. */
  lemma {:induction false} TextOfHexNumber(s: seq<byte>)
    requires AllHex(s) && NoLeadingZero(s)
    ensures HexText(HexNumber(s)) == s
    decreases |s|
  {
    var n := |s| - 1;
    var c := s[n];
    assert s == s[..n] + [c] && Digit(DigitValue(c)) == c;
    if n == 0 {
      assert s[..0] == [];
    } else {
      PositiveNumber(s[..n]);
      TextOfHexNumber(s[..n]);
      var m, d := HexNumber(s[..n]), DigitValue(c);
      assert (m * 16 + d) / 16 == m && (m * 16 + d) % 16 == d;
    }
  }

  // ---------------------------------------------------------------- reading the digits backwards

  /** The index with its two low bits flipped. */
  function Xor3(j: nat): nat {
    j / 4 * 4 + (3 - j % 4)
  }

  /** The digits of an old-style text from the least significant one up. */
  function FromLowest(h: seq<byte>): (l: seq<byte>)
    requires |h| % 4 == 0
    ensures |l| == |h| && forall j | 0 <= j < |h| :: Xor3(j) < |h| && l[j] == h[Xor3(j)]
  {
    seq(|h|, j requires 0 <= j < |h| => (InGroup(j, |h|); h[Xor3(j)]))
  }

  lemma InGroup(j: nat, n: nat)
    requires j < n && n % 4 == 0
    ensures Xor3(j) < n
  {
  }

  function LowFirst(l: seq<byte>): nat
    requires AllHex(l)
  {
    if l == [] then 0 else DigitValue(l[0]) + 16 * LowFirst(l[1..])
  }

  lemma {:induction false} LowFirstIsOldNumber(h: seq<byte>)
    requires AllHex(h) && |h| % 4 == 0
    ensures AllHex(FromLowest(h)) && LowFirst(FromLowest(h)) == OldNumber(h)
    decreases |h|
  {
    var l := FromLowest(h);
    if h != [] {
      var rest := FromLowest(h[4..]);
      LowFirstIsOldNumber(h[4..]);
      forall j | 0 <= j < |rest|
        ensures l[j + 4] == rest[j]
      {
        assert Xor3(j + 4) == Xor3(j) + 4;
      }
      assert l[0] == h[3] && l[1] == h[2] && l[2] == h[1] && l[3] == h[0];
      FourDigits(l, rest, h);
    }
  }

  lemma FourDigits(l: seq<byte>, rest: seq<byte>, h: seq<byte>)
    requires |l| >= 4 && AllHex(l) && |h| >= 4 && AllHex(h) && AllHex(rest)
    requires l[0] == h[3] && l[1] == h[2] && l[2] == h[1] && l[3] == h[0]
    requires |rest| == |l| - 4 && forall j | 0 <= j < |rest| :: l[j + 4] == rest[j]
    ensures LowFirst(l) == HexNumber(h[..4]) + 0x1_0000 * LowFirst(rest)
  {
    hide DigitValue, HexNumber;
    LowFirstOfFour(l, rest);
    HexNumberOfFour(h[..4]);
  }

  lemma LowFirstOfFour(l: seq<byte>, rest: seq<byte>)
    requires |l| >= 4 && AllHex(l) && AllHex(rest)
    requires |rest| == |l| - 4 && forall j | 0 <= j < |rest| :: l[j + 4] == rest[j]
    ensures LowFirst(l) == DigitValue(l[0]) + 16 * DigitValue(l[1]) + 0x100 * DigitValue(l[2])
                           + 0x1000 * DigitValue(l[3]) + 0x1_0000 * LowFirst(rest)
  {
    hide DigitValue;
    assert l[1..][1..] == l[2..] && l[2..][1..] == l[3..] && l[3..][1..] == rest;
    assert LowFirst(l[1..]) == DigitValue(l[1]) + 16 * LowFirst(l[2..]);
    assert LowFirst(l[2..]) == DigitValue(l[2]) + 16 * LowFirst(l[3..]);
    assert LowFirst(l[3..]) == DigitValue(l[3]) + 16 * LowFirst(rest);
  }

  lemma HexNumberOfFour(g: seq<byte>)
    requires |g| == 4 && AllHex(g)
    ensures HexNumber(g) ==
            0x1000 * DigitValue(g[0]) + 0x100 * DigitValue(g[1]) + 16 * DigitValue(g[2]) + DigitValue(g[3])
  {
    hide DigitValue;
    assert g[..3][..2] == g[..2] && g[..2][..1] == g[..1] && g[..1][..0] == [];
    assert HexNumber(g[..3]) == HexNumber(g[..2]) * 16 + DigitValue(g[2]);
    assert HexNumber(g[..2]) == HexNumber(g[..1]) * 16 + DigitValue(g[1]);
    assert HexNumber(g[..1]) == DigitValue(g[0]);
  }

  /** How many digits are left when leading zeros are dropped: at least one. */
  function Significant(l: seq<byte>): (n: nat)
    requires l != []
    ensures 0 < n <= |l| && (l[n - 1] == ZERO ==> n == 1)
    ensures forall j | n <= j < |l| :: l[j] == ZERO
  {
    if l[|l| - 1] == ZERO && |l| > 1 then Significant(l[..|l| - 1]) else |l|
  }

  function Reversed(l: seq<byte>): (r: seq<byte>)
    ensures |r| == |l| && forall j | 0 <= j < |l| :: r[j] == l[|l| - 1 - j]
  {
    seq(|l|, j requires 0 <= j < |l| => l[|l| - 1 - j])
  }

  lemma {:induction false} ReversedNumber(l: seq<byte>)
    requires AllHex(l)
    ensures AllHex(Reversed(l)) && HexNumber(Reversed(l)) == LowFirst(l)
    decreases |l|
  {
    if l != [] {
      ReversedNumber(l[1..]);
      var r := Reversed(l);
      assert r[..|r| - 1] == Reversed(l[1..]);
    }
  }

  lemma {:induction false} ZerosAddNothing(l: seq<byte>, n: nat)
    requires AllHex(l) && n <= |l| && forall j | n <= j < |l| :: l[j] == ZERO
    ensures LowFirst(l[..n]) == LowFirst(l)
    decreases |l|
  {
    if l != [] {
      if n > 0 {
        assert l[..n][1..] == l[1..][..n - 1];
        ZerosAddNothing(l[1..], n - 1);
      } else {
        ZerosAddNothing(l[1..], 0);
        assert l[1..][..0] == [] && l[..0] == [];
      }
    }
  }

  /** The text the conversion builds for one half of the key. */
  function NewHalf(h: seq<byte>): (t: seq<byte>)
    requires h != [] && |h| % 4 == 0
    ensures 0 < |t| <= |h|
  {
    var l := FromLowest(h);
    Reversed(l[..Significant(l)])
  }

  /** It is the ordinary text of the same number. */
  lemma NewHalfKeepsNumber(h: seq<byte>)
    requires h != [] && |h| % 4 == 0 && AllHex(h)
    ensures AllHex(NewHalf(h)) && HexNumber(NewHalf(h)) == OldNumber(h)
    ensures NoLeadingZero(NewHalf(h)) && NewHalf(h) == HexText(OldNumber(h))
  {
    hide LowFirst, HexNumber, OldNumber, HexText, Significant;
    var l := FromLowest(h);
    var n := Significant(l);
    LowFirstIsOldNumber(h);
    ZerosAddNothing(l, n);
    ReversedNumber(l[..n]);
    TextOfHexNumber(NewHalf(h));
  }

  // ---------------------------------------------------------------- the conversion loop

  const PREFIX: seq<byte> := [ZERO, LOWER_X]

  function NewText(h1: seq<byte>, h2: seq<byte>): seq<byte>
    requires h1 != [] && |h1| % 4 == 0 && h2 != [] && |h2| % 4 == 0
  {
    PREFIX + NewHalf(h1) + [COMMA] + PREFIX + NewHalf(h2)
  }

  /** Reads `0x` and a hex number. */
  function ReadHex(s: seq<byte>): Option<nat> {
    if |s| > 2 && s[0] == 48 && s[1] == 120 && AllHex(s[2..]) then Some(HexNumber(s[2..])) else None
  }

  /** Reads two such numbers with a comma between them. */
  function ReadPair(s: seq<byte>): Option<(nat, nat)> {
    var k := Index(s, 44);
    if k == |s| then None
    else
      var a, b := ReadHex(s[..k]), ReadHex(s[k + 1..]);
      if a.Some? && b.Some? then Some((a.value, b.value)) else None
  }

  lemma HalfReads(h: seq<byte>)
    requires h != [] && |h| % 4 == 0 && AllHex(h)
    ensures ReadHex(PREFIX + NewHalf(h)) == Some(OldNumber(h)) && COMMA !in PREFIX + NewHalf(h)
  {
    hide HexNumber, OldNumber, HexText, NewHalf;
    NewHalfKeepsNumber(h);
    var t := PREFIX + NewHalf(h);
    assert t[2..] == NewHalf(h);
    assert forall i | 2 <= i < |t| :: t[i] == NewHalf(h)[i - 2];
  }

  /** Read again, the new text gives the two numbers of the old one, in their order. */
  lemma NewTextReads(h1: seq<byte>, h2: seq<byte>)
    requires h1 != [] && |h1| % 4 == 0 && h2 != [] && |h2| % 4 == 0 && AllHex(h1) && AllHex(h2)
    ensures ReadPair(NewText(h1, h2)) == Some((OldNumber(h1), OldNumber(h2)))
  {
    hide NewHalf, OldNumber, ReadHex, AllHex;
    HalfReads(h1);
    HalfReads(h2);
    var a, b := PREFIX + NewHalf(h1), PREFIX + NewHalf(h2);
    var t := NewText(h1, h2);
    assert t == a + [COMMA] + b;
    assert t[..|a|] == a && t[|a| + 1..] == b && t[|a|] == COMMA;
    IndexIsUnique(t, COMMA, |a|);
  }

  /** Half `h` of the key stands in `q` at `at`, with a slash or the end behind it. */
  predicate HalfAt(q: seq<byte>, at: nat, h: seq<byte>) {
    && at + |h| <= |q| && (forall i | 0 <= i < |h| :: q[at + i] == h[i] && h[i] != SLASH)
    && (at + |h| < |q| ==> q[at + |h|] == SLASH)
  }

  /** Counts the digits up to the slash or the end. */
  method CountDigits(q: seq<byte>, at: nat, ghost h: seq<byte>) returns (n: nat)
    requires HalfAt(q, at, h)
    ensures n == |h|
  {
    n := 0;
    while at + n < |q| && q[at + n] != SLASH
      invariant n <= |h| && (n < |h| ==> at + n < |q| && q[at + n] == h[n] && h[n] != SLASH)
      decreases |h| - n
    {
      n := n + 1;
    }
  }

  method TrimDigits(q: seq<byte>, at: nat, n: nat, ghost h: seq<byte>) returns (ndigits: nat)
    requires HalfAt(q, at, h) && n == |h| && h != [] && |h| % 4 == 0
    ensures ndigits == Significant(FromLowest(h))
  {
    hide Significant, HalfAt, FromLowest, Xor3;
    ghost var l := FromLowest(h);
    ndigits := n;
    assert l[..ndigits] == l;
    LowestAt(q, at, h, ndigits - 1);
    while q[at + Xor3(ndigits - 1)] == ZERO && ndigits > 1
      invariant 0 < ndigits <= |h| && Significant(l[..ndigits]) == Significant(l)
      invariant at + Xor3(ndigits - 1) < |q| && q[at + Xor3(ndigits - 1)] == l[ndigits - 1]
      decreases ndigits
    {
      TrimOne(l[..ndigits]);
      assert l[..ndigits][..ndigits - 1] == l[..ndigits - 1];
      ndigits := ndigits - 1;
      LowestAt(q, at, h, ndigits - 1);
    }
    TrimOne(l[..ndigits]);
  }

  lemma LowestAt(q: seq<byte>, at: nat, h: seq<byte>, j: nat)
    requires HalfAt(q, at, h) && |h| % 4 == 0 && j < |h|
    ensures at + Xor3(j) < |q| && q[at + Xor3(j)] == FromLowest(h)[j]
  {
    InGroup(j, |h|);
    assert q[at + Xor3(j)] == h[Xor3(j)];
  }

  /** Copies the digits behind `p`, the least significant one last. */
  method CopyDigits(q: seq<byte>, at: nat, out: array<byte>, p: nat, ndigits: nat, ghost h: seq<byte>)
    requires HalfAt(q, at, h) && |h| % 4 == 0 && ndigits <= |h| && p + ndigits <= out.Length
    modifies out
    ensures forall i | p <= i < p + ndigits :: out[i] == FromLowest(h)[p + ndigits - 1 - i]
    ensures forall i | 0 <= i < p :: out[i] == old(out[i])
  {
    hide Xor3, FromLowest, HalfAt;
    ghost var l := FromLowest(h);
    var j := 0;
    while j < ndigits
      invariant 0 <= j <= ndigits
      invariant forall i | p + ndigits - j <= i < p + ndigits :: out[i] == l[p + ndigits - 1 - i]
      invariant forall i | 0 <= i < p :: out[i] == old(out[i])
    {
      LowestAt(q, at, h, j);
      out[p + ndigits - 1 - j] := q[at + Xor3(j)];
      j := j + 1;
    }
  }

  /** One turn of the loop: `0x`, the digits, and a comma if a slash follows. `inside` says that
      nothing is written behind the output buffer. */
  method ConvertPart(q: seq<byte>, at0: nat, out: array<byte>, p0: nat, ghost h: seq<byte>, ghost text: seq<byte>)
    returns (inside: bool, at: nat, p: nat)
    requires HalfAt(q, at0, h) && h != [] && |h| % 4 == 0
    requires p0 < out.Length && out[..p0] == text
    modifies out
    ensures var more := at0 + |h| < |q|;
            var t := text + PREFIX + NewHalf(h) + if more then [COMMA] else [];
            && (inside <==> |t| < out.Length)
            && (inside ==> at == at0 + |h| + (if more then 1 else 0))
            && (inside ==> p == |t| && out[..p] == t && out[p] == NUL)
  {
    hide Significant, Xor3, FromLowest, NulFree;
    at, p := at0, p0;
    var n := CountDigits(q, at, h);
    var ndigits := TrimDigits(q, at, n, h);
    if p + 2 >= out.Length {
      return false, at, p;
    }
    out[p] := ZERO;
    out[p + 1] := LOWER_X;
    p := p + 2;
    assert out[..p] == text + PREFIX;
    var nwords := n / 4;
    if p + ndigits >= out.Length {
      return false, at, p;
    }
    CopyDigits(q, at, out, p, ndigits, h);
    assert out[..p + ndigits] == text + PREFIX + NewHalf(h);
    p := p + ndigits;
    at := at + nwords * 4;
    if at < |q| {
      at := at + 1;
      out[p] := COMMA;
      p := p + 1;
      if p >= out.Length {
        return false, at, p;
      }
    }
    out[p] := NUL;
    inside := true;
  }

  lemma TrimOne(l: seq<byte>)
    requires l != []
    ensures Significant(l) == if l[|l| - 1] == ZERO && |l| > 1 then Significant(l[..|l| - 1]) else |l|
  {
  }

  /** The most significant digit: the first of the last group. */
  function TopDigit(h: seq<byte>): byte
    requires h != [] && |h| % 4 == 0
  {
    h[|h| - 4]
  }

  lemma TopIndex(n: nat)
    requires n > 0 && n % 4 == 0
    ensures n >= 4 && Xor3(n - 1) == n - 4
  {
    assert (n - 1) % 4 == 3;
  }

  lemma HalfIsKept(h: seq<byte>)
    requires h != [] && |h| % 4 == 0
    ensures |NewHalf(h)| == |h| <==> TopDigit(h) != ZERO
  {
    hide Significant, Xor3;
    var l := FromLowest(h);
    TopIndex(|h|);
    assert l[|h| - 1] == TopDigit(h);
    TrimOne(l);
  }

  /** The new text is up to four bytes longer than the old one, and is so exactly when neither
      half has a leading zero to lose. */
  lemma NewTextGrows(h1: seq<byte>, h2: seq<byte>)
    requires h1 != [] && |h1| % 4 == 0 && h2 != [] && |h2| % 4 == 0
    ensures |NewText(h1, h2)| <= |h1 + [SLASH] + h2| + 4
    ensures |NewText(h1, h2)| == |h1 + [SLASH] + h2| + 4 <==> TopDigit(h1) != ZERO && TopDigit(h2) != ZERO
  {
    hide NewHalf, TopDigit;
    HalfIsKept(h1);
    HalfIsKept(h2);
  }

  /** Rewrites `h1/h2` as `0xH1,0xH2`. Both halves must hold whole groups, and at least one.
      `inside` says that the output buffer is large enough. */
  method ConvertOldStyle(oldstyle: seq<byte>, out: array<byte>, ghost h1: seq<byte>, ghost h2: seq<byte>)
    returns (inside: bool)
    requires h1 != [] && |h1| % 4 == 0 && h2 != [] && |h2| % 4 == 0
    requires SLASH !in h1 && SLASH !in h2 && NulFree(h1) && NulFree(h2)
    requires oldstyle == h1 + [SLASH] + h2 && out.Length > 0
    modifies out
    ensures inside <==> |NewText(h1, h2)| < out.Length
    ensures inside ==> IsStr(out[..], NewText(h1, h2))
  {
    hide NewHalf, NulFree, HalfAt;
    HalvesStand(h1, h2);
    TextIsNulFree(h1, h2);
    var p: nat, q: nat, i := 0, 0, 0;
    while i < 2
      invariant 0 <= i <= 2 && p < out.Length && (i == 2 ==> out[p] == NUL)
      invariant q == if i == 0 then 0 else if i == 1 then |h1| + 1 else |oldstyle|
      invariant out[..p] == if i == 0 then [] else if i == 1 then PREFIX + NewHalf(h1) + [COMMA] else NewText(h1, h2)
    {
      ghost var text := out[..p];
      assert i == 0 ==> [] + PREFIX == PREFIX;
      assert i == 1 ==> PREFIX + NewHalf(h1) + [COMMA] + PREFIX + NewHalf(h2) + [] == NewText(h1, h2);
      inside, q, p := ConvertPart(oldstyle, q, out, p, if i == 0 then h1 else h2, text);
      if !inside {
        return;
      }
      i := i + 1;
    }
    inside := true;
  }

  lemma HalvesStand(h1: seq<byte>, h2: seq<byte>)
    requires SLASH !in h1 && SLASH !in h2
    ensures var q := h1 + [SLASH] + h2; HalfAt(q, 0, h1) && HalfAt(q, |h1| + 1, h2)
  {
    assert forall i | 0 <= i < |h1| :: h1[i] in h1;
    assert forall i | 0 <= i < |h2| :: h2[i] in h2;
  }

  lemma TextIsNulFree(h1: seq<byte>, h2: seq<byte>)
    requires h1 != [] && |h1| % 4 == 0 && h2 != [] && |h2| % 4 == 0 && NulFree(h1) && NulFree(h2)
    ensures NulFree(NewText(h1, h2))
  {
    HalfIsNulFree(h1);
    HalfIsNulFree(h2);
    hide NewHalf;
  }

  lemma HalfIsNulFree(h: seq<byte>)
    requires h != [] && |h| % 4 == 0 && NulFree(h)
    ensures NulFree(NewHalf(h))
  {
    var l, t := FromLowest(h), NewHalf(h);
    forall i | 0 <= i < |t|
      ensures t[i] != NUL
    {
      var j := |t| - 1 - i;
      assert t[i] == l[j] == h[Xor3(j)];
      assert h[Xor3(j)] in h;
    }
  }
}
