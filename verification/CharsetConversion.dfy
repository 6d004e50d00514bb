/** In-place conversion between ISO 8859-1/-15 and UTF-8 (kitty_crypt.c). */
module CharsetConversion {
  import opened CText

  // ---------------------------------------------------------------- UTF-8, section 3 of RFC 3629

  /** `k` continuation bytes carrying the low bits of `cp`, most significant first. */
  function Tail(cp: nat, k: nat): (t: seq<byte>)
    ensures |t| == k && forall i | 0 <= i < k :: IsContinuation(t[i])
  {
    if k == 0 then [] else Tail(cp / 64, k - 1) + [128 + cp % 64]
  }

  /** What is left of `cp` for the leading byte. */
  function Head(cp: nat, k: nat): nat {
    if k == 0 then cp else Head(cp / 64, k - 1)
  }

  predicate IsContinuation(b: byte) {
    128 <= b < 192
  }

  /** Bytes needed for a code point; the lengths 5 and 6 are those of the original UTF-8. */
  function EncodedLength(cp: nat): nat {
    if cp < 0x80 then 1 else if cp < 0x800 then 2 else if cp < 0x1_0000 then 3
    else if cp < 0x20_0000 then 4 else if cp < 0x400_0000 then 5 else 6
  }

  /** The fixed bits of the leading byte of a sequence of `n` bytes. */
  function Marker(n: nat): byte {
    if n == 1 then 0 else if n == 2 then 192 else if n == 3 then 224
    else if n == 4 then 240 else if n == 5 then 248 else 252
  }

  function Encode(cp: nat): seq<byte>
    requires cp < 0x8000_0000
  {
    var n := EncodedLength(cp);
    HeadFits(cp);
    [Marker(n) + Head(cp, n - 1)] + Tail(cp, n - 1)
  }

  lemma HeadFits(cp: nat)
    requires cp < 0x8000_0000
    ensures var n := EncodedLength(cp);
            Marker(n) + Head(cp, n - 1) < if n == 1 then 128 else if n < 6 then Marker(n + 1) else 254
  {
    HeadUnrolled(cp);
  }

  lemma HeadUnrolled(cp: nat)
    ensures Head(cp, 0) == cp && Head(cp, 1) == cp / 64 && Head(cp, 2) == cp / 64 / 64
    ensures Head(cp, 3) == cp / 64 / 64 / 64 && Head(cp, 4) == cp / 64 / 64 / 64 / 64
    ensures Head(cp, 5) == cp / 64 / 64 / 64 / 64 / 64
  {
    assert Head(cp, 2) == Head(cp / 64, 1);
    assert Head(cp, 3) == Head(cp / 64, 2) == Head(cp / 64 / 64, 1);
    assert Head(cp, 4) == Head(cp / 64, 3) == Head(cp / 64 / 64, 2) == Head(cp / 64 / 64 / 64, 1);
    assert Head(cp, 5) == Head(cp / 64, 4) == Head(cp / 64 / 64, 3) == Head(cp / 64 / 64 / 64, 2)
        == Head(cp / 64 / 64 / 64 / 64, 1);
  }

  function EncodeAll(cps: seq<nat>): seq<byte>
    requires forall i | 0 <= i < |cps| :: cps[i] < 0x8000_0000
  {
    if cps == [] then [] else Encode(cps[0]) + EncodeAll(cps[1..])
  }

  // ---------------------------------------------------------------- the decoder

  /** The ISO 8859-15 byte of a code point, or 256. */
  function ToLatin9(code: nat): (c: nat)
    ensures c <= 256
  {
    if code < 256 then code
    else match code
      case 0x0152 => 188
      case 0x0153 => 189
      case 0x0160 => 166
      case 0x0161 => 168
      case 0x0178 => 190
      case 0x017D => 180
      case 0x017E => 184
      case 0x20AC => 164
      case _ => 256
  }

  /** How many bytes the decoder takes for a sequence beginning with `b`. */
  function SequenceLength(b: byte): (n: nat)
    ensures 1 <= n <= 6
  {
    if b < 192 then 1 else if b < 224 then 2 else if b < 240 then 3
    else if b < 248 then 4 else if b < 252 then 5 else if b < 254 then 6 else 1
  }

  function Accumulate(v: nat, t: seq<byte>): nat
    requires forall i | 0 <= i < |t| :: IsContinuation(t[i])
    decreases |t|
  {
    if t == [] then v
    else
      assert IsContinuation(t[0]);
      Accumulate(v * 64 + (t[0] - 128), t[1..])
  }

  predicate WellFormed(s: seq<byte>) {
    s != [] && forall i | 1 <= i < |s| :: IsContinuation(s[i])
  }

  /** What one sequence of the right length gives: nothing when it is not well formed, or when
      its code point has no ISO 8859-15 byte. */
  function DecodeSequence(s: seq<byte>): seq<byte>
    requires s != [] && |s| == SequenceLength(s[0])
  {
    if |s| == 1 then (if s[0] < 128 then s else [])
    else if !WellFormed(s) then []
    else
      var c := ToLatin9(Accumulate(s[0] - Marker(|s|), s[1..]));
      if c < 256 then [c] else []
  }

  function Decode(s: seq<byte>): seq<byte>
    decreases |s|
  {
    if s == [] then []
    else
      var n := SequenceLength(s[0]);
      if |s| < n then [] else DecodeSequence(s[..n]) + Decode(s[n..])
  }

  /** The bytes an ISO 8859-15 text keeps of a sequence of code points. */
  function Representable(cps: seq<nat>): seq<byte> {
    if cps == [] then []
    else (if ToLatin9(cps[0]) < 256 then [ToLatin9(cps[0])] else []) + Representable(cps[1..])
  }

  /** The code point of an ISO 8859-15 byte. */
  function CodePoint(b: byte): nat {
    match b
    case 0xA4 => 0x20AC // euro
    case 0xA6 => 0x0160 // S and s with caron
    case 0xA8 => 0x0161
    case 0xB4 => 0x017D // Z and z with caron
    case 0xB8 => 0x017E
    case 0xBC => 0x0152 // the ligatures OE and oe
    case 0xBD => 0x0153
    case 0xBE => 0x0178 // Y with diaeresis
    case _ => b
  }

  /** The code points that ISO 8859-1 has in the places where ISO 8859-15 has others. */
  const DISPLACED: set<nat> := {0xA4, 0xA6, 0xA8, 0xB4, 0xB8, 0xBC, 0xBD, 0xBE}

  /** Every ISO 8859-15 byte is found from its code point. A byte found stands for the code point
      it was found from, if and only if that is not one of the eight displaced, which are taken for
      what is in their places; other code points have no byte. */
  lemma TableIsInverse(b: byte, cp: nat)
    ensures ToLatin9(CodePoint(b)) == b
    ensures ToLatin9(cp) < 256 ==> (CodePoint(ToLatin9(cp)) == cp <==> cp !in DISPLACED)
    ensures ToLatin9(cp) == 256 ==> CodePoint(b) != cp
  {
  }

  function CodePoints(s: seq<byte>): (cps: seq<nat>)
    ensures |cps| == |s| && forall i | 0 <= i < |s| :: cps[i] == CodePoint(s[i])
  {
    seq(|s|, i requires 0 <= i < |s| => CodePoint(s[i]))
  }

  lemma {:induction false} CodePointsAreRepresentable(s: seq<byte>)
    ensures Representable(CodePoints(s)) == s
    decreases |s|
  {
    hide CodePoint, ToLatin9;
    if s != [] {
      assert CodePoints(s)[1..] == CodePoints(s[1..]);
      CodePointsAreRepresentable(s[1..]);
      TableIsInverse(s[0], 0);
    }
  }

  /** What is converted means what it did: an ISO 8859-15 text written in UTF-8 is given back. */
  lemma Latin9RoundTrip(s: seq<byte>)
    ensures (forall i | 0 <= i < |s| :: CodePoints(s)[i] < 0x8000_0000) && Decode(EncodeAll(CodePoints(s))) == s
  {
    DecodeInvertsEncode(CodePoints(s));
    CodePointsAreRepresentable(s);
  }

  /** Encodings as the table in section 3 of RFC 3629 has them. */
  lemma EncodedAsInTable(cp: nat)
    requires cp < 0x8000_0000
    ensures cp < 0x80 ==> Encode(cp) == [cp]
    ensures 0x80 <= cp < 0x800 ==> Encode(cp) == [0xC0 + cp / 64, 0x80 + cp % 64]
    ensures 0x800 <= cp < 0x1_0000 ==> Encode(cp) == [0xE0 + cp / 64 / 64, 0x80 + cp / 64 % 64, 0x80 + cp % 64]
    ensures 0x1_0000 <= cp < 0x20_0000 ==>
      Encode(cp) == [0xF0 + cp / 64 / 64 / 64, 0x80 + cp / 64 / 64 % 64, 0x80 + cp / 64 % 64, 0x80 + cp % 64]
  {
    HeadUnrolled(cp);
    TailUnrolled(cp);
  }

  lemma TailUnrolled(cp: nat)
    ensures Tail(cp, 0) == [] && Tail(cp, 1) == [0x80 + cp % 64]
    ensures Tail(cp, 2) == [0x80 + cp / 64 % 64, 0x80 + cp % 64]
    ensures Tail(cp, 3) == [0x80 + cp / 64 / 64 % 64, 0x80 + cp / 64 % 64, 0x80 + cp % 64]
  {
    assert Tail(cp, 2) == Tail(cp / 64, 1) + [0x80 + cp % 64];
    assert Tail(cp / 64, 2) == Tail(cp / 64 / 64, 1) + [0x80 + cp / 64 % 64];
    assert Tail(cp, 3) == Tail(cp / 64, 2) + [0x80 + cp % 64];
  }

  lemma {:induction false} AccumulateAppends(v: nat, t: seq<byte>, b: byte)
    requires (forall i | 0 <= i < |t| :: IsContinuation(t[i])) && IsContinuation(b)
    ensures Accumulate(v, t + [b]) == Accumulate(v, t) * 64 + (b - 128)
    decreases |t|
  {
    if t == [] {
      assert (t + [b])[1..] == [];
    } else {
      assert (t + [b])[1..] == t[1..] + [b];
      AccumulateAppends(v * 64 + (t[0] - 128), t[1..], b);
    }
  }

  lemma {:induction false} AccumulateInvertsTail(cp: nat, k: nat)
    ensures Accumulate(Head(cp, k), Tail(cp, k)) == cp
  {
    if k > 0 {
      AccumulateInvertsTail(cp / 64, k - 1);
      AccumulateAppends(Head(cp / 64, k - 1), Tail(cp / 64, k - 1), 128 + cp % 64);
    }
  }

  lemma DecodeOfEncode(cp: nat)
    requires cp < 0x8000_0000
    ensures var e := Encode(cp);
            && |e| == EncodedLength(cp) == SequenceLength(e[0])
            && DecodeSequence(e) == if ToLatin9(cp) < 256 then [ToLatin9(cp)] else []
  {
    hide Head, Tail, Accumulate, ToLatin9;
    var n := EncodedLength(cp);
    var e := Encode(cp);
    HeadFits(cp);
    HeadIsSelf(cp);
    assert e[1..] == Tail(cp, n - 1);
    AccumulateInvertsTail(cp, n - 1);
    assert e[0] - Marker(n) == Head(cp, n - 1);
  }

  lemma HeadIsSelf(cp: nat)
    ensures Head(cp, 0) == cp && (cp < 256 ==> ToLatin9(cp) == cp)
  {
  }

  /** Decoding the encoding of any code points gives the ISO 8859-15 bytes of those that have one. */
  lemma {:induction false} DecodeInvertsEncode(cps: seq<nat>)
    requires forall i | 0 <= i < |cps| :: cps[i] < 0x8000_0000
    ensures Decode(EncodeAll(cps)) == Representable(cps)
    decreases |cps|
  {
    if cps != [] {
      hide Encode, ToLatin9, DecodeSequence;
      var e, rest := Encode(cps[0]), EncodeAll(cps[1..]);
      DecodeOfEncode(cps[0]);
      assert (e + rest)[..|e|] == e && (e + rest)[|e|..] == rest;
      DecodeInvertsEncode(cps[1..]);
    }
  }

  /** A byte that begins no sequence is passed over. */
  lemma StrayByteIsIgnored(b: byte, rest: seq<byte>)
    requires 128 <= b < 192 || b >= 254
    ensures Decode([b] + rest) == Decode(rest)
  {
    assert ([b] + rest)[..1] == [b] && ([b] + rest)[1..] == rest;
  }

  /** A sequence is passed over as a whole when one of its other bytes is no continuation byte, */
  lemma BrokenSequenceIsIgnored(s: seq<byte>, i: nat, rest: seq<byte>)
    requires 0 < i < |s| && |s| == SequenceLength(s[0]) && !(128 <= s[i] < 192)
    ensures Decode(s + rest) == Decode(rest)
  {
    assert (s + rest)[..|s|] == s && (s + rest)[|s|..] == rest;
  }

  /** and one that the end of the text cuts off is left out. */
  lemma CutOffSequenceIsIgnored(s: seq<byte>)
    requires s != [] && |s| < SequenceLength(s[0])
    ensures Decode(s) == []
  {
  }

  /** ISO 8859-1 text as UTF-8: its bytes are its code points. */
  function ToUtf8(s: seq<byte>): seq<byte> {
    EncodeAll(AsNats(s))
  }

  lemma {:induction false} BytesAreRepresentable(s: seq<byte>)
    ensures Representable(AsNats(s)) == s
    decreases |s|
  {
    if s != [] {
      assert AsNats(s)[1..] == AsNats(s[1..]);
      BytesAreRepresentable(s[1..]);
    }
  }

  /** Converting ISO 8859-1 text to UTF-8 and back gives the text. */
  lemma Latin1RoundTrip(s: seq<byte>)
    ensures Decode(ToUtf8(s)) == s
  {
    DecodeInvertsEncode(AsNats(s));
    BytesAreRepresentable(s);
  }

  // ---------------------------------------------------------------- utf8_to_iso8859_15

  method DecodeLoop(src: array<byte>, inPos: nat, length: nat, out: array<byte>, outPos: nat)
    returns (q: nat, ghost done: seq<byte>)
    requires inPos + length <= src.Length && (src == out ==> outPos <= inPos)
    requires outPos + |Decode(src[inPos..inPos + length])| < out.Length
    modifies out
    ensures done == Decode(old(src[inPos..inPos + length])) && q == outPos + |done|
    ensures forall i | outPos <= i < q :: out[i] == done[i - outPos]
    ensures forall i | 0 <= i < out.Length && !(outPos <= i < q) :: out[i] == old(out[i])
  {
    hide Decode, DecodeSequence;
    ghost var s, k := src[inPos..inPos + length], 0;
    var p, end := inPos, inPos + length;
    q, done := outPos, [];
    assert s[0..] == s && [] + Decode(s) == Decode(s);
    while p < end
      invariant 0 <= k <= |s| && p == inPos + k && q == outPos + |done| && |done| <= k
      invariant Decode(s) == done + Decode(s[k..])
      invariant forall i | p <= i < end :: src[i] == s[i - inPos]
      invariant forall i | outPos <= i < q :: out[i] == done[i - outPos]
      invariant forall i | 0 <= i < out.Length && !(outPos <= i < q) :: out[i] == old(out[i])
      decreases |s| - k
    {
      var n := SequenceLength(src[p]);
      DecodeStep(s, k, done);
      if p + n > end {
        return;
      }
      var piece := DecodeAt(src, p, n, s, k, end);
      if piece != [] {
        out[q] := piece[0];
        q := q + 1;
      }
      done := done + piece;
      p, k := p + n, k + n;
    }
    NothingLeft(s[k..], done);
  }

  /** Decodes `src[inPos..inPos+length]` to `out[outPos..]`, which may be the same memory when it
      does not begin behind the input. Only bytes before the end of the input are read. */
  method Utf8ToIso8859_15(src: array<byte>, inPos: nat, length: nat, out: array<byte>, outPos: nat) returns (r: nat)
    requires inPos + length <= src.Length && (src == out ==> outPos <= inPos)
    requires outPos + |Decode(src[inPos..inPos + length])| < out.Length
    modifies out
    ensures var d := Decode(old(src[inPos..inPos + length]));
            r == |d| && out[outPos..outPos + r] == d && out[outPos + r] == NUL
    ensures forall i | 0 <= i < out.Length && !(outPos <= i <= outPos + r) :: out[i] == old(out[i])
  {
    hide Decode;
    var q; ghost var done;
    q, done := DecodeLoop(src, inPos, length, out, outPos);
    out[q] := NUL;
    r := q - outPos;
  }

  method DecodeAt(src: array<byte>, p: nat, n: nat, ghost s: seq<byte>, ghost k: nat, ghost end: nat)
    returns (piece: seq<byte>)
    requires k < |s| && p < src.Length && n == SequenceLength(src[p]) && p + n <= end <= src.Length && k + n <= |s|
    requires forall i | p <= i < end :: i - p + k < |s| && src[i] == s[i - p + k]
    ensures piece == DecodeSequence(s[k..k + n]) && |piece| <= 1 && n == SequenceLength(s[k])
  {
    hide ToLatin9, Accumulate;
    var t := src[p..p + n];
    assert t == s[k..k + n];
    if n == 1 {
      return if src[p] < 128 then [src[p]] else [];
    }
    if forall i | 1 <= i < n :: IsContinuation(t[i]) {
      var c := ToLatin9(Accumulate(t[0] - Marker(n), t[1..]));
      return if c < 256 then [c] else [];
    }
    return [];
  }

  lemma NothingLeft(t: seq<byte>, done: seq<byte>)
    ensures t == [] ==> done + Decode(t) == done
  {
  }

  lemma DecodeStep(s: seq<byte>, k: nat, done: seq<byte>)
    requires k < |s| && Decode(s) == done + Decode(s[k..])
    ensures var n := SequenceLength(s[k]);
            if k + n > |s| then Decode(s) == done
            else Decode(s) == (done + DecodeSequence(s[k..k + n])) + Decode(s[k + n..])
  {
    hide *;
    var n := SequenceLength(s[k]);
    DecodeAtUnfolds(s, k);
    if k + n > |s| {
      CatEmpty(done);
    } else {
      CatAssoc(done, DecodeSequence(s[k..k + n]), Decode(s[k + n..]));
    }
  }

  lemma DecodeAtUnfolds(s: seq<byte>, k: nat)
    requires k < |s|
    ensures var n := SequenceLength(s[k]);
            Decode(s[k..]) == if k + n > |s| then [] else DecodeSequence(s[k..k + n]) + Decode(s[k + n..])
  {
    hide DecodeSequence;
    var n := SequenceLength(s[k]);
    if k + n <= |s| {
      SliceOfSuffix(s, k, n);
    }
  }

  // ---------------------------------------------------------------- iso8859_1_to_utf8

  lemma {:induction false} EncodeAllOfBoth(a: seq<nat>, b: seq<nat>)
    requires forall i | 0 <= i < |a + b| :: (a + b)[i] < 0x8000_0000
    ensures forall i | 0 <= i < |a| :: a[i] < 0x8000_0000
    ensures forall i | 0 <= i < |b| :: b[i] < 0x8000_0000
    ensures EncodeAll(a + b) == EncodeAll(a) + EncodeAll(b)
    decreases |a|
  {
    hide Encode, EncodeAll;
    assert forall i | 0 <= i < |a| :: a[i] == (a + b)[i];
    assert forall i | 0 <= i < |b| :: b[i] == (a + b)[|a| + i];
    CatCons(a, b);
    EncodeAllUnfolds(a);
    EncodeAllUnfolds(a + b);
    if a == [] {
      CatEmpty(EncodeAll(b));
    } else {
      EncodeAllOfBoth(a[1..], b);
      CatAssoc(Encode(a[0]), EncodeAll(a[1..]), EncodeAll(b));
    }
  }

  lemma EncodeAllUnfolds(a: seq<nat>)
    requires forall i | 0 <= i < |a| :: a[i] < 0x8000_0000
    ensures EncodeAll(a) == if a == [] then [] else Encode(a[0]) + EncodeAll(a[1..])
  {
  }

  function EncodeByte(b: byte): seq<byte> {
    if b < 128 then [b] else [192 + b / 64, 128 + b % 64]
  }

  lemma EncodeOfByte(b: byte)
    ensures Encode(b) == EncodeByte(b)
  {
    if b >= 128 {
      assert Tail(b, 1) == Tail(b / 64, 0) + [128 + b % 64] == [128 + b % 64];
      assert Head(b, 1) == Head(b / 64, 0) == b / 64;
    } else {
      assert Tail(b, 0) == [] && Head(b, 0) == b;
    }
  }

  /** One more byte at the end of a text is two more bytes of UTF-8 if its high bit is set, and
      one more otherwise. */
  lemma ToUtf8Appends(s: seq<byte>, b: byte)
    ensures ToUtf8(s + [b]) == ToUtf8(s) + EncodeByte(b)
    ensures ToUtf8([]) == []
  {
    hide Encode;
    assert AsNats(s + [b]) == AsNats(s) + [b];
    var c: seq<nat> := [b];
    EncodeAllOfBoth(AsNats(s), c);
    EncodeOfByte(b);
    assert c[1..] == [];
    assert EncodeAll(c) == EncodeByte(b) + [] == EncodeByte(b);
  }

  lemma {:induction false} ToUtf8IsNoShorter(s: seq<byte>)
    ensures |ToUtf8(s)| >= |s|
    ensures |ToUtf8(s)| == |s| ==> ToUtf8(s) == s
    decreases |s|
  {
    hide ToUtf8;
    ToUtf8Appends([], 0);
    if s != [] {
      var n := |s| - 1;
      ToUtf8IsNoShorter(s[..n]);
      ToUtf8Appends(s[..n], s[n]);
      assert s == s[..n] + [s[n]];
    }
  }

  /** The length of the UTF-8 text of the string at the front of the buffer. */
  method MeasureUtf8(content: array<byte>, ghost s: seq<byte>) returns (n: nat, m: nat)
    requires IsStr(content[..], s)
    ensures n == |s| && m == |ToUtf8(s)|
  {
    hide IsStr, ToUtf8;
    StrBytes(content[..], s);
    n, m := 0, 0;
    ToUtf8Appends([], 0);
    while content[n] != NUL
      invariant 0 <= n <= |s| && m == |ToUtf8(s[..n])|
      decreases |s| - n
    {
      ToUtf8Appends(s[..n], s[n]);
      assert s[..n + 1] == s[..n] + [s[n]];
      if content[n] >= 128 {
        m := m + 1;
      }
      n, m := n + 1, m + 1;
    }
    assert s[..n] == s;
  }

  /** The not yet converted front of a buffer and the converted text behind it. */
  ghost predicate HalfConverted(m: seq<byte>, full: seq<byte>, src: int, dst: int) {
    && -1 <= src <= dst && src < |full| && dst + 1 == |ToUtf8(full[..src + 1])|
    && dst < |ToUtf8(full)| <= |m|
    && (forall i | 0 <= i <= src :: m[i] == full[i])
    && forall i | dst < i < |ToUtf8(full)| :: m[i] == ToUtf8(full)[i]
  }

  lemma Utf8Prefix(s: seq<byte>, i: nat)
    requires i <= |s|
    ensures ToUtf8(s[..i]) <= ToUtf8(s)
  {
    hide Encode;
    var a, b := AsNats(s[..i]), AsNats(s[i..]);
    assert AsNats(s) == a + b;
    EncodeAllOfBoth(a, b);
  }

  /** Where the encoding of one byte stands in the whole text. */
  lemma BytePlace(full: seq<byte>, src: nat)
    requires src < |full|
    ensures var u, e := |ToUtf8(full[..src])|, EncodeByte(full[src]);
            && |ToUtf8(full[..src + 1])| == u + |e| <= |ToUtf8(full)| && src <= u
            && ToUtf8(full)[u] == e[0] && (|e| == 2 ==> ToUtf8(full)[u + 1] == e[1])
  {
    hide ToUtf8;
    assert full[..src + 1] == full[..src] + [full[src]];
    ToUtf8Appends(full[..src], full[src]);
    ToUtf8IsNoShorter(full[..src]);
    Utf8Prefix(full, src + 1);
    var t := ToUtf8(full[..src + 1]);
    assert forall i | 0 <= i < |t| :: t[i] == ToUtf8(full)[i];
  }

  /** One turn of the loop that runs backwards over both texts. */
  method ConvertByte(content: array<byte>, ghost full: seq<byte>, src0: int, dst0: int) returns (src: int, dst: int)
    requires HalfConverted(content[..], full, src0, dst0) && src0 < dst0
    modifies content
    ensures HalfConverted(content[..], full, src, dst) && src < src0 && dst < dst0
    ensures forall i | |ToUtf8(full)| <= i < content.Length :: content[i] == old(content[i])
  {
    hide ToUtf8;
    src, dst := src0, dst0;
    if src < 0 {
      ToUtf8Appends([], 0);
      assert false;
    }
    BytePlace(full, src);
    if content[src] >= 128 {
      content[dst] := 128 + content[src] % 64;
      dst := dst - 1;
      content[dst] := 192 + content[src] / 64;
      dst, src := dst - 1, src - 1;
    } else {
      content[dst] := content[src];
      dst, src := dst - 1, src - 1;
    }
  }

  lemma Finished(m: seq<byte>, full: seq<byte>, src: int)
    requires HalfConverted(m, full, src, src)
    ensures |m| >= |ToUtf8(full)| && m[..|ToUtf8(full)|] == ToUtf8(full)
  {
    hide ToUtf8;
    ToUtf8IsNoShorter(full[..src + 1]);
    Utf8Prefix(full, src + 1);
    var t := ToUtf8(full[..src + 1]);
    assert forall i | 0 <= i < |t| :: t[i] == ToUtf8(full)[i] && t[i] == full[i];
  }

  /** How far a call writes: nowhere when it refuses, and else up to one byte behind the
      terminator. */
  function WriteEnd(s: seq<byte>, maxSize: nat): nat {
    if |ToUtf8(s)| + 1 > maxSize then 0 else |ToUtf8(s)| + 2
  }

  /** A call stays inside the size it is given, except when text and terminator fill it exactly. */
  lemma StaysInsideExactly(s: seq<byte>, maxSize: nat)
    ensures WriteEnd(s, maxSize) <= maxSize <==> maxSize != |ToUtf8(s)| + 1
  {
    hide ToUtf8;
  }

  /** Which is the size a call asks for when it refuses: given that, it writes one byte too far.
      So does a text of 1023 bytes in a buffer of 1024. */
  lemma RetryWritesTooFar(s: seq<byte>)
    ensures var asked := |ToUtf8(s)| + 1; WriteEnd(s, asked) == asked + 1
    ensures |ToUtf8(s)| == 1023 ==> WriteEnd(s, 1024) == 1025
  {
    hide ToUtf8;
  }

  /** Converts the string in place, back to front, if it fits in `maxSize`, and otherwise returns
      the space needed. `inside` says that it does not write behind the buffer. Besides the text
      and its terminator, one more NUL is written behind them. */
  method Iso8859_1ToUtf8(content: array<byte>, maxSize: nat, ghost s: seq<byte>) returns (r: nat, inside: bool)
    requires IsStr(content[..], s) && maxSize <= content.Length
    modifies content
    ensures inside <==> WriteEnd(s, maxSize) <= content.Length
    ensures |ToUtf8(s)| + 1 > maxSize ==> r == |ToUtf8(s)| + 1 && content[..] == old(content[..])
    ensures inside && |ToUtf8(s)| + 1 <= maxSize ==>
      && r == 0 && content[..|ToUtf8(s)| + 2] == ToUtf8(s) + [NUL, NUL]
      && forall i | |ToUtf8(s)| + 2 <= i < content.Length :: content[i] == old(content[i])
  {
    hide ToUtf8, IsStr;
    var src: int, dst: int;
    src, dst := MeasureUtf8(content, s);
    if dst + 1 > maxSize {
      return dst + 1, true;
    }
    if dst + 1 == content.Length {
      return 0, false;
    }
    ghost var full, m := s + [NUL], dst;
    StrBytes(content[..], s);
    ToUtf8Appends(s, NUL);
    ToUtf8IsNoShorter(s);
    content[dst + 1] := NUL;
    assert full[..src + 1] == full;
    while dst > src
      invariant HalfConverted(content[..], full, src, dst) && m + 1 == |ToUtf8(full)| && m + 1 < content.Length
      invariant content[m + 1] == NUL
      invariant forall i | m + 2 <= i < content.Length :: content[i] == old(content[i])
      decreases dst
    {
      src, dst := ConvertByte(content, full, src, dst);
    }
    Finished(content[..], full, src);
    r, inside := 0, true;
  }
}
