/** Strings and maps written to a settings file and read back (kitty_settings.c). */
module SettingsFile {
  import opened CText
  import Munging
  import opened SettingsMap
  import opened Wrappers

  // ---------------------------------------------------------------- lines

  predicate Eol(c: byte) {
    c == LF || c == CR
  }

  /** `s` without its trailing line ends and, if `slashes` says so, backslashes. */
  function Trim(s: seq<byte>, slashes: bool): (t: seq<byte>)
    ensures t <= s
    ensures forall i | |t| <= i < |s| :: Eol(s[i]) || (slashes && s[i] == BACKSLASH)
    ensures t != [] ==> !(Eol(t[|t| - 1]) || (slashes && t[|t| - 1] == BACKSLASH))
  {
    if s != [] && (Eol(s[|s| - 1]) || (slashes && s[|s| - 1] == BACKSLASH))
    then Trim(s[..|s| - 1], slashes)
    else s
  }

  lemma TrimIsUnique(s: seq<byte>, slashes: bool, n: nat)
    requires n <= |s| && forall i | n <= i < |s| :: Eol(s[i]) || (slashes && s[i] == BACKSLASH)
    requires n > 0 ==> !(Eol(s[n - 1]) || (slashes && s[n - 1] == BACKSLASH))
    ensures Trim(s, slashes) == s[..n]
  {
    var t := Trim(s, slashes);
    assert t == s[..|t|];
    assert |t| > 0 ==> t[|t| - 1] == s[|t| - 1];
    assert |t| == n;
  }

  function Line(key: seq<byte>, value: seq<byte>): seq<byte> {
    key + [BACKSLASH] + Munging.Munge(value, true) + [BACKSLASH]
  }

  predicate OneLine(m: seq<byte>) {
    forall i | 0 <= i < |m| :: m[i] != NUL && m[i] != BACKSLASH && !Eol(m[i])
  }

  /** The name of a setting. It fits the buffer the reader builds it in. */
  predicate SettingName(key: seq<byte>) {
    0 < |key| < 255 && OneLine(key)
  }

  /** How many bytes one fgets takes that may take `most`: up to the first line feed, or the end. */
  function Take(text: seq<byte>, most: nat): (n: nat)
    ensures n <= |text| && n <= most && (text != [] && most > 0 ==> n > 0)
    ensures n < |text| && n < most ==> n > 0 && text[n - 1] == LF
  {
    var k := Index(text, LF);
    if k < most then if k < |text| then k + 1 else |text|
    else most
  }

  /** The settings reader takes lines in pieces of so many bytes. */
  const PIECE: nat := 2046

  function Piece(text: seq<byte>): seq<byte> {
    text[..Take(text, PIECE)]
  }

  function Behind(text: seq<byte>): (r: seq<byte>)
    ensures text != [] ==> |r| < |text|
  {
    text[Take(text, PIECE)..]
  }

  /** What is found in memory `n` bytes into a line that has been trimmed in place. */
  function Rest(b: seq<byte>, n: nat): seq<byte> {
    var t := Trim(b, true);
    if n <= |t| then t[n..] else []
  }

  /** The C string that decoding gives. */
  function Decoded(m: seq<byte>): seq<byte> {
    var d := Munging.Unmunge(m);
    d[..Index(d, NUL)]
  }

  /** Whatever the decryption makes of a text, it is a string that the reader's buffer holds. */
  ghost predicate FitsBuffer(decrypt: seq<byte> -> seq<byte>) {
    forall s :: NulFree(decrypt(s)) && |decrypt(s)| < 2048
  }

  /** A trimmed piece in plain: one that does not end in a backslash is decrypted. */
  function Plain(b: seq<byte>, decrypt: seq<byte> -> seq<byte>): seq<byte> {
    if b != [] && b[|b| - 1] == BACKSLASH then b else decrypt(b)
  }

  function PlainPiece(text: seq<byte>, decrypt: seq<byte> -> seq<byte>): seq<byte> {
    Plain(Trim(Piece(text), false), decrypt)
  }

  predicate Names(key: seq<byte>, plain: seq<byte>) {
    key + [BACKSLASH] <= plain
  }

  /** The search for the key meets no blank piece before it is over: on one the source looks
      before its buffer. */
  predicate Legible(text: seq<byte>, key: seq<byte>, decrypt: seq<byte> -> seq<byte>)
    decreases |text|
  {
    text == [] ||
    (Trim(Piece(text), false) != [] &&
     (Names(key, PlainPiece(text, decrypt)) || Legible(Behind(text), key, decrypt)))
  }

  /** The value in the first piece that names the key. */
  function Lookup(text: seq<byte>, key: seq<byte>, decrypt: seq<byte> -> seq<byte>): Option<seq<byte>>
    decreases |text|
  {
    if text == [] then None
    else
      var plain := PlainPiece(text, decrypt);
      if Names(key, plain) then Some(Decoded(Rest(plain, |key| + 1)))
      else Lookup(Behind(text), key, decrypt)
  }

  // ---------------------------------------------------------------- reading inverts writing

  /** Munged text holds no line end and no backslash. */
  lemma MungedIsOneLine(value: seq<byte>)
    ensures OneLine(Munging.Munge(value, true))
  {
    hide Munging.Munge;
    Munging.MungedTextIsHarmless(value, true);
    var m := Munging.Munge(value, true);
    forall i | 0 <= i < |m|
      ensures m[i] != NUL && m[i] != BACKSLASH && !Eol(m[i])
    {
      assert Munging.Harmless(m[i]);
    }
  }

  lemma LineIsTrimmed(key: seq<byte>, value: seq<byte>)
    ensures Trim(Line(key, value), false) == Line(key, value)
  {
    TrimIsUnique(Line(key, value), false, |Line(key, value)|);
  }

  lemma LineIsText(key: seq<byte>, value: seq<byte>)
    requires OneLine(key)
    ensures NulFree(Line(key, value)) && LF !in Line(key, value)
    ensures Line(key, value)[|Line(key, value)| - 1] == BACKSLASH
  {
    hide Munging.Munge;
    MungedIsOneLine(value);
    var l := Line(key, value);
    var m := Munging.Munge(value, true);
    forall i | 0 <= i < |l|
      ensures l[i] != NUL && l[i] != LF
    {
      if i < |key| {
        assert l[i] == key[i];
      } else if |key| < i <= |key| + |m| {
        assert l[i] == m[i - |key| - 1];
      }
    }
  }

  /** A line written under one name is never taken for another's. */
  lemma LineNamesOnlyItsKey(key: seq<byte>, value: seq<byte>, other: seq<byte>)
    requires SettingName(key) && SettingName(other)
    ensures Names(other, Line(key, value)) <==> key == other
  {
    hide Munging.Munge;
    var l, o := Line(key, value), other + [BACKSLASH];
    assert l == (key + [BACKSLASH]) + (Munging.Munge(value, true) + [BACKSLASH]);
    assert key + [BACKSLASH] <= l;
    if o <= l {
      assert o == l[..|o|];
      assert o[|other|] == BACKSLASH && l[|key|] == BACKSLASH;
      assert forall i | 0 <= i < |key| :: l[i] == key[i];
      assert forall i | 0 <= i < |other| :: o[i] == other[i] && o[i] == l[i];
      assert |key| == |other|;
      assert key == other;
    }
  }

  lemma LineDecodes(key: seq<byte>, value: seq<byte>)
    requires SettingName(key) && NulFree(value)
    ensures Decoded(Rest(Line(key, value), |key| + 1)) == value
  {
    hide Munging.Munge, Munging.Unmunge, Trim;
    var m, l := Munging.Munge(value, true), Line(key, value);
    MungedIsOneLine(value);
    Munging.MungedTextIsHarmless(value, true);
    Munging.UnmungeInvertsMunge(value, true);
    if m == [] {
      TrimIsUnique(l, true, |key|);
    } else {
      TrimIsUnique(l, true, |key| + 1 + |m|);
    }
    assert Rest(l, |key| + 1) == m;
    assert value[..|value|] == value;
    IndexIsUnique(value, NUL, |value|);
  }

  lemma TakeIsLine(l: seq<byte>, more: seq<byte>, most: nat)
    requires LF !in l && |l| < most
    ensures Take(l + [LF] + more, most) == |l| + 1
    ensures (l + [LF] + more)[..|l| + 1] == l + [LF] && (l + [LF] + more)[|l| + 1..] == more
  {
    var text := l + [LF] + more;
    assert text[..|l|] == l;
    IndexIsUnique(text, LF, |l|);
  }

  /** A file, or a part of one, in which every line has its line feed. */
  predicate Ended(text: seq<byte>) {
    text != [] ==> text[|text| - 1] == LF
  }

  lemma TakeInFront(text: seq<byte>, more: seq<byte>, most: nat)
    requires text != [] && Ended(text) && most > 0
    ensures var n := Take(text, most);
      && Take(text + more, most) == n && (text + more)[..n] == text[..n] && (text + more)[n..] == text[n..] + more
      && Ended(text[n..])
  {
    var k, all := Index(text, LF), text + more;
    IndexIsFirst(text, LF, |text| - 1);
    assert all[..k] == text[..k] && all[k] == LF;
    IndexIsUnique(all, LF, k);
  }

  lemma TakeOfLong(l: seq<byte>, more: seq<byte>, most: nat)
    requires LF !in l && |l| >= most
    ensures Take(l + [LF] + more, most) == most && (l + [LF] + more)[..most] == l[..most]
  {
    var text := l + [LF] + more;
    assert text[..|l|] == l;
    IndexIsUnique(text, LF, |l|);
  }

  /** The piece that a written line makes is the line, if it has no more than so many bytes. */
  lemma PieceOfLine(key: seq<byte>, value: seq<byte>, more: seq<byte>, decrypt: seq<byte> -> seq<byte>)
    requires OneLine(key) && |Line(key, value)| <= PIECE
    ensures var text := Line(key, value) + [LF] + more;
      && Trim(Piece(text), false) == Line(key, value) == PlainPiece(text, decrypt)
      && Line(key, value) != [] && (|Line(key, value)| < PIECE ==> Behind(text) == more)
  {
    hide Line, Trim, Take;
    var l := Line(key, value);
    LineIsText(key, value);
    LineIsTrimmed(key, value);
    LineIsNotEmpty(key, value);
    if |l| < PIECE {
      TrimOfLine(l);
      TakeIsLine(l, more, PIECE);
    } else {
      TakeOfLong(l, more, PIECE);
      assert l[..|l|] == l;
    }
  }

  /** A longer line is cut, and what is in front of the cut is taken for encrypted text. */
  lemma LongLineIsCut(key: seq<byte>, value: seq<byte>, more: seq<byte>, decrypt: seq<byte> -> seq<byte>)
    requires SettingName(key) && |Line(key, value)| > PIECE
    ensures PlainPiece(Line(key, value) + [LF] + more, decrypt) == decrypt(Line(key, value)[..PIECE])
  {
    hide Line, Trim, Take;
    var l := Line(key, value);
    LineIsText(key, value);
    TakeOfLong(l, more, PIECE);
    InsideLine(key, value, PIECE - 1);
    var b := l[..PIECE];
    assert b[..PIECE] == b && b[PIECE - 1] == l[PIECE - 1];
    TrimIsUnique(b, false, PIECE);
  }

  lemma InsideLine(key: seq<byte>, value: seq<byte>, i: nat)
    requires |key| < i < |Line(key, value)| - 1
    ensures Line(key, value)[i] != BACKSLASH && !Eol(Line(key, value)[i])
  {
    hide Munging.Munge;
    MungedIsOneLine(value);
    assert Line(key, value)[i] == Munging.Munge(value, true)[i - |key| - 1];
  }

  lemma LineIsNotEmpty(key: seq<byte>, value: seq<byte>)
    ensures Line(key, value) != []
  {
  }

  /** The search passes over this text and finds nothing. */
  predicate Silent(text: seq<byte>, key: seq<byte>, decrypt: seq<byte> -> seq<byte>) {
    Ended(text) && Legible(text, key, decrypt) && Lookup(text, key, decrypt) == None
  }

  lemma {:induction false} SearchGoesOn(
      before: seq<byte>, more: seq<byte>, key: seq<byte>, decrypt: seq<byte> -> seq<byte>)
    requires Silent(before, key, decrypt)
    ensures Legible(before + more, key, decrypt) <==> Legible(more, key, decrypt)
    ensures Lookup(before + more, key, decrypt) == Lookup(more, key, decrypt)
    decreases |before|
  {
    hide Take, Trim, Plain, Decoded, Rest, Names;
    if before == [] {
      CatEmpty(more);
    } else {
      TakeInFront(before, more, PIECE);
      SearchGoesOn(Behind(before), more, key, decrypt);
    }
  }

  /** A string that has been written is read back, whatever else stands in the file, if nothing
      before it stops the search. */
  lemma WrittenIsRead(
      before: seq<byte>, key: seq<byte>, value: seq<byte>, after: seq<byte>, decrypt: seq<byte> -> seq<byte>)
    requires SettingName(key) && NulFree(value) && |Line(key, value)| <= PIECE
    requires Silent(before, key, decrypt)
    ensures var text := before + (Line(key, value) + [LF] + after);
      Legible(text, key, decrypt) && Lookup(text, key, decrypt) == Some(value)
  {
    hide Names, Decoded, Rest, Line, Silent, PlainPiece, Behind, Piece;
    var more := Line(key, value) + [LF] + after;
    SearchGoesOn(before, more, key, decrypt);
    PieceOfLine(key, value, after, decrypt);
    LineNamesOnlyItsKey(key, value, key);
    LineDecodes(key, value);
    assert more != [];
  }

  /** And nothing does that has been written under other names. */
  lemma WrittenIsSilent(
      before: seq<byte>, other: seq<byte>, value: seq<byte>, key: seq<byte>, decrypt: seq<byte> -> seq<byte>)
    requires SettingName(key) && SettingName(other) && key != other && |Line(other, value)| < PIECE
    requires Silent(before, key, decrypt)
    ensures Silent(before + (Line(other, value) + [LF]), key, decrypt)
  {
    hide Names, Decoded, Rest, Line, PlainPiece, Behind, Piece;
    var more := Line(other, value) + [LF];
    CatEmpty(more);
    SearchGoesOn(before, more, key, decrypt);
    PieceOfLine(other, value, [], decrypt);
    LineNamesOnlyItsKey(other, value, key);
    assert more != [] && (before + more)[|before + more| - 1] == LF;
    assert Legible([], key, decrypt) && Lookup([], key, decrypt) == None;
  }

  /** A line that just fills a piece leaves its line feed to the next one, and that is blank. */
  lemma FullPieceStopsSearch(
      other: seq<byte>, value: seq<byte>, more: seq<byte>, key: seq<byte>, decrypt: seq<byte> -> seq<byte>)
    requires SettingName(key) && SettingName(other) && key != other && |Line(other, value)| == PIECE
    ensures !Legible(Line(other, value) + [LF] + more, key, decrypt)
  {
    hide Names, Line, PlainPiece, Take, Trim;
    var l := Line(other, value);
    var text := l + [LF] + more;
    LineIsText(other, value);
    PieceOfLine(other, value, more, decrypt);
    LineNamesOnlyItsKey(other, value, key);
    TakeOfLong(l, more, PIECE);
    assert Behind(text) == [] + [LF] + more;
    BlankPiece(more);
  }

  lemma BlankPiece(more: seq<byte>)
    ensures Trim(Piece([] + [LF] + more), false) == []
  {
    hide Trim, Take;
    TakeIsLine([], more, PIECE);
    assert ([] + [LF] + more)[..1] == [LF];
    TrimIsUnique([LF], false, 0);
  }

  // ---------------------------------------------------------------- the file

  method StrLenAt(m: array<byte>, from: nat, ghost s: seq<byte>) returns (n: nat)
    requires HoldsAt(m, from, s)
    ensures n == |s|
  {
    n := 0;
    while m[from + n] != NUL
      invariant n <= |s|
      decreases |s| - n
    {
      n := n + 1;
    }
    OnlyNulEnds(m, from, s, n);
  }

  /** Reads a piece of a line, with its terminator. */
  method Fgets(buffer: array<byte>, text: seq<byte>, most: nat) returns (n: nat)
    requires most < buffer.Length && NulFree(text)
    modifies buffer
    ensures n == Take(text, most) && HoldsAt(buffer, 0, text[..n])
  {
    n := 0;
    ghost var k := Index(text, LF);
    while n < most && n < |text| && (n > 0 ==> text[n - 1] != LF)
      invariant n <= most && n <= |text| && LF !in text[..if n > 0 then n - 1 else 0]
      invariant forall i | 0 <= i < n :: buffer[i] == text[i]
    {
      if n > 0 {
        assert text[..n] == text[..n - 1] + [text[n - 1]];
      }
      buffer[n] := text[n];
      n := n + 1;
    }
    buffer[n] := NUL;
    TakeIs(text, most, n);
    assert forall i | 0 <= i < n :: text[i] in text;
  }

  lemma TakeIs(text: seq<byte>, most: nat, n: nat)
    requires n <= most && n <= |text| && LF !in text[..if n > 0 then n - 1 else 0]
    requires n < most && n < |text| ==> n > 0 && text[n - 1] == LF
    ensures n == Take(text, most)
  {
    if n > 0 && text[n - 1] == LF {
      IndexIsUnique(text, LF, n - 1);
    } else {
      var k := Index(text, LF);
      assert forall i | 0 <= i < n :: text[i] != LF by {
        assert forall i | 0 <= i < n - 1 :: text[i] == text[..n - 1][i];
      }
      assert n <= k;
    }
  }

  /** Overwrites trailing line ends, and backslashes if asked, with NULs. When nothing is left, it
      goes on to look before the front; `inside` says that something is. */
  method Strip(buffer: array<byte>, slashes: bool, ghost s: seq<byte>) returns (inside: bool)
    requires HoldsAt(buffer, 0, s)
    modifies buffer
    ensures inside <==> Trim(s, slashes) != []
    ensures inside ==> HoldsAt(buffer, 0, Trim(s, slashes))
    ensures inside ==> forall i | |Trim(s, slashes)| <= i <= |s| :: buffer[i] == NUL
  {
    var n := StrLenAt(buffer, 0, s);
    ghost var t := Trim(s, slashes);
    while n > 0 && (Eol(buffer[n - 1]) || (slashes && buffer[n - 1] == BACKSLASH))
      invariant |t| <= n <= |s| && HoldsAt(buffer, 0, s[..n])
      invariant forall i | n <= i < |s| :: Eol(s[i]) || (slashes && s[i] == BACKSLASH)
      invariant forall i | n <= i <= |s| :: buffer[i] == NUL
      decreases n
    {
      buffer[n - 1] := NUL;
      n := n - 1;
    }
    TrimIsUnique(s, slashes, n);
    inside := n > 0;
  }

  /** What is found behind the name in a line that has been stripped in place. */
  lemma RestIsThere(buffer: array<byte>, b: seq<byte>, n: nat)
    requires n <= |b| && HoldsAt(buffer, 0, Trim(b, true)) && |b| < buffer.Length
    requires forall i | |Trim(b, true)| <= i <= |b| :: buffer[i] == NUL
    ensures HoldsAt(buffer, n, Rest(b, n))
  {
    var t := Trim(b, true);
    assert forall i | 0 <= i < |t| :: buffer[0 + i] == t[i];
    assert forall i | n <= i < |t| :: t[i] == t[n..][i - n];
  }

  /** Decodes the text into a block of its own size. */
  method DecodeRest(buffer: array<byte>, from: nat, ghost m: seq<byte>) returns (r: seq<byte>)
    requires HoldsAt(buffer, from, m)
    ensures r == Decoded(m)
  {
    hide Munging.Unmunge, Index;
    var len := StrLenAt(buffer, from, m);
    var out := new byte[len + 1];
    assert forall i | 0 <= i < |m| :: buffer[from + i] == m[i];
    assert buffer[from..][..|m|] == m;
    assert IsStr(buffer[from..], m);
    Munging.UnmungeStr(buffer, from, out, 0, len + 1, m);
    ghost var d := Munging.Unmunge(m);
    assert Munging.Unmunged(m, len + 1) == d + [NUL];
    assert out[0..|d| + 1] == d + [NUL];
    ghost var k := Index(d, NUL);
    assert forall i | 0 <= i <= |d| :: out[i] == out[0..|d| + 1][i];
    assert forall i | 0 <= i < k :: d[..k][i] == d[i];
    assert HoldsAt(out, 0, d[..k]);
    r := TextOf(out, 0, d[..k]);
  }

  lemma TrimOfLine(line: seq<byte>)
    ensures Trim(line + [LF], false) == Trim(line, false)
  {
    assert (line + [LF])[..|line|] == line;
  }

  lemma NamedLineIsNotEmptied(key: seq<byte>, b: seq<byte>)
    requires SettingName(key) && key + [BACKSLASH] <= b
    ensures Trim(b, true) != []
  {
    assert b[0] == key[0];
  }

  /** Writes a string to the front of the buffer. */
  method Overwrite(buffer: array<byte>, s: seq<byte>)
    requires NulFree(s) && |s| < buffer.Length
    modifies buffer
    ensures HoldsAt(buffer, 0, s)
  {
    for i := 0 to |s|
      invariant forall k | 0 <= k < i :: buffer[k] == s[k]
    {
      buffer[i] := s[i];
    }
    buffer[|s|] := NUL;
    assert forall i | 0 <= i < |s| :: s[i] in s;
  }

  /** One turn of the search: how much it takes, whether it names the key, and then its value. */
  method ReadPiece(buffer: array<byte>, text: seq<byte>, key: seq<byte>, decrypt: seq<byte> -> seq<byte>)
    returns (inside: bool, n: nat, r: Option<seq<byte>>)
    requires buffer.Length == 2048 && NulFree(text) && SettingName(key) && FitsBuffer(decrypt)
    modifies buffer
    ensures n == Take(text, PIECE) && (inside <==> Trim(Piece(text), false) != [])
    ensures inside ==> var plain := PlainPiece(text, decrypt);
      r == if Names(key, plain) then Some(Decoded(Rest(plain, |key| + 1))) else None
  {
    hide Trim, Decoded, Rest, Take, HoldsAt;
    r := None;
    n := Fgets(buffer, text, PIECE);
    inside := Strip(buffer, false, Piece(text));
    if !inside {
      return;
    }
    ghost var b := Trim(Piece(text), false);
    var plain := TextOf(buffer, 0, b);
    if plain[|plain| - 1] != BACKSLASH {
      plain := decrypt(plain);
      Overwrite(buffer, plain);
    }
    if key + [BACKSLASH] <= plain {
      NamedLineIsNotEmptied(key, plain);
      var left := Strip(buffer, true, plain);
      RestIsThere(buffer, plain, |key| + 1);
      var v := DecodeRest(buffer, |key| + 1, Rest(plain, |key| + 1));
      r := Some(v);
    }
  }

  /** Encodes the value into a block of three times its length and some more. */
  method MungedText(value: seq<byte>, more: nat) returns (text: seq<byte>)
    requires NulFree(value) && more > 0
    ensures text == Munging.Munge(value, true)
  {
    hide Munging.Munge;
    var p := new byte[3 * |value| + more];
    Munging.MungedTextIsHarmless(value, true);
    Munging.MungeStr(value, p);
    ghost var m := Munging.Munge(value, true);
    assert forall i | 0 <= i < |m| :: p[i] == p[..][..|m|][i] && m[i] in m;
    assert p[..][|m|] == NUL;
    text := TextOf(p, 0, m);
  }

  /** A settings file. */
  class File {
    var text: seq<byte>

    constructor ()
      ensures text == []
    {
      text := [];
    }

    method WriteSettingS(key: seq<byte>, value: seq<byte>)
      requires SettingName(key) && NulFree(value)
      modifies this
      ensures text == old(text) + (Line(key, value) + [LF])
    {
      var munged := MungedText(value, 256);
      text := text + (key + [BACKSLASH] + munged + [BACKSLASH] + [LF]);
    }

    /** The value found; `inside` says that no blank piece makes the search look before its
        buffer. */
    method ReadSettingS(key: seq<byte>, decrypt: seq<byte> -> seq<byte>)
      returns (inside: bool, r: Option<seq<byte>>)
      requires SettingName(key) && NulFree(text) && FitsBuffer(decrypt)
      ensures inside <==> Legible(text, key, decrypt)
      ensures inside ==> r == Lookup(text, key, decrypt)
    {
      hide Names, Rest, Decoded, PlainPiece, Trim, Take, FitsBuffer;
      var buffer := new byte[2048];
      var rest := text;
      while rest != []
        invariant NulFree(rest)
        invariant Legible(text, key, decrypt) <==> Legible(rest, key, decrypt)
        invariant Lookup(text, key, decrypt) == Lookup(rest, key, decrypt)
        decreases |rest|
      {
        var n;
        inside, n, r := ReadPiece(buffer, rest, key, decrypt);
        if !inside || r.Some? {
          return;
        }
        assert rest[n..] == Behind(rest);
        rest := rest[n..];
      }
      inside, r := true, None;
    }

    method SaveMap(key: seq<byte>, es: seq<Entry>, portfwd: bool, values: bool)
      requires SettingName(key) && Listing(es)
      modifies this
      ensures text == old(text) + (Line(key, Saved(es, portfwd, values)) + [LF])
      ensures NulFree(Saved(es, portfwd, values))
    {
      hide Saved;
      SavedIsText(es, portfwd, values);
      var buf, p := WmapForced(es, portfwd, values);
      WriteSettingS(key, buf[..p]);
    }

    /** Whether the file has the map, and what it holds; `inside` says that the search stays in
        its buffer and that the text found does not end in an unfinished escape, behind which the
        source reads on. */
    method LoadMap(key: seq<byte>, portfwd: bool, decrypt: seq<byte> -> seq<byte>)
      returns (inside: bool, conf: Option<Conf>)
      requires SettingName(key) && NulFree(text) && FitsBuffer(decrypt)
      ensures var found := Lookup(text, key, decrypt);
        && (inside <==> Legible(text, key, decrypt) && (found.Some? ==> WellEscaped(found.value)))
        && (inside ==> conf == if found.Some? then Some(Loaded(found.value, portfwd)) else None)
    {
      hide WellEscaped, Loaded, Lookup, Legible, FitsBuffer;
      conf := None;
      var found;
      inside, found := ReadSettingS(key, decrypt);
      if !inside || found.None? {
        return;
      }
      LookedUpIsText(text, key, decrypt);
      var s := found.value;
      var buf := new byte[|s| + 1](i => if 0 <= i < |s| then s[i] else NUL);
      assert forall i | 0 <= i < |s| :: s[i] in s;
      var c;
      inside, c := GppmapForced(buf, portfwd, s);
      conf := Some(c);
    }
  }

  lemma {:induction false} LookedUpIsText(text: seq<byte>, key: seq<byte>, decrypt: seq<byte> -> seq<byte>)
    requires Lookup(text, key, decrypt).Some?
    ensures NulFree(Lookup(text, key, decrypt).value)
    decreases |text|
  {
    hide Names, Munging.Unmunge, PlainPiece, Behind;
    if !Names(key, PlainPiece(text, decrypt)) {
      LookedUpIsText(Behind(text), key, decrypt);
    }
  }

  lemma {:induction false} EscapeIsText(s: seq<byte>)
    requires NulFree(s)
    ensures NulFree(Escape(s))
  {
    if s != [] {
      EscapeIsText(s[1..]);
    }
  }

  lemma {:induction false} MarshalIsText(es: seq<Entry>, values: bool)
    requires AreTexts(es)
    ensures NulFree(Marshal(es, values))
  {
    if es != [] {
      var e := es[|es| - 1];
      MarshalIsText(es[..|es| - 1], values);
      EscapeIsText(e.key);
      EscapeIsText(e.val);
    }
  }

  lemma SavedIsText(es: seq<Entry>, portfwd: bool, values: bool)
    requires AreTexts(es)
    ensures NulFree(Saved(es, portfwd, values))
  {
    hide Marshal, IsText;
    forall i | 0 <= i < |es|
      ensures IsText(StoredAll(es, portfwd)[i])
    {
      StoredIsText(es[i], portfwd);
    }
    MarshalIsText(StoredAll(es, portfwd), values);
  }

  /** A map saved to a file and loaded from it again, among whatever other settings: it is given
      back always, and a map of port forwardings exactly when each of them survives. */
  lemma MapRoundTrip(before: seq<byte>, key: seq<byte>, es: seq<Entry>, portfwd: bool, after: seq<byte>,
                     decrypt: seq<byte> -> seq<byte>)
    requires SettingName(key) && Listing(es) && |Line(key, Saved(es, portfwd, true))| <= PIECE
    requires Silent(before, key, decrypt)
    ensures var text := before + (Line(key, Saved(es, portfwd, true)) + [LF] + after);
      var found := Lookup(text, key, decrypt);
      && Legible(text, key, decrypt) && found.Some? && WellEscaped(found.value)
      && (Loaded(found.value, portfwd) == ConfOf(es)
          <==> (portfwd ==> forall i | 0 <= i < |es| :: Survives(es[i])))
  {
    hide *;
    ListingIsText(es);
    SavedIsText(es, portfwd, true);
    WrittenIsRead(before, key, Saved(es, portfwd, true), after, decrypt);
    SavedMapLoads(es, portfwd);
  }

  lemma ListingIsText(es: seq<Entry>)
    requires Listing(es)
    ensures AreTexts(es)
  {
  }
}
