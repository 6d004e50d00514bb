/** String maps and strings in a saved-settings file (kitty_settings.c). */
module SettingsMap {
  import opened CText

  const CAP_D: byte := 68
  const CAP_L: byte := 76

  /** One subkey of a map-valued setting, with its value. */
  datatype Entry = Entry(key: seq<byte>, val: seq<byte>)

  type Conf = map<seq<byte>, seq<byte>>

  predicate IsText(e: Entry) {
    NulFree(e.key) && NulFree(e.val)
  }

  predicate AreTexts(es: seq<Entry>) {
    forall i | 0 <= i < |es| :: IsText(es[i])
  }

  /** The entries of a configuration, in the order it lists them. */
  predicate Listing(es: seq<Entry>) {
    AreTexts(es) && forall i, j | 0 <= i < j < |es| :: es[i].key != es[j].key
  }

  /** The configuration after the entries have been set one after the other. */
  function ConfOf(es: seq<Entry>): Conf {
    if es == [] then map[] else ConfOf(es[..|es| - 1])[es[|es| - 1].key := es[|es| - 1].val]
  }

  // ---------------------------------------------------------------- the text of a map

  predicate Special(c: byte) {
    c == EQUALS || c == COMMA || c == BACKSLASH
  }

  function EscapedByte(c: byte): seq<byte> {
    if Special(c) then [BACKSLASH, c] else [c]
  }

  function Escape(s: seq<byte>): seq<byte> {
    if s == [] then [] else EscapedByte(s[0]) + Escape(s[1..])
  }

  function Field(e: Entry, values: bool): seq<byte> {
    Escape(e.key) + if values then [EQUALS] + Escape(e.val) else []
  }

  /** A comma is written unless the buffer is still empty. */
  function Separated(out: seq<byte>): seq<byte> {
    if out == [] then [] else out + [COMMA]
  }

  function Marshal(es: seq<Entry>, values: bool): seq<byte> {
    if es == [] then [] else Separated(Marshal(es[..|es| - 1], values)) + Field(es[|es| - 1], values)
  }

  predicate Unspecial(s: seq<byte>) {
    forall i | 0 <= i < |s| :: s[i] != 61 && s[i] != 44 && s[i] != 92
  }

  /** Text without '=', ',' and '\' is written as it is; before one of these a '\' is put. */
  lemma {:induction false} EscapedForm(s: seq<byte>, c: byte, t: seq<byte>)
    requires Unspecial(s)
    ensures Escape(s) == s
    ensures c in [61, 44, 92] ==> Escape(s + [c] + t) == s + [92, c] + Escape(t)
    decreases |s|
  {
    var all := s + [c] + t;
    if s == [] {
      assert all[1..] == t;
    } else {
      assert all[1..] == s[1..] + [c] + t;
      EscapedForm(s[1..], c, t);
    }
  }

  /** A map is written as "key=value,key=value", without values as "key,key". */
  lemma MarshalledForm(a: Entry, b: Entry)
    requires Unspecial(a.key) && Unspecial(a.val) && Unspecial(b.key) && Unspecial(b.val) && a.key != []
    ensures Marshal([a, b], true) == a.key + [61] + a.val + [44] + b.key + [61] + b.val
    ensures Marshal([a, b], false) == a.key + [44] + b.key
  {
    hide Escape;
    EscapedForm(a.key, 0, []);
    EscapedForm(a.val, 0, []);
    EscapedForm(b.key, 0, []);
    EscapedForm(b.val, 0, []);
    assert [a, b][..1] == [a] && [a][..0] == [];
    MarshalOne(a, true);
    MarshalOne(a, false);
  }

  lemma MarshalOne(e: Entry, values: bool)
    ensures Marshal([e], values) == Field(e, values)
  {
    assert [e][..0] == [];
    CatEmpty(Field(e, values));
  }

  // ---------------------------------------------------------------- reading it

  /** No backslash is the last byte of an escape that was never finished. */
  predicate WellEscaped(s: seq<byte>) {
    s != [] ==>
      if s[0] == BACKSLASH then |s| > 1 && WellEscaped(s[2..]) else WellEscaped(s[1..])
  }

  /** How much of `s` its first field takes, and what is decoded from that: each '=' becomes a
      NUL and each escape the byte it stands for. */
  function FieldEnd(s: seq<byte>): (n: nat)
    ensures n <= |s| && (n < |s| ==> s[n] == COMMA)
  {
    if s == [] || s[0] == COMMA then 0
    else if s[0] != BACKSLASH then 1 + FieldEnd(s[1..])
    else if |s| == 1 then 1
    else 2 + FieldEnd(s[2..])
  }

  function Cooked(s: seq<byte>): seq<byte> {
    if s == [] || s[0] == COMMA then []
    else if s[0] != BACKSLASH then [if s[0] == EQUALS then NUL else s[0]] + Cooked(s[1..])
    else if |s| == 1 then []
    else [s[1]] + Cooked(s[2..])
  }

  /** The first field ends in an unfinished escape. */
  predicate OpenField(s: seq<byte>) {
    if s == [] || s[0] == COMMA then false
    else if s[0] != BACKSLASH then OpenField(s[1..])
    else |s| == 1 || OpenField(s[2..])
  }

  lemma {:induction false} WellEscapedFields(s: seq<byte>)
    ensures WellEscaped(s) <==> !OpenField(s) && WellEscaped(s[FieldEnd(s)..])
  {
    if s != [] && s[0] != COMMA {
      if s[0] != BACKSLASH {
        WellEscapedFields(s[1..]);
        assert s[1..][FieldEnd(s[1..])..] == s[FieldEnd(s)..];
      } else if |s| > 1 {
        WellEscapedFields(s[2..]);
        assert s[2..][FieldEnd(s[2..])..] == s[FieldEnd(s)..];
      }
    }
  }

  /** Where the last NUL of `d` is, plus one; 0 if there is none. */
  function AfterLastNul(d: seq<byte>): (k: nat)
    ensures k <= |d| && NulFree(d[k..]) && (k > 0 ==> d[k - 1] == NUL) && (k == 0 ==> NulFree(d))
  {
    if d == [] then 0
    else if d[|d| - 1] == NUL then |d|
    else
      var k := AfterLastNul(d[..|d| - 1]);
      assert d[k..] == d[..|d| - 1][k..] + [d[|d| - 1]];
      assert k == 0 ==> d[0..] == d;
      k
  }

  /** Key and value in the cooked bytes of a field: the key ends at the first NUL and the value
      begins after the last. */
  function EntryOf(d: seq<byte>): Entry {
    var k := AfterLastNul(d);
    Entry(d[..Index(d, NUL)], if k == 0 then [] else d[k..])
  }

  function NextField(s: seq<byte>): (r: seq<byte>)
    ensures s != [] ==> |r| < |s|
  {
    if FieldEnd(s) < |s| then s[FieldEnd(s) + 1..] else []
  }

  lemma NextFieldIsWellEscaped(s: seq<byte>)
    ensures WellEscaped(s) <==> !OpenField(s) && WellEscaped(NextField(s))
  {
    hide OpenField, FieldEnd;
    var n := FieldEnd(s);
    WellEscapedFields(s);
    if n < |s| {
      assert s[n..][0] == COMMA && s[n..][1..] == s[n + 1..];
    }
  }

  function Unmarshal(s: seq<byte>): seq<Entry>
    decreases |s|
  {
    if s == [] then [] else [EntryOf(Cooked(s))] + Unmarshal(NextField(s))
  }

  // ---------------------------------------------------------------- decoding inverts encoding

  lemma EscapedByteDecodes(c: byte, t: seq<byte>)
    requires WellEscaped(t)
    ensures WellEscaped(EscapedByte(c) + t)
    ensures FieldEnd(EscapedByte(c) + t) == |EscapedByte(c)| + FieldEnd(t)
    ensures Cooked(EscapedByte(c) + t) == [c] + Cooked(t)
  {
    assert (EscapedByte(c) + t)[|EscapedByte(c)|..] == t;
  }

  lemma EqualsDecodes(t: seq<byte>)
    requires WellEscaped(t)
    ensures WellEscaped([EQUALS] + t)
    ensures FieldEnd([EQUALS] + t) == 1 + FieldEnd(t)
    ensures Cooked([EQUALS] + t) == [NUL] + Cooked(t)
  {
    assert ([EQUALS] + t)[1..] == t;
  }

  lemma EscapeUnfolds(s: seq<byte>)
    ensures s == [] ==> Escape(s) == []
    ensures s != [] ==> Escape(s) == EscapedByte(s[0]) + Escape(s[1..])
  {
  }

  /** Escaped text in front of anything decodes to itself. */
  lemma {:induction false} EscapedDecodes(s: seq<byte>, rest: seq<byte>)
    requires WellEscaped(rest)
    ensures WellEscaped(Escape(s) + rest)
    ensures FieldEnd(Escape(s) + rest) == |Escape(s)| + FieldEnd(rest)
    ensures Cooked(Escape(s) + rest) == s + Cooked(rest)
  {
    hide *;
    EscapeUnfolds(s);
    if s == [] {
      CatEmpty(rest);
      CatEmpty(Cooked(rest));
    } else {
      EscapedDecodes(s[1..], rest);
      EscapedByteDecodes(s[0], Escape(s[1..]) + rest);
      CatAssoc(EscapedByte(s[0]), Escape(s[1..]), rest);
      CatCons(s, Cooked(rest));
    }
  }

  predicate AtSeparator(rest: seq<byte>) {
    rest == [] || rest[0] == COMMA
  }

  lemma EntryOfParts(k: seq<byte>, v: seq<byte>)
    requires NulFree(k) && NulFree(v)
    ensures EntryOf(k + [NUL] + v) == Entry(k, v)
    ensures EntryOf(k) == Entry(k, [])
  {
    var d := k + [NUL] + v;
    assert d[..|k|] == k && k[..|k|] == k;
    IndexIsUnique(d, NUL, |k|);
    IndexIsUnique(k, NUL, |k|);
    var j := AfterLastNul(d);
    assert d[|k|] == NUL;
    assert forall i | j <= i < |d| :: d[i] == d[j..][i - j];
    assert forall i | |k| < i < |d| :: d[i] == v[i - |k| - 1];
    assert j == |k| + 1;
    assert d[j..] == v;
  }

  lemma SeparatorEndsField(rest: seq<byte>)
    requires AtSeparator(rest) && WellEscaped(rest)
    ensures FieldEnd(rest) == 0 && Cooked(rest) == []
  {
  }

  lemma FieldDecodes(e: Entry, values: bool, rest: seq<byte>)
    requires IsText(e) && AtSeparator(rest) && WellEscaped(rest)
    ensures WellEscaped(Field(e, values) + rest)
    ensures FieldEnd(Field(e, values) + rest) == |Field(e, values)|
    ensures EntryOf(Cooked(Field(e, values) + rest)) == if values then e else e.(val := [])
  {
    hide Escape, WellEscaped, FieldEnd, Cooked, EntryOf;
    SeparatorEndsField(rest);
    if values {
      var t := Escape(e.val) + rest;
      EscapedDecodes(e.val, rest);
      EqualsDecodes(t);
      EscapedDecodes(e.key, [EQUALS] + t);
      CatEmpty(e.val);
      CatAssoc([EQUALS], Escape(e.val), rest);
      CatAssoc(Escape(e.key), [EQUALS] + Escape(e.val), rest);
      CatAssoc(e.key, [NUL], e.val);
      EntryOfParts(e.key, e.val);
    } else {
      EscapedDecodes(e.key, rest);
      CatEmpty(Escape(e.key));
      CatEmpty(e.key);
      EntryOfParts(e.key, []);
    }
  }

  // ---------------------------------------------------------------- a whole map comes back

  /** What of an entry is written: without values only its key. */
  function Seen(e: Entry, values: bool): Entry {
    if values then e else e.(val := [])
  }

  function SeenAll(es: seq<Entry>, values: bool): (r: seq<Entry>)
    ensures |r| == |es| && forall i | 0 <= i < |es| :: r[i] == Seen(es[i], values)
  {
    seq(|es|, i requires 0 <= i < |es| => Seen(es[i], values))
  }

  /** Every field has at least one byte, so none loses its comma. */
  predicate Visible(es: seq<Entry>, values: bool) {
    values || forall i | 0 <= i < |es| :: es[i].key != []
  }

  /** The fields after the first, each with its comma. */
  function MoreFields(es: seq<Entry>, values: bool): seq<byte> {
    if es == [] then [] else [COMMA] + (Field(es[0], values) + MoreFields(es[1..], values))
  }

  lemma FieldIsVisible(e: Entry, values: bool)
    requires values || e.key != []
    ensures Field(e, values) != []
  {
    if !values {
      EscapeUnfolds(e.key);
    }
  }

  lemma {:induction false} MoreFieldsOfLast(es: seq<Entry>, e: Entry, values: bool)
    ensures MoreFields(es + [e], values) == MoreFields(es, values) + [COMMA] + Field(e, values)
  {
    hide Field;
    if es == [] {
      assert es + [e] == [e];
      CatEmpty(Field(e, values));
    } else {
      MoreFieldsOfLast(es[1..], e, values);
      assert (es + [e])[1..] == es[1..] + [e];
      var f, m, g := Field(es[0], values), MoreFields(es[1..], values), Field(e, values);
      CatAssoc(m, [COMMA], g);
      CatAssoc(f, m, [COMMA] + g);
      CatAssoc([COMMA], f + m, [COMMA] + g);
      CatAssoc([COMMA] + (f + m), [COMMA], g);
    }
  }

  lemma {:induction false} MarshalFromTheFront(es: seq<Entry>, values: bool)
    requires es != [] && Visible(es, values)
    ensures Marshal(es, values) == Field(es[0], values) + MoreFields(es[1..], values)
  {
    hide Field;
    var n := |es| - 1;
    var f, g := Field(es[0], values), Field(es[n], values);
    if n == 0 {
      CatEmpty(f);
    } else {
      var m := MoreFields(es[1..n], values);
      MarshalFromTheFront(es[..n], values);
      assert es[..n][1..] == es[1..n] && es[1..] == es[1..n] + [es[n]];
      FieldIsVisible(es[0], values);
      MoreFieldsOfLast(es[1..n], es[n], values);
      CatAssoc(f, m, [COMMA]);
      CatAssoc(f, m + [COMMA], g);
    }
  }

  lemma UnmarshalUnfolds(f: seq<byte>, rest: seq<byte>)
    requires f != [] && FieldEnd(f + rest) == |f| && AtSeparator(rest)
    ensures Unmarshal(f + rest) ==
      [EntryOf(Cooked(f + rest))] + if rest == [] then [] else Unmarshal(rest[1..])
  {
    hide FieldEnd, Cooked, EntryOf, NextField;
    NextFieldBehind(f, rest);
  }

  lemma NextFieldBehind(f: seq<byte>, rest: seq<byte>)
    requires FieldEnd(f + rest) == |f|
    ensures NextField(f + rest) == if rest == [] then [] else rest[1..]
  {
    hide FieldEnd;
    assert rest != [] ==> (f + rest)[|f| + 1..] == rest[1..];
  }

  lemma CommaIsPlain(t: seq<byte>)
    ensures ([COMMA] + t)[1..] == t && WellEscaped([COMMA] + t) == WellEscaped(t)
  {
    assert ([COMMA] + t)[1..] == t;
  }

  lemma {:induction false} FieldsComeBack(e: Entry, es: seq<Entry>, values: bool)
    requires IsText(e) && AreTexts(es) && Visible([e] + es, values)
    ensures var s := Field(e, values) + MoreFields(es, values);
      WellEscaped(s) && Unmarshal(s) == [Seen(e, values)] + SeenAll(es, values)
    decreases |es|
  {
    hide Field, WellEscaped, FieldEnd, Cooked, EntryOf, Unmarshal, Seen, IsText, Visible;
    var f, rest := Field(e, values), MoreFields(es, values);
    VisibleParts(e, es, values);
    FieldIsVisible(e, values);
    if es == [] {
      NothingLeft(values);
    } else {
      var t := Field(es[0], values) + MoreFields(es[1..], values);
      FieldsComeBack(es[0], es[1..], values);
      CommaIsPlain(t);
      SeenInFront(es, values);
    }
    FieldDecodes(e, values, rest);
    UnmarshalUnfolds(f, rest);
    SeenUnfolds(e, values);
  }

  lemma SeenUnfolds(e: Entry, values: bool)
    ensures Seen(e, values) == if values then e else e.(val := [])
  {
  }

  lemma NothingLeft(values: bool)
    ensures WellEscaped([]) && Unmarshal([]) == [] && Marshal([], values) == []
  {
  }

  lemma VisibleParts(e: Entry, es: seq<Entry>, values: bool)
    requires Visible([e] + es, values)
    ensures values || e.key != []
    ensures es != [] ==> Visible([es[0]] + es[1..], values)
  {
    if es != [] {
      HeadAndTail(es);
    }
    var all := [e] + es;
    assert all[0] == e && forall i | 0 <= i < |es| :: all[i + 1] == es[i];
  }

  /** What is read back from the text of a list of fields that are all visible. */
  lemma MarshalledComesBack(es: seq<Entry>, values: bool)
    requires AreTexts(es) && Visible(es, values)
    ensures WellEscaped(Marshal(es, values)) && Unmarshal(Marshal(es, values)) == SeenAll(es, values)
  {
    hide *;
    NothingLeft(values);
    if es == [] {
      NothingSeen(values);
    } else {
      HeadAndTail(es);
      TextsInTail(es);
      MarshalFromTheFront(es, values);
      FieldsComeBack(es[0], es[1..], values);
      SeenInFront(es, values);
    }
  }

  lemma HeadAndTail<T>(s: seq<T>)
    requires s != []
    ensures [s[0]] + s[1..] == s
  {
  }

  lemma NothingSeen(values: bool)
    ensures SeenAll([], values) == []
  {
  }

  lemma SeenInFront(es: seq<Entry>, values: bool)
    requires es != []
    ensures SeenAll(es, values) == [Seen(es[0], values)] + SeenAll(es[1..], values)
  {
    hide Seen;
  }

  lemma TextsInTail(es: seq<Entry>)
    requires es != [] && AreTexts(es)
    ensures IsText(es[0]) && AreTexts(es[1..])
  {
    hide IsText;
  }

  /** Without values a leading empty key writes nothing at all. */
  lemma {:induction false} LeadingEmptyKeyIsLost(es: seq<Entry>)
    requires es != [] && es[0].key == []
    ensures Marshal(es, false) == Marshal(es[1..], false)
  {
    hide *;
    var n := |es| - 1;
    MarshalUnfolds(es, false);
    NothingLeft(false);
    if n == 0 {
      assert es[..n] == [] && es[1..] == [];
      EmptyField(es[0]);
    } else {
      LeadingEmptyKeyIsLost(es[..n]);
      MarshalUnfolds(es[1..], false);
      SliceOfSuffix(es, 1, n - 1);
      assert es[..n][1..] == es[1..n];
    }
  }

  lemma MarshalUnfolds(es: seq<Entry>, values: bool)
    requires es != []
    ensures Marshal(es, values) == Separated(Marshal(es[..|es| - 1], values)) + Field(es[|es| - 1], values)
  {
    hide Separated, Field;
  }

  lemma EmptyField(e: Entry)
    requires e.key == []
    ensures Separated([]) + Field(e, false) == []
  {
  }

  // ---------------------------------------------------------------- dynamic port forwardings

  /** The first `c` of `s`, if there is one, replaced by `d`. */
  function Swap(s: seq<byte>, c: byte, d: byte): seq<byte> {
    var k := Index(s, c);
    if k < |s| then s[k := d] else s
  }

  /** The form an entry is saved in: a dynamic forwarding has its 'L' made a 'D' and no value. */
  function Stored(e: Entry, portfwd: bool): Entry {
    if portfwd && e.val == [CAP_D] then Entry(Swap(e.key, CAP_L, CAP_D), []) else e
  }

  /** The form an entry is taken up in: a key with a 'D' is a dynamic forwarding. */
  function Restored(e: Entry, portfwd: bool): Entry {
    if portfwd && CAP_D in e.key then Entry(Swap(e.key, CAP_D, CAP_L), [CAP_D]) else e
  }

  /** An entry that survives: a dynamic forwarding has an 'L' and no 'D' before it, and the key
      of any other holds no 'D'. */
  predicate Survives(e: Entry) {
    if e.val == [CAP_D] then CAP_L in e.key && CAP_D !in e.key[..Index(e.key, CAP_L)]
    else CAP_D !in e.key
  }

  lemma IndexIn(s: seq<byte>, c: byte)
    ensures c in s <==> Index(s, c) < |s|
  {
    var k := Index(s, c);
    assert k == |s| ==> s[..k] == s;
  }

  lemma SwapBack(s: seq<byte>)
    requires CAP_L in s && CAP_D !in s[..Index(s, CAP_L)]
    ensures CAP_D in Swap(s, CAP_L, CAP_D) && Swap(Swap(s, CAP_L, CAP_D), CAP_D, CAP_L) == s
  {
    var k := Index(s, CAP_L);
    IndexIn(s, CAP_L);
    var t := s[k := CAP_D];
    assert t[..k] == s[..k] && t[k] == CAP_D;
    IndexIsUnique(t, CAP_D, k);
    assert t[k := CAP_L] == s;
  }

  /** Turning the first 'D' into an 'L' never moves the first 'L' back, and gives a key that
      survives when it does not move it forward. */
  lemma FirstLAfterSwap(k: seq<byte>)
    requires CAP_D in k
    ensures var u := Swap(k, CAP_D, CAP_L);
      |u| == |k| && CAP_L in u &&
      if Index(k, CAP_L) < Index(k, CAP_D) then CAP_D !in u[..Index(u, CAP_L)]
      else Index(u, CAP_L) < Index(k, CAP_L)
  {
    hide Index;
    var d, l := Index(k, CAP_D), Index(k, CAP_L);
    IndexIn(k, CAP_D);
    var u := k[d := CAP_L];
    assert u[d] == CAP_L;
    if l < d {
      assert u[..l] == k[..l] && u[l] == CAP_L && k[..l] == k[..d][..l];
      IndexIsUnique(u, CAP_L, l);
    } else {
      IndexIsFirst(u, CAP_L, d);
    }
  }

  /** An entry that does not survive is lost under its own key, or made into one that does
      survive, or its first 'L' has moved towards the front. */
  lemma StrayMovesForward(e: Entry)
    requires !Survives(e)
    ensures var r := Restored(Stored(e, true), true);
      || (r.key == e.key && r.val != e.val)
      || Survives(r)
      || (|r.key| == |e.key| && Index(r.key, CAP_L) < Index(e.key, CAP_L))
  {
    hide Index;
    IndexIn(e.key, CAP_L);
    IndexIn(e.key, CAP_D);
    if e.val == [CAP_D] && CAP_L in e.key {
      DBeforeL(e.key);
    } else if CAP_D in e.key {
      FirstLAfterSwap(e.key);
    }
  }

  lemma DBeforeL(k: seq<byte>)
    requires CAP_L in k && CAP_D in k[..Index(k, CAP_L)]
    ensures var u := Swap(Swap(k, CAP_L, CAP_D), CAP_D, CAP_L);
      CAP_D in Swap(k, CAP_L, CAP_D) && |u| == |k| && Index(u, CAP_L) < Index(k, CAP_L)
  {
    hide Index;
    var l := Index(k, CAP_L);
    IndexIn(k, CAP_L);
    var t := k[l := CAP_D];
    assert t[l] == CAP_D;
    var x :| 0 <= x < l && k[..l][x] == CAP_D;
    assert t[x] == CAP_D;
    IndexIsFirst(t, CAP_D, x);
    IndexIn(t, CAP_D);
    var d := Index(t, CAP_D);
    assert t[d := CAP_L][d] == CAP_L;
    IndexIsFirst(t[d := CAP_L], CAP_L, d);
  }

  lemma SurvivesExactly(e: Entry)
    ensures Restored(Stored(e, true), true) == e <==> Survives(e)
  {
    hide Index;
    IndexIn(e.key, CAP_L);
    IndexIn(e.key, CAP_D);
    if Survives(e) && e.val == [CAP_D] {
      SwapBack(e.key);
    } else if !Survives(e) {
      StrayMovesForward(e);
    }
  }

  function StoredAll(es: seq<Entry>, portfwd: bool): (r: seq<Entry>)
    ensures |r| == |es| && forall i | 0 <= i < |es| :: r[i] == Stored(es[i], portfwd)
  {
    seq(|es|, i requires 0 <= i < |es| => Stored(es[i], portfwd))
  }

  function RestoredAll(es: seq<Entry>, portfwd: bool): (r: seq<Entry>)
    ensures |r| == |es| && forall i | 0 <= i < |es| :: r[i] == Restored(es[i], portfwd)
  {
    seq(|es|, i requires 0 <= i < |es| => Restored(es[i], portfwd))
  }

  /** The text a map is saved as, and the map taken up from a text. */
  function Saved(es: seq<Entry>, portfwd: bool, values: bool): seq<byte> {
    Marshal(StoredAll(es, portfwd), values)
  }

  function Loaded(s: seq<byte>, portfwd: bool): Conf {
    ConfOf(RestoredAll(Unmarshal(s), portfwd))
  }

  lemma {:induction false} ConfHolds(es: seq<Entry>, k: seq<byte>) returns (i: nat)
    requires k in ConfOf(es)
    ensures i < |es| && es[i] == Entry(k, ConfOf(es)[k])
  {
    var n := |es| - 1;
    if es[n].key == k {
      i := n;
    } else {
      i := ConfHolds(es[..n], k);
    }
  }

  lemma {:induction false} ConfHoldsListed(es: seq<Entry>, i: nat)
    requires Listing(es) && i < |es|
    ensures es[i].key in ConfOf(es) && ConfOf(es)[es[i].key] == es[i].val
  {
    var n := |es| - 1;
    if i < n {
      ConfHoldsListed(es[..n], i);
    }
  }

  lemma StrayHasSource(es: seq<Entry>, i: nat) returns (j: nat)
    requires Listing(es) && i < |es| && ConfOf(RestoredAll(StoredAll(es, true), true)) == ConfOf(es)
    requires !Survives(es[i])
    ensures j < |es| && !Survives(es[j]) && |es[j].key| == |es[i].key|
    ensures Index(es[j].key, CAP_L) > Index(es[i].key, CAP_L)
  {
    hide Survives, Restored, Stored, ConfOf, Index;
    var rs := RestoredAll(StoredAll(es, true), true);
    ConfHoldsListed(es, i);
    j := ConfHolds(rs, es[i].key);
    assert rs[j] == Restored(Stored(es[j], true), true) == es[i];
    SurvivesExactly(es[j]);
    StrayMovesForward(es[j]);
  }

  /** If all entries came back, none that does not survive can have been there: it must have
      come from another such entry, with its 'L' further back, and so on without end. */
  lemma {:induction false} NoStray(es: seq<Entry>, i: nat)
    requires Listing(es) && i < |es| && ConfOf(RestoredAll(StoredAll(es, true), true)) == ConfOf(es)
    ensures Survives(es[i])
    decreases if i < |es| then |es[i].key| - Index(es[i].key, CAP_L) else 0
  {
    hide Survives, ConfOf, Index;
    if !Survives(es[i]) {
      var j := StrayHasSource(es, i);
      NoStray(es, j);
    }
  }

  lemma StoredIsText(e: Entry, portfwd: bool)
    requires IsText(e)
    ensures IsText(Stored(e, portfwd))
  {
    var k := Index(e.key, CAP_L);
    assert k < |e.key| ==> forall i | 0 <= i < |e.key| :: e.key[k := CAP_D][i] == e.key[i] || i == k;
  }

  /** Saving a map with its values and loading it gives it back; for port forwardings, exactly
      when every entry survives. */
  lemma SavedMapLoads(es: seq<Entry>, portfwd: bool)
    requires Listing(es)
    ensures WellEscaped(Saved(es, portfwd, true))
    ensures Loaded(Saved(es, portfwd, true), portfwd) == ConfOf(es)
      <==> !portfwd || forall i | 0 <= i < |es| :: Survives(es[i])
  {
    hide Survives, Restored, Stored, ConfOf, IsText, Marshal, Unmarshal, WellEscaped;
    var ss := StoredAll(es, portfwd);
    forall i | 0 <= i < |es|
      ensures IsText(ss[i])
    {
      StoredIsText(es[i], portfwd);
    }
    MarshalledComesBack(ss, true);
    SeenWithValues(ss);
    if portfwd {
      if forall i | 0 <= i < |es| :: Survives(es[i]) {
        forall i | 0 <= i < |es|
          ensures Restored(Stored(es[i], true), true) == es[i]
        {
          SurvivesExactly(es[i]);
        }
        assert RestoredAll(ss, true) == es;
      } else if Loaded(Saved(es, portfwd, true), portfwd) == ConfOf(es) {
        forall i | 0 <= i < |es|
          ensures Survives(es[i])
        {
          NoStray(es, i);
        }
      }
    } else {
      NothingTranslated(es);
    }
  }

  lemma SeenWithValues(es: seq<Entry>)
    ensures SeenAll(es, true) == es
  {
  }

  lemma NothingTranslated(es: seq<Entry>)
    ensures StoredAll(es, false) == es && RestoredAll(es, false) == es
  {
  }

  /** A map saved without its values: all keys come back, each with an empty value, except an
      empty key, which is lost. Configurations list their keys in order, so it is the first. */
  lemma SavedKeysLoad(es: seq<Entry>)
    requires Listing(es) && forall i | 0 < i < |es| :: es[i].key != []
    ensures WellEscaped(Saved(es, false, false))
    ensures Loaded(Saved(es, false, false), false)
      == ConfOf(SeenAll(if es != [] && es[0].key == [] then es[1..] else es, false))
  {
    hide ConfOf, Marshal, Unmarshal, WellEscaped, Seen;
    NothingTranslated(es);
    var vs := es;
    if es != [] && es[0].key == [] {
      LeadingEmptyKeyIsLost(es);
      vs := es[1..];
    }
    MarshalledComesBack(vs, false);
    NothingTranslated(SeenAll(vs, false));
  }

  lemma KeysSurviveExactly(es: seq<Entry>)
    requires Listing(es) && forall i | 0 < i < |es| :: es[i].key != []
    ensures WellEscaped(Saved(es, false, false))
    ensures Loaded(Saved(es, false, false), false).Keys == ConfOf(es).Keys
      <==> (es != [] ==> es[0].key != [])
  {
    hide ConfOf, Marshal, Unmarshal, WellEscaped, Loaded, Saved;
    SavedKeysLoad(es);
    if es != [] && es[0].key == [] {
      ConfHoldsListed(es, 0);
      NoEmptyKey(SeenAll(es[1..], false));
    } else {
      SeenKeys(es);
    }
  }

  lemma NoEmptyKey(es: seq<Entry>)
    requires forall i | 0 <= i < |es| :: es[i].key != []
    ensures [] !in ConfOf(es)
  {
    if [] in ConfOf(es) {
      var i := ConfHolds(es, []);
    }
  }

  lemma {:induction false} SeenKeys(es: seq<Entry>)
    ensures ConfOf(SeenAll(es, false)).Keys == ConfOf(es).Keys
  {
    if es != [] {
      var n := |es| - 1;
      SeenKeys(es[..n]);
      assert SeenAll(es, false)[..n] == SeenAll(es[..n], false);
    }
  }

  // ---------------------------------------------------------------- writing the text of a map

  lemma {:induction false} EscapeFits(s: seq<byte>)
    ensures |Escape(s)| <= 2 * |s|
  {
    if s != [] {
      EscapeFits(s[1..]);
    }
  }

  lemma EscapeStep(s: seq<byte>, i: nat, done: seq<byte>)
    requires i < |s| && Escape(s) == done + Escape(s[i..])
    ensures Escape(s) == (done + EscapedByte(s[i])) + Escape(s[i + 1..])
  {
    hide *;
    EscapeUnfolds(s[i..]);
    assert s[i..][1..] == s[i + 1..];
    CatAssoc(done, EscapedByte(s[i]), Escape(s[i + 1..]));
  }

  method PutByte(buf: array<byte>, p: nat, c: byte, ghost out: seq<byte>)
    requires p < buf.Length && buf[..p] == out
    modifies buf
    ensures buf[..p + 1] == out + [c]
    ensures forall i | p < i < buf.Length :: buf[i] == old(buf[i])
  {
    buf[p] := c;
    assert buf[..p + 1] == buf[..p] + [c];
  }

  /** Writes the escaped `s` behind `out`. */
  method PutEscaped(buf: array<byte>, from: nat, s: seq<byte>, ghost out: seq<byte>) returns (p: nat)
    requires from + 2 * |s| <= buf.Length && buf[..from] == out
    modifies buf
    ensures p == from + |Escape(s)| <= buf.Length && buf[..p] == out + Escape(s)
  {
    hide Escape, Special;
    ghost var done: seq<byte> := [];
    var i := 0;
    p := from;
    assert s[0..] == s;
    CatEmpty(Escape(s));
    CatEmpty(out);
    while i < |s|
      invariant i <= |s| && p == from + |done| && |done| <= 2 * i
      invariant Escape(s) == done + Escape(s[i..]) && buf[..p] == out + done
    {
      EscapeStep(s, i, done);
      CatAssoc(out, done, EscapedByte(s[i]));
      ghost var was := out + done;
      if Special(s[i]) {
        PutByte(buf, p, BACKSLASH, was);
        PutByte(buf, p + 1, s[i], was + [BACKSLASH]);
        p := p + 2;
        CatAssoc(was, [BACKSLASH], [s[i]]);
      } else {
        PutByte(buf, p, s[i], was);
        p := p + 1;
      }
      done := done + EscapedByte(s[i]);
      i := i + 1;
    }
    EscapeUnfolds(s[i..]);
    CatEmpty(done);
  }

  /** The room the writer reckons with before it starts. */
  function Room(es: seq<Entry>): nat {
    if es == [] then 1 else Room(es[..|es| - 1]) + 2 + 2 * (|es[|es| - 1].key| + |es[|es| - 1].val|)
  }

  lemma {:induction false} RoomGrows(es: seq<Entry>, i: nat)
    requires i <= |es|
    ensures Room(es[..i]) <= Room(es)
  {
    if i == |es| {
      assert es[..i] == es;
    } else {
      RoomGrows(es[..|es| - 1], i);
      assert es[..|es| - 1][..i] == es[..i];
    }
  }

  lemma MarshalOneMore(es: seq<Entry>, i: nat, values: bool)
    requires i < |es|
    ensures Marshal(es[..i + 1], values) == Separated(Marshal(es[..i], values)) + Field(es[i], values)
    ensures Room(es[..i + 1]) == Room(es[..i]) + 2 + 2 * (|es[i].key| + |es[i].val|)
  {
    hide Separated, Field;
    assert es[..i + 1][..i] == es[..i];
  }

  /** Stored entries have keys of the same length and values no longer. */
  lemma StoredFits(e: Entry, portfwd: bool)
    ensures |Stored(e, portfwd).key| == |e.key| && |Stored(e, portfwd).val| <= |e.val|
  {
  }

  /** Writes one field behind `out`. */
  method PutField(buf: array<byte>, from: nat, e: Entry, values: bool, ghost out: seq<byte>) returns (p: nat)
    requires from + 2 * |e.key| + 1 + 2 * |e.val| <= buf.Length && buf[..from] == out
    modifies buf
    ensures p == from + |Field(e, values)| <= from + 2 * |e.key| + 1 + 2 * |e.val|
    ensures buf[..p] == out + Field(e, values)
  {
    hide Escape;
    EscapeFits(e.key);
    EscapeFits(e.val);
    p := PutEscaped(buf, from, e.key, out);
    if values {
      ghost var was := out + Escape(e.key);
      PutByte(buf, p, EQUALS, was);
      p := PutEscaped(buf, p + 1, e.val, was + [EQUALS]);
      CatAssoc(was, [EQUALS], Escape(e.val));
      CatAssoc(out, Escape(e.key), [EQUALS] + Escape(e.val));
    } else {
      CatEmpty(Escape(e.key));
    }
  }

  method RoomFor(es: seq<Entry>) returns (len: nat)
    ensures len == Room(es)
  {
    len := 1;
    for i := 0 to |es|
      invariant len == Room(es[..i])
    {
      MarshalOneMore(es, i, true);
      len := len + 2 + 2 * (|es[i].key| + |es[i].val|);
    }
    assert es[..|es|] == es;
  }

  /** The text of a map, in a buffer of the size reckoned beforehand. */
  method WmapForced(es: seq<Entry>, portfwd: bool, values: bool) returns (buf: array<byte>, p: nat)
    requires AreTexts(es)
    ensures fresh(buf) && p < buf.Length && buf[p] == NUL && buf[..p] == Saved(es, portfwd, values)
  {
    hide Marshal, Field, Stored, Room, IsText;
    var len := RoomFor(es);
    MarshalOfNothing(values);
    RoomGrows(es, 0);
    buf, p := new byte[len](_ => NUL), 0;
    ghost var ss := StoredAll(es, portfwd);
    for i := 0 to |es|
      invariant p < Room(es[..i]) && p < buf.Length && buf[..p] == Marshal(ss[..i], values)
    {
      MarshalOneMore(ss, i, values);
      MarshalOneMore(es, i, values);
      RoomGrows(es, i + 1);
      StoredFits(es[i], portfwd);
      ghost var out := Marshal(ss[..i], values);
      if p != 0 {
        PutByte(buf, p, COMMA, out);
        p := p + 1;
      }
      p := PutField(buf, p, Stored(es[i], portfwd), values, Separated(out));
    }
    assert ss[..|es|] == ss && es[..|es|] == es;
    ghost var was := buf[..p];
    buf[p] := NUL;
    assert buf[..p] == was;
  }

  lemma MarshalOfNothing(values: bool)
    ensures Marshal([], values) == [] && Room([]) == 1
  {
  }

  // ---------------------------------------------------------------- reading it in place

  lemma CookStep(s: seq<byte>, p: nat)
    requires p < |s| && s[p] != COMMA
    ensures s[p] == BACKSLASH && p + 1 == |s| ==> OpenField(s[p..])
    ensures !(s[p] == BACKSLASH && p + 1 == |s|) ==>
      var n := if s[p] == BACKSLASH then 2 else 1;
      && p + n <= |s| && OpenField(s[p..]) == OpenField(s[p + n..])
      && FieldEnd(s[p..]) == n + FieldEnd(s[p + n..])
      && Cooked(s[p..]) == [if s[p] == EQUALS then NUL else s[p + n - 1]] + Cooked(s[p + n..])
  {
    var t := s[p..];
    assert t[1..] == s[p + 1..];
    assert |t| > 1 ==> t[2..] == s[p + 2..];
  }

  lemma LastNulStep(d: seq<byte>, c: byte)
    ensures AfterLastNul(d + [c]) == if c == NUL then |d| + 1 else AfterLastNul(d)
  {
    assert (d + [c])[..|d|] == d;
  }

  /** What is still to be read: `s` from `p` on, with its terminator. */
  predicate Unread(buf: array<byte>, s: seq<byte>, p: nat)
    reads buf
  {
    && p <= |s| < buf.Length && buf[|s|] == NUL
    && forall i | p <= i < |s| :: buf[i] == s[i] && s[i] != NUL
  }

  /** Decodes one field to the front of the buffer it is read from. It stops at `p1`, has written
      `q` bytes, and `val` is where the value begins, or 0. What is written never reaches what is
      still to be read. It is left when an escape is unfinished, which makes the source read on
      behind the terminator; `inside` says that it does not. */
  method CookField(buf: array<byte>, p: nat, ghost s: seq<byte>) returns (inside: bool, p1: nat, q: nat, val: nat)
    requires Unread(buf, s, p)
    modifies buf
    ensures inside <==> !OpenField(s[p..])
    ensures inside ==> p1 == p + FieldEnd(s[p..]) && q <= p1 && Unread(buf, s, p1)
    ensures inside ==> buf[..q] == Cooked(s[p..]) && val == AfterLastNul(Cooked(s[p..]))
  {
    hide OpenField, FieldEnd, Cooked, AfterLastNul;
    p1, q, val := p, 0, 0;
    ghost var done: seq<byte> := [];
    CatEmpty(Cooked(s[p..]));
    NoNul();
    while buf[p1] != NUL && buf[p1] != COMMA
      invariant Unread(buf, s, p1) && OpenField(s[p..]) == OpenField(s[p1..]) && q <= p1
      invariant FieldEnd(s[p..]) == p1 - p + FieldEnd(s[p1..])
      invariant Cooked(s[p..]) == done + Cooked(s[p1..])
      invariant buf[..q] == done && val == AfterLastNul(done)
      decreases |s| - p1
    {
      CookStep(s, p1);
      var c := buf[p1];
      p1 := p1 + 1;
      if c == EQUALS {
        c := NUL;
      }
      if c == BACKSLASH {
        c := buf[p1];
        if c == NUL {
          return false, p1, q, val;
        }
        p1 := p1 + 1;
      }
      LastNulStep(done, c);
      CatAssoc(done, [c], Cooked(s[p1..]));
      PutByte(buf, q, c, done);
      done := done + [c];
      q := q + 1;
      if c == NUL {
        val := q;
      }
    }
    FieldIsOver(s, p1);
    CatEmpty(done);
    inside := true;
  }

  lemma NoNul()
    ensures AfterLastNul([]) == 0
  {
  }

  lemma FieldIsOver(s: seq<byte>, p: nat)
    requires p <= |s| && (p < |s| ==> s[p] == COMMA)
    ensures FieldEnd(s[p..]) == 0 && Cooked(s[p..]) == [] && !OpenField(s[p..])
  {
  }

  /** The key that stands at the front of the buffer and the value behind it. */
  method TakeEntry(buf: array<byte>, q: nat, val: nat, ghost d: seq<byte>) returns (e: Entry)
    requires q < buf.Length && buf[..q] == d && buf[q] == NUL && val == AfterLastNul(d)
    ensures e == EntryOf(d)
  {
    hide Index, AfterLastNul;
    ghost var k := Index(d, NUL);
    assert forall i | 0 <= i < |d| :: buf[i] == d[i];
    assert forall i | 0 <= i < k :: d[..k][i] == d[i];
    assert HoldsAt(buf, 0, d[..k]);
    var key := TextOf(buf, 0, d[..k]);
    var at := if val == 0 then q else val;
    ghost var v := d[at..];
    assert forall i | 0 <= i < |v| :: v[i] == d[at + i] && v[i] in d[AfterLastNul(d)..];
    assert HoldsAt(buf, at, v);
    var value := TextOf(buf, at, v);
    e := Entry(key, value);
  }

  /** Where the field behind the one at `p` begins. */
  function NextAt(s: seq<byte>, p: nat): (n: nat)
    requires p <= |s|
    ensures n <= |s|
  {
    var n := p + FieldEnd(s[p..]);
    if n < |s| then n + 1 else |s|
  }

  lemma NextIsNextField(s: seq<byte>, p: nat)
    requires p <= |s|
    ensures s[NextAt(s, p)..] == NextField(s[p..])
  {
    hide FieldEnd;
    var n := FieldEnd(s[p..]);
    if p + n < |s| {
      SliceOfSuffix(s, p, n + 1);
    }
  }

  lemma UnmarshalStep(s: seq<byte>, p: nat)
    requires p < |s|
    ensures WellEscaped(s[p..]) <==> !OpenField(s[p..]) && WellEscaped(s[NextAt(s, p)..])
    ensures Unmarshal(s[p..]) == [EntryOf(Cooked(s[p..]))] + Unmarshal(s[NextAt(s, p)..])
  {
    hide WellEscaped, OpenField, FieldEnd, Cooked, EntryOf, NextField, NextAt;
    NextIsNextField(s, p);
    NextFieldIsWellEscaped(s[p..]);
  }

  lemma ConfOneMore(es: seq<Entry>, e: Entry)
    ensures ConfOf(es + [e]) == ConfOf(es)[e.key := e.val]
  {
    assert (es + [e])[..|es|] == es;
  }

  lemma RestoredOneMore(es: seq<Entry>, e: Entry, portfwd: bool)
    ensures RestoredAll(es + [e], portfwd) == RestoredAll(es, portfwd) + [Restored(e, portfwd)]
  {
  }

  /** Takes a map up from the text `s` in `buf`, which is used up as it is read; `inside` says
      that nothing behind its terminator is read. */
  method GppmapForced(buf: array<byte>, portfwd: bool, ghost s: seq<byte>) returns (inside: bool, conf: Conf)
    requires HoldsAt(buf, 0, s)
    modifies buf
    ensures inside <==> WellEscaped(s)
    ensures inside ==> conf == Loaded(s, portfwd)
  {
    hide WellEscaped, OpenField, FieldEnd, Cooked, EntryOf, Unmarshal, ConfOf, Restored, AfterLastNul, RestoredAll;
    conf := map[];
    var p := 0;
    ghost var es: seq<Entry> := [];
    NothingTaken(portfwd);
    assert s[0..] == s;
    CatEmpty(Unmarshal(s));
    while buf[p] != NUL
      invariant Unread(buf, s, p) && (WellEscaped(s) <==> WellEscaped(s[p..]))
      invariant Unmarshal(s) == es + Unmarshal(s[p..]) && conf == ConfOf(RestoredAll(es, portfwd))
      decreases |s| - p
    {
      UnmarshalStep(s, p);
      ghost var d := Cooked(s[p..]);
      var q, val;
      inside, p, q, val := CookField(buf, p, s);
      if !inside {
        return;
      }
      if buf[p] == COMMA {
        p := p + 1;
      }
      buf[q] := NUL;
      var e := TakeEntry(buf, q, val, d);
      CatAssoc(es, [e], Unmarshal(s[p..]));
      RestoredOneMore(es, e, portfwd);
      ConfOneMore(RestoredAll(es, portfwd), Restored(e, portfwd));
      es := es + [e];
      e := Restored(e, portfwd);
      conf := conf[e.key := e.val];
    }
    NothingToTake(s, p);
    CatEmpty(es);
    inside := true;
  }

  lemma NothingTaken(portfwd: bool)
    ensures ConfOf(RestoredAll([], portfwd)) == map[]
  {
  }

  lemma NothingToTake(s: seq<byte>, p: nat)
    requires p == |s|
    ensures WellEscaped(s[p..]) && Unmarshal(s[p..]) == []
  {
  }
}
