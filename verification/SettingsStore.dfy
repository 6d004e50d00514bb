/** The doubly linked list of settings and its file form (kitty_store.c). */
module SettingsStore {
  import opened CText
  import Munging
  import opened SettingsFile
  import opened Wrappers

  datatype Setting = Setting(name: seq<byte>, value: Option<seq<byte>>)

  /** The settings found from the front of the list, and whether the list is broken: its `last`
      item is then not one of them. */
  datatype State = State(items: seq<Setting>, lost: bool)

  const Empty := State([], false)

  // ---------------------------------------------------------------- the abstract list

  function Without(items: seq<Setting>, key: seq<byte>): seq<Setting> {
    if items == [] then []
    else
      var n := |items| - 1;
      Without(items[..n], key) + if items[n].name == key then [] else [items[n]]
  }

  predicate EndsIn(items: seq<Setting>, key: seq<byte>) {
    items != [] && items[|items| - 1].name == key
  }

  /** Deletion. When it takes out the last item of a broken list, the list is whole again. */
  function Del(s: State, key: seq<byte>): State {
    State(Without(s.items, key), s.lost && !EndsIn(s.items, key))
  }

  /** Addition. The new item hangs on the item that was last before the deletion: it is not found
      from the front when that one has just been deleted. */
  function Add(s: State, e: Setting): State {
    if s.lost || EndsIn(s.items, e.name) then State(Without(s.items, e.name), true)
    else State(Without(s.items, e.name) + [e], false)
  }

  function AddAll(s: State, es: seq<Setting>): State {
    if es == [] then s else Add(AddAll(s, es[..|es| - 1]), es[|es| - 1])
  }

  /** What SettingsAddItem is meant to do. */
  function Put(items: seq<Setting>, e: Setting): seq<Setting> {
    Without(items, e.name) + [e]
  }

  function PutAll(es: seq<Setting>): seq<Setting> {
    if es == [] then [] else Put(PutAll(es[..|es| - 1]), es[|es| - 1])
  }

  function Find(items: seq<Setting>, key: seq<byte>): Option<seq<byte>> {
    if items == [] then None
    else if items[0].name == key then items[0].value
    else Find(items[1..], key)
  }

  function Latest(es: seq<Setting>, key: seq<byte>): Option<seq<byte>> {
    if es == [] then None
    else if es[|es| - 1].name == key then es[|es| - 1].value
    else Latest(es[..|es| - 1], key)
  }

  // ---------------------------------------------------------------- what runs of additions do

  predicate Named(items: seq<Setting>, key: seq<byte>) {
    exists i :: 0 <= i < |items| && items[i].name == key
  }

  predicate Distinct(items: seq<Setting>) {
    forall i, j | 0 <= i < j < |items| :: items[i].name != items[j].name
  }

  /** No name is set twice in direct succession. */
  predicate NoRepeat(es: seq<Setting>) {
    forall i | 0 < i < |es| :: es[i].name != es[i - 1].name
  }

  lemma NamedCat(a: seq<Setting>, b: seq<Setting>, key: seq<byte>)
    ensures Named(a + b, key) <==> Named(a, key) || Named(b, key)
  {
    assert forall i | 0 <= i < |a| :: (a + b)[i] == a[i];
    assert forall i | 0 <= i < |b| :: (a + b)[|a| + i] == b[i];
    assert forall i | |a| <= i < |a + b| :: (a + b)[i] == b[i - |a|];
  }

  lemma NamedOne(e: Setting, key: seq<byte>)
    ensures Named([e], key) <==> e.name == key
    ensures !Named([], key)
  {
    assert [e][0] == e;
  }

  /** A name is kept unless it is the one deleted. */
  lemma {:induction false} WithoutDropsExactly(items: seq<Setting>, key: seq<byte>, k: seq<byte>)
    ensures Named(Without(items, key), k) <==> Named(items, k) && k != key
  {
    hide Named;
    if items == [] {
      NamedOne(Setting([], None), k);
    } else {
      var n := |items| - 1;
      WithoutDropsExactly(items[..n], key, k);
      assert items == items[..n] + [items[n]];
      NamedCat(items[..n], [items[n]], k);
      NamedCat(Without(items[..n], key), [items[n]], k);
      NamedOne(items[n], k);
      CatEmpty(Without(items[..n], key));
    }
  }

  lemma {:induction false} WithoutNothing(items: seq<Setting>, key: seq<byte>)
    requires !Named(items, key)
    ensures Without(items, key) == items
  {
    if items != [] {
      var n := |items| - 1;
      assert items == items[..n] + [items[n]];
      NamedCat(items[..n], [items[n]], key);
      NamedOne(items[n], key);
      WithoutNothing(items[..n], key);
    }
  }

  lemma DistinctOneMore(items: seq<Setting>, e: Setting)
    ensures Distinct(items + [e]) <==> Distinct(items) && !Named(items, e.name)
  {
    var all := items + [e];
    assert all[|items|] == e;
    assert forall i | 0 <= i < |items| :: all[i] == items[i];
    if Distinct(all) {
      assert forall i | 0 <= i < |items| :: all[i].name != all[|items|].name;
    }
  }

  lemma {:induction false} WithoutKeepsDistinct(items: seq<Setting>, key: seq<byte>)
    requires Distinct(items)
    ensures Distinct(Without(items, key))
  {
    if items != [] {
      var n := |items| - 1;
      assert items == items[..n] + [items[n]];
      DistinctOneMore(items[..n], items[n]);
      WithoutKeepsDistinct(items[..n], key);
      WithoutDropsExactly(items[..n], key, items[n].name);
      DistinctOneMore(Without(items[..n], key), items[n]);
      CatEmpty(Without(items[..n], key));
    }
  }

  /** Every list that additions and deletions make has distinct names. */
  lemma NamesStayDistinct(s: State, e: Setting, key: seq<byte>)
    requires Distinct(s.items)
    ensures Distinct(Add(s, e).items) && Distinct(Del(s, key).items)
  {
    WithoutKeepsDistinct(s.items, e.name);
    WithoutKeepsDistinct(s.items, key);
    WithoutDropsExactly(s.items, e.name, e.name);
    DistinctOneMore(Without(s.items, e.name), e);
  }

  lemma {:induction false} LostStaysLost(es: seq<Setting>)
    ensures AddAll(Empty, es).lost <==> !NoRepeat(es)
    ensures !AddAll(Empty, es).lost ==> AddAll(Empty, es).items == PutAll(es)
    ensures es != [] && !AddAll(Empty, es).lost ==>
      AddAll(Empty, es).items != [] && AddAll(Empty, es).items[|AddAll(Empty, es).items| - 1] == es[|es| - 1]
    ensures es == [] ==> AddAll(Empty, es) == Empty
  {
    hide Without;
    if es != [] {
      var n := |es| - 1;
      LostStaysLost(es[..n]);
      assert forall i | 0 <= i < n :: es[..n][i] == es[i];
      assert NoRepeat(es) <==> NoRepeat(es[..n]) && (n > 0 ==> es[n].name != es[n - 1].name);
    }
  }

  /** A run of additions to an empty list is right exactly when no name is set twice in direct
      succession; after such a repetition the list stays broken, and whatever is added then
      cannot be found. */
  lemma AdditionsAreFaithful(es: seq<Setting>)
    ensures AddAll(Empty, es).items == PutAll(es) <==> NoRepeat(es)
    ensures es != [] && !NoRepeat(es) ==> Find(AddAll(Empty, es).items, es[|es| - 1].name) == None
  {
    hide NoRepeat;
    LostStaysLost(es);
    if es != [] && AddAll(Empty, es).lost {
      var n := |es| - 1;
      var s := AddAll(Empty, es[..n]);
      WithoutDropsExactly(s.items, es[n].name, es[n].name);
      NotNamedNotFound(Without(s.items, es[n].name), es[n].name);
      PutIsNamed(PutAll(es[..n]), es[n]);
    }
  }

  lemma PutIsNamed(items: seq<Setting>, e: Setting)
    ensures Named(Put(items, e), e.name)
  {
    NamedCat(Without(items, e.name), [e], e.name);
    NamedOne(e, e.name);
  }

  lemma {:induction false} NotNamedNotFound(items: seq<Setting>, key: seq<byte>)
    requires !Named(items, key)
    ensures Find(items, key) == None
  {
    if items != [] {
      NamedInTail(items, key);
      NotNamedNotFound(items[1..], key);
    }
  }

  lemma NamedInTail(items: seq<Setting>, key: seq<byte>)
    requires items != []
    ensures Named(items, key) <==> items[0].name == key || Named(items[1..], key)
  {
    assert items == [items[0]] + items[1..];
    NamedCat([items[0]], items[1..], key);
    NamedOne(items[0], key);
  }

  lemma {:induction false} FindInFront(items: seq<Setting>, more: seq<Setting>, key: seq<byte>)
    ensures Find(items + more, key) == if Named(items, key) then Find(items, key) else Find(more, key)
  {
    hide Named;
    if items == [] {
      assert items + more == more;
      NamedOne(Setting([], None), key);
    } else {
      assert (items + more)[1..] == items[1..] + more;
      NamedInTail(items, key);
      FindInFront(items[1..], more, key);
    }
  }

  lemma FindOne(e: Setting, key: seq<byte>)
    ensures Find([e], key) == (if e.name == key then e.value else None) && Find([], key) == None
  {
    assert [e][1..] == [];
  }

  lemma {:induction false} FindWithout(items: seq<Setting>, key: seq<byte>, k: seq<byte>)
    ensures Find(Without(items, key), k) == if k == key then None else Find(items, k)
  {
    hide Named, Without, Find;
    if k == key {
      WithoutDropsExactly(items, key, key);
      NotNamedNotFound(Without(items, key), key);
    } else if items == [] {
      NamedOne(Setting([], None), key);
      WithoutNothing([], key);
      FindOne(Setting([], None), k);
    } else {
      var e, front := items[|items| - 1], items[..|items| - 1];
      assert items == front + [e];
      FindWithout(front, key, k);
      WithoutLast(front, e, key);
      FindOne(e, k);
      FindInFront(front, [e], k);
      FindInFront(Without(front, key), [e], k);
      WithoutDropsExactly(front, key, k);
      if !Named(front, k) {
        NotNamedNotFound(front, k);
      }
    }
  }

  /** The last value set under a name is the one found. */
  lemma {:induction false} LatestIsFound(es: seq<Setting>, key: seq<byte>)
    ensures Find(PutAll(es), key) == Latest(es, key)
  {
    hide Named, Without;
    if es != [] {
      var n := |es| - 1;
      var e, was := es[n], PutAll(es[..n]);
      LatestIsFound(es[..n], key);
      FindInFront(Without(was, e.name), [e], key);
      FindWithout(was, e.name, key);
      WithoutDropsExactly(was, e.name, key);
      if !Named(Without(was, e.name), key) {
        NotNamedNotFound(Without(was, e.name), key);
      }
    }
  }

  lemma AddedIsFound(es: seq<Setting>, key: seq<byte>)
    requires NoRepeat(es)
    ensures Find(AddAll(Empty, es).items, key) == Latest(es, key)
  {
    AdditionsAreFaithful(es);
    LatestIsFound(es, key);
  }

  // ---------------------------------------------------------------- runs with deletions

  datatype Op = AddItem(e: Setting) | DelItem(key: seq<byte>)

  /** What a run has come to: the list, the list as it is meant to be, and the names whose last
      addition went to a broken list and that have not been deleted since. */
  datatype Outcome = Outcome(list: State, goal: seq<Setting>, hidden: set<seq<byte>>)

  function Next(o: Outcome, op: Op): Outcome {
    match op
    case AddItem(e) =>
      Outcome(Add(o.list, e), Put(o.goal, e),
              if o.list.lost || EndsIn(o.list.items, e.name) then o.hidden + {e.name} else o.hidden - {e.name})
    case DelItem(key) => Outcome(Del(o.list, key), Without(o.goal, key), o.hidden - {key})
  }

  function Play(ops: seq<Op>): Outcome {
    if ops == [] then Outcome(Empty, [], {}) else Next(Play(ops[..|ops| - 1]), ops[|ops| - 1])
  }

  function Visible(items: seq<Setting>, hidden: set<seq<byte>>): seq<Setting> {
    if items == [] then []
    else
      var n := |items| - 1;
      Visible(items[..n], hidden) + if items[n].name in hidden then [] else [items[n]]
  }

  lemma VisibleOneMore(items: seq<Setting>, hidden: set<seq<byte>>, e: Setting)
    ensures Visible(items + [e], hidden) ==
            if e.name in hidden then Visible(items, hidden) else Visible(items, hidden) + [e]
  {
    assert (items + [e])[..|items|] == items;
    CatEmpty(Visible(items, hidden));
  }

  lemma {:induction false} VisibleIfNoneHidden(items: seq<Setting>)
    ensures Visible(items, {}) == items
  {
    if items != [] {
      var n := |items| - 1;
      VisibleIfNoneHidden(items[..n]);
      assert items == items[..n] + [items[n]];
    }
  }

  lemma {:induction false} HiddenIsNotVisible(items: seq<Setting>, hidden: set<seq<byte>>, key: seq<byte>)
    requires key in hidden
    ensures !Named(Visible(items, hidden), key)
  {
    hide Named;
    NamedOne(Setting([], None), key);
    if items != [] {
      var n := |items| - 1;
      HiddenIsNotVisible(items[..n], hidden, key);
      CatEmpty(Visible(items[..n], hidden));
      NamedCat(Visible(items[..n], hidden), [items[n]], key);
      NamedOne(items[n], key);
    }
  }

  /** Deleting a name from what is meant and from what is visible; whether it was hidden or is to
      be makes no difference. */
  lemma {:induction false} VisibleWithout(items: seq<Setting>, hidden: set<seq<byte>>, after: set<seq<byte>>,
                                          key: seq<byte>)
    requires hidden - {key} == after - {key}
    ensures Visible(Without(items, key), after) == Without(Visible(items, hidden), key)
  {
    hide Visible, Without;
    if items == [] {
      NothingVisible(hidden, after, key);
    } else {
      var n := |items| - 1;
      var e, front := items[n], items[..n];
      assert items == front + [e];
      VisibleWithout(front, hidden, after, key);
      WithoutLast(front, e, key);
      VisibleOneMore(front, hidden, e);
      VisibleOneMore(Without(front, key), after, e);
      WithoutLast(Visible(front, hidden), e, key);
      HiddenAlike(hidden, after, key, e.name);
    }
  }

  lemma NothingVisible(hidden: set<seq<byte>>, after: set<seq<byte>>, key: seq<byte>)
    ensures Visible(Without([], key), after) == [] && Without(Visible([], hidden), key) == []
  {
  }

  lemma HiddenAlike(hidden: set<seq<byte>>, after: set<seq<byte>>, key: seq<byte>, name: seq<byte>)
    requires hidden - {key} == after - {key}
    ensures name != key ==> (name in hidden <==> name in after)
  {
    if name != key {
      assert name in hidden <==> name in hidden - {key};
      assert name in after <==> name in after - {key};
    }
  }

  lemma WithoutLast(items: seq<Setting>, e: Setting, key: seq<byte>)
    ensures Without(items + [e], key) == if e.name == key then Without(items, key) else Without(items, key) + [e]
  {
    assert (items + [e])[..|items|] == items;
    CatEmpty(Without(items, key));
  }

  lemma NextKeepsVisible(o: Outcome, op: Op)
    requires o.list.items == Visible(o.goal, o.hidden) && forall k | k in o.hidden :: Named(o.goal, k)
    ensures var p := Next(o, op);
      p.list.items == Visible(p.goal, p.hidden) && forall k | k in p.hidden :: Named(p.goal, k)
  {
    hide Visible, Without, Named, EndsIn;
    var p := Next(o, op);
    var key := if op.AddItem? then op.e.name else op.key;
    VisibleWithout(o.goal, o.hidden, p.hidden, key);
    forall k | k in p.hidden
      ensures Named(p.goal, k)
    {
      WithoutDropsExactly(o.goal, key, k);
      if op.AddItem? {
        NamedCat(Without(o.goal, key), [op.e], k);
        NamedOne(op.e, k);
      }
    }
    if op.AddItem? {
      VisibleOneMore(Without(o.goal, key), p.hidden, op.e);
    }
  }

  lemma {:induction false} ListIsWhatIsVisible(ops: seq<Op>)
    ensures var o := Play(ops);
      o.list.items == Visible(o.goal, o.hidden) && forall k | k in o.hidden :: Named(o.goal, k)
  {
    hide Next, Named;
    if ops != [] {
      ListIsWhatIsVisible(ops[..|ops| - 1]);
      NextKeepsVisible(Play(ops[..|ops| - 1]), ops[|ops| - 1]);
    }
  }

  /** After any run of additions and deletions the list is what it is meant to be if and only if
      no name is hidden. What is missing from it is exactly the items of the hidden names. */
  lemma RunIsFaithfulExactly(ops: seq<Op>)
    ensures var o := Play(ops); o.list.items == o.goal <==> o.hidden == {}
  {
    hide Play, Visible, Named;
    var o := Play(ops);
    ListIsWhatIsVisible(ops);
    VisibleIfNoneHidden(o.goal);
    if o.hidden != {} {
      var k :| k in o.hidden;
      HiddenIsNotVisible(o.goal, o.hidden, k);
    }
  }

  // ---------------------------------------------------------------- the file

  function SettingLine(e: Setting): seq<byte> {
    Line(e.name, e.value.GetOr([]))
  }

  predicate IsText(e: Setting) {
    NulFree(e.name) && NulFree(e.value.GetOr([]))
  }

  /** A setting the writer can handle: it has a value, and its line fits the buffer. */
  predicate Writable(e: Setting) {
    IsText(e) && e.value.Some? && |SettingLine(e)| + 1 < 4096
  }

  function SavedText(items: seq<Setting>): seq<byte> {
    if items == [] then [] else SavedText(items[..|items| - 1]) + (SettingLine(items[|items| - 1]) + [LF])
  }

  /** The size of the reader's block at first, and what one fgets takes of a file. */
  const BLOCK: nat := 4096
  const MOST: nat := 4095

  /** What has been read, what of the file is left, and the size of the block it is in. */
  datatype Reading = Outside | Inside(b: seq<byte>, rest: seq<byte>, block: nat)

  /** A line is read on, in a block made larger each time, until its line feed or the end of the
      file has come. */
  function FirstLine(b: seq<byte>, text: seq<byte>, block: nat): (r: Reading)
    requires b != [] && block >= BLOCK && |b| < block
    ensures r.Inside? && r.b != [] && r.block >= BLOCK && |r.b| < r.block && |r.rest| <= |text|
    decreases |text|
  {
    if b[|b| - 1] == LF then Inside(b, text, block)
    else if text == [] then Inside(b, [], |b| + BLOCK)
    else
      var n := Take(text, MOST);
      FirstLine(b + text[..n], text[n..], |b| + BLOCK)
  }

  /** `b` goes on with what is read next until it ends in a backslash; at the end of the file it is
      given one. The block is not made larger for that: it is left when it is too small. */
  function Joined(b: seq<byte>, text: seq<byte>, block: nat): (r: Reading)
    requires b != [] && !Eol(b[|b| - 1])
    ensures r.Inside? ==> r.b != [] && r.b[|r.b| - 1] == BACKSLASH && |r.rest| <= |text| && r.block == block
    decreases |text|
  {
    if b[|b| - 1] == BACKSLASH then Inside(b, text, block)
    else if text == [] then
      if |b| + 2 <= block then Inside(b + [BACKSLASH], [], block) else Outside
    else
      var n := Take(text, MOST);
      TrimKeepsFront(b, text[..n]);
      if |b| + n + 1 > block then Outside
      else Joined(Trim(b + text[..n], false), text[n..], block)
  }

  /** The line that a setting begins with. */
  function Begun(text: seq<byte>, block: nat): (r: Reading)
    requires text != [] && block >= BLOCK
    ensures r.Inside? && r.block >= BLOCK && |r.rest| < |text|
  {
    var n := Take(text, MOST);
    FirstLine(text[..n], text[n..], block)
  }

  /** The whole setting at the front of the text. A blank line makes the source look before its
      block. */
  function WholeSetting(text: seq<byte>, block: nat): (r: Reading)
    requires text != [] && block >= BLOCK
    ensures r.Inside? ==> r.b != [] && r.b[|r.b| - 1] == BACKSLASH && |r.rest| < |text| && r.block >= BLOCK
  {
    var w := Begun(text, block);
    var b := Trim(w.b, false);
    if b == [] then Outside else Joined(b, w.rest, w.block)
  }

  lemma TrimKeepsFront(b: seq<byte>, more: seq<byte>)
    requires b != [] && !Eol(b[|b| - 1])
    ensures var t := Trim(b + more, false); t != [] && !Eol(t[|t| - 1])
  {
    assert (b + more)[|b| - 1] == b[|b| - 1];
  }

  /** The setting of a whole line; none if it begins with the separator. */
  predicate Separable(b: seq<byte>) {
    b != [] && b[|b| - 1] == BACKSLASH && (Index(b, BACKSLASH) == 0 || Index(b, BACKSLASH) + 1 < |b|)
  }

  function ParsedLine(b: seq<byte>): seq<Setting> {
    var p := Index(b, BACKSLASH);
    if p == 0 || p + 1 >= |b| then [] else [Setting(b[..p], Some(Decoded(b[p + 1..|b| - 1])))]
  }

  /** A file the reader can handle: every setting is read inside the block, and has two separators
      if it has a name. */
  predicate Loadable(text: seq<byte>, block: nat)
    requires block >= BLOCK
    decreases |text|
  {
    text != [] ==>
      var w := WholeSetting(text, block);
      w.Inside? && Separable(w.b) && Loadable(w.rest, w.block)
  }

  function Parsed(text: seq<byte>, block: nat): seq<Setting>
    requires block >= BLOCK
    decreases |text|
  {
    if text == [] || WholeSetting(text, block).Outside? then []
    else
      var w := WholeSetting(text, block);
      ParsedLine(w.b) + Parsed(w.rest, w.block)
  }

  lemma TakeOfOverlong(line: seq<byte>, most: nat)
    requires LF !in line && |line| >= most
    ensures Take(line, most) == most
  {
    assert line[..|line|] == line;
    IndexIsUnique(line, LF, |line|);
  }

  lemma OverlongLeaves(b: seq<byte>, line: seq<byte>, block: nat)
    requires b != [] && !Eol(b[|b| - 1]) && b[|b| - 1] != BACKSLASH
    requires LF !in line && |line| >= MOST && |b| + MOST >= block
    ensures Joined(b, line, block) == Outside
  {
    hide Take, Trim;
    TakeOfOverlong(line, MOST);
  }

  lemma BegunWithLine(l: seq<byte>, more: seq<byte>, block: nat)
    requires LF !in l && |l| < MOST && block >= BLOCK
    ensures l + [LF] + more != [] && Begun(l + [LF] + more, block) == Inside(l + [LF], more, block)
  {
    hide Take;
    TakeIsLine(l, more, MOST);
    assert (l + [LF])[|l|] == LF;
  }

  /** A line of one byte and then one that does not fit behind it: the block is left. */
  lemma OverlongJoinLeaves(line: seq<byte>)
    requires LF !in line && |line| >= MOST
    ensures WholeSetting([97] + [LF] + line, BLOCK) == Outside && !Loadable([97] + [LF] + line, BLOCK)
  {
    hide Begun, Joined, Trim;
    var a: seq<byte> := [97];
    BegunWithLine(a, line, BLOCK);
    assert [97][..1] == a && (a + [LF])[..1] == a;
    TrimIsUnique(a + [LF], false, 1);
    OverlongLeaves(a, line, BLOCK);
  }

  // ---------------------------------------------------------------- settings on several lines

  /** Lines with their line feeds. */
  function Lines(lines: seq<seq<byte>>): seq<byte> {
    if lines == [] then [] else lines[0] + [LF] + Lines(lines[1..])
  }

  /** Part of a setting on a line of its own. */
  predicate Portion(l: seq<byte>) {
    l != [] && |l| < MOST && LF !in l && CR !in l
  }

  /** The lines of one setting: only the last one ends in a backslash. */
  predicate OneSetting(lines: seq<seq<byte>>) {
    && lines != []
    && (forall i | 0 <= i < |lines| :: Portion(lines[i]))
    && (forall i | 0 <= i < |lines| :: lines[i][|lines[i]| - 1] == BACKSLASH <==> i == |lines| - 1)
  }

  lemma PortionIsTrimmed(b: seq<byte>, l: seq<byte>)
    requires Portion(l)
    ensures Trim(b + (l + [LF]), false) == b + l
    ensures (b + l)[|b + l| - 1] == l[|l| - 1] && !Eol(l[|l| - 1])
  {
    hide Trim;
    assert b + (l + [LF]) == (b + l) + [LF];
    TrimOfLine(b + l);
    assert l[|l| - 1] in l;
    assert (b + l)[..|b + l|] == b + l;
    TrimIsUnique(b + l, false, |b + l|);
  }

  lemma {:induction false} MoreLinesAreJoined(
      b: seq<byte>, lines: seq<seq<byte>>, more: seq<byte>, block: nat)
    requires b != [] && !Eol(b[|b| - 1]) && b[|b| - 1] != BACKSLASH
    requires OneSetting(lines)
    ensures Joined(b, Lines(lines) + more, block)
         == if |b| + |Concat(lines)| + 2 <= block then Inside(b + Concat(lines), more, block) else Outside
    decreases |lines|
  {
    hide Trim, Take, Joined, Portion, Eol;
    var l, rest := lines[0], Lines(lines[1..]) + more;
    CatAssoc(l + [LF], Lines(lines[1..]), more);
    PortionIsTaken(l, rest);
    PortionIsTrimmed(b, l);
    CatAssoc(b, l, Concat(lines[1..]));
    JoinedStep(b, l, rest, block);
    if |b| + |l| + 2 > block {
      assert |Concat(lines)| >= |l|;
    } else if |lines| == 1 {
      assert Lines(lines[1..]) == [] && Concat(lines[1..]) == [];
      CatEmpty(more);
      CatEmpty(l);
      JoinedEnds(b + l, more, block);
    } else {
      MoreLinesAreJoined(b + l, lines[1..], more, block);
    }
  }

  lemma PortionIsTaken(l: seq<byte>, rest: seq<byte>)
    requires Portion(l)
    ensures Take(l + [LF] + rest, MOST) == |l| + 1
    ensures (l + [LF] + rest)[..|l| + 1] == l + [LF] && (l + [LF] + rest)[|l| + 1..] == rest
  {
    TakeIsLine(l, rest, MOST);
  }

  lemma JoinedStep(b: seq<byte>, l: seq<byte>, rest: seq<byte>, block: nat)
    requires b != [] && !Eol(b[|b| - 1]) && b[|b| - 1] != BACKSLASH && Portion(l)
    ensures var t := b + l;
      !Eol(t[|t| - 1]) &&
      Joined(b, l + [LF] + rest, block) == if |b| + |l| + 2 <= block then Joined(t, rest, block) else Outside
  {
    hide Trim, Take, Portion, Eol;
    PortionIsTaken(l, rest);
    PortionIsTrimmed(b, l);
  }

  lemma JoinedEnds(b: seq<byte>, text: seq<byte>, block: nat)
    requires b != [] && !Eol(b[|b| - 1]) && b[|b| - 1] == BACKSLASH
    ensures Joined(b, text, block) == Inside(b, text, block)
  {
  }

  /** A setting on several lines is read as if it were on one, the line ends inside it being lost,
      if that with the last line's end and a terminator fits the block; otherwise the block is
      left. */
  lemma LinesAreJoined(lines: seq<seq<byte>>, more: seq<byte>, block: nat)
    requires OneSetting(lines) && block >= BLOCK
    ensures Lines(lines) + more != []
    ensures WholeSetting(Lines(lines) + more, block)
         == if |lines| == 1 || |Concat(lines)| + 2 <= block then Inside(Concat(lines), more, block) else Outside
  {
    hide Trim, Begun, Joined, Portion, Eol, WholeSetting, OneSetting;
    FirstOfSetting(lines);
    var l, rest := lines[0], Lines(lines[1..]) + more;
    CatAssoc(l + [LF], Lines(lines[1..]), more);
    WholeFromLine(l, rest, block);
    if |lines| == 1 {
      assert Lines(lines[1..]) == [] && Concat(lines[1..]) == [];
      CatEmpty(more);
      CatEmpty(l);
      JoinedEnds(l, more, block);
    } else {
      MoreLinesAreJoined(l, lines[1..], more, block);
    }
  }

  lemma FirstOfSetting(lines: seq<seq<byte>>)
    requires OneSetting(lines)
    ensures lines != [] && Portion(lines[0])
    ensures lines[0][|lines[0]| - 1] == BACKSLASH <==> |lines| == 1
    ensures |lines| > 1 ==> OneSetting(lines[1..])
  {
    hide Portion;
  }

  lemma WholeFromLine(l: seq<byte>, rest: seq<byte>, block: nat)
    requires Portion(l) && block >= BLOCK
    ensures l != [] && !Eol(l[|l| - 1]) && l + [LF] + rest != []
    ensures WholeSetting(l + [LF] + rest, block) == Joined(l, rest, block)
  {
    hide Trim, Begun, Joined, Portion, Eol;
    PortionBegins(l, rest, block);
    PortionIsTrimmed([], l);
    CatEmpty(l + [LF]);
    CatEmpty(l);
  }

  lemma PortionBegins(l: seq<byte>, rest: seq<byte>, block: nat)
    requires Portion(l) && block >= BLOCK
    ensures l != [] && l + [LF] + rest != [] && Begun(l + [LF] + rest, block) == Inside(l + [LF], rest, block)
  {
    BegunWithLine(l, rest, block);
  }

  /** A last line without a line end is given the backslash it lacks. */
  lemma LastLineIsEnded(l: seq<byte>, block: nat)
    requires Portion(l) && l[|l| - 1] != BACKSLASH && block >= BLOCK
    ensures WholeSetting(l, block) == Inside(l + [BACKSLASH], [], |l| + BLOCK)
  {
    hide Trim;
    assert l[..|l|] == l && l[|l| - 1] in l;
    IndexIsUnique(l, LF, |l|);
    TrimIsUnique(l, false, |l|);
    assert Take(l, MOST) == |l| && l[|l|..] == [];
  }

  // ---------------------------------------------------------------- loading inverts saving

  lemma SavedLineParses(e: Setting)
    requires Writable(e) && OneLine(e.name) && e.name != []
    ensures var b := SettingLine(e);
      && Trim(b, false) == b && Separable(b) && ParsedLine(b) == [e]
  {
    hide Munging.Munge, Munging.Unmunge, Trim;
    var v := e.value.value;
    var m, b := Munging.Munge(v, true), Line(e.name, v);
    LineIsTrimmed(e.name, v);
    assert b[..|e.name|] == e.name && b[|e.name|] == BACKSLASH;
    IndexIsUnique(b, BACKSLASH, |e.name|);
    assert b[|e.name| + 1..|b| - 1] == m;
    Munging.UnmungeInvertsMunge(v, true);
    assert v[..|v|] == v;
    IndexIsUnique(v, NUL, |v|);
  }

  predicate AllWritable(items: seq<Setting>) {
    forall i | 0 <= i < |items| :: Writable(items[i]) && OneLine(items[i].name) && items[i].name != []
  }

  lemma {:induction false} SavedTextFromTheFront(items: seq<Setting>)
    requires items != []
    ensures SavedText(items) == SettingLine(items[0]) + [LF] + SavedText(items[1..])
  {
    hide SettingLine;
    var n := |items| - 1;
    var l, first := SettingLine(items[n]) + [LF], SettingLine(items[0]) + [LF];
    if n == 0 {
      assert items[..n] == [] && items[1..] == [];
      CatEmpty(first);
    } else {
      SavedTextFromTheFront(items[..n]);
      assert items[..n][1..] == items[1..][..n - 1];
      CatAssoc(first, SavedText(items[1..][..n - 1]), l);
    }
  }

  /** A saved line is read in one piece. */
  lemma SavedLineIsRead(e: Setting, more: seq<byte>, block: nat)
    requires Writable(e) && OneLine(e.name) && e.name != [] && block >= BLOCK
    ensures SettingLine(e) + [LF] + more != []
    ensures WholeSetting(SettingLine(e) + [LF] + more, block) == Inside(SettingLine(e), more, block)
  {
    hide Trim, SettingLine, Begun;
    var l := SettingLine(e);
    SavedLineParses(e);
    EndsInBackslash(l);
    SettingLineHasNoLf(e);
    BegunWithLine(l, more, block);
    TrimOfLine(l);
    assert Joined(l, more, block) == Inside(l, more, block);
  }

  lemma SettingLineHasNoLf(e: Setting)
    requires Writable(e) && OneLine(e.name)
    ensures LF !in SettingLine(e) && |SettingLine(e)| < MOST
  {
    LineIsText(e.name, e.value.GetOr([]));
  }

  lemma {:induction false} SavedTextParses(items: seq<Setting>, block: nat)
    requires AllWritable(items) && block >= BLOCK
    ensures Loadable(SavedText(items), block) && Parsed(SavedText(items), block) == items
  {
    hide Writable, SettingLine, ParsedLine, Separable, WholeSetting, SavedText;
    if items == [] {
      NothingSaved();
    } else {
      SavedTextFromTheFront(items);
      SavedLineParses(items[0]);
      SavedLineIsRead(items[0], SavedText(items[1..]), block);
      SavedTextParses(items[1..], block);
      assert [items[0]] + items[1..] == items;
    }
  }

  lemma NothingSaved()
    ensures SavedText([]) == []
  {
  }

  lemma EndsInBackslash(b: seq<byte>)
    requires Separable(b)
    ensures b != [] && b[|b| - 1] == BACKSLASH
  {
  }

  lemma {:induction false} PutAllOfDistinct(items: seq<Setting>)
    requires Distinct(items)
    ensures PutAll(items) == items
  {
    hide Distinct, Without;
    if items != [] {
      var n := |items| - 1;
      assert items == items[..n] + [items[n]];
      DistinctOneMore(items[..n], items[n]);
      PutAllOfDistinct(items[..n]);
      WithoutNothing(items[..n], items[n].name);
    }
  }

  /** What was saved and is loaded into a new list is the same list, in the same order. */
  lemma LoadInvertsSave(items: seq<Setting>)
    requires AllWritable(items) && Distinct(items)
    ensures Loadable(SavedText(items), BLOCK)
    ensures AddAll(Empty, Parsed(SavedText(items), BLOCK)) == State(items, false)
  {
    hide SavedText, Loadable, Parsed, AllWritable, PutAll;
    SavedTextParses(items, BLOCK);
    PutAllOfDistinct(items);
    LostStaysLost(items);
  }

  lemma ParsedUnfolds(text: seq<byte>, block: nat)
    requires text != [] && block >= BLOCK
    ensures var w := WholeSetting(text, block);
      && (Loadable(text, block) <==> w.Inside? && Separable(w.b) && Loadable(w.rest, w.block))
      && (w.Inside? ==> Parsed(text, block) == ParsedLine(w.b) + Parsed(w.rest, w.block))
  {
    hide WholeSetting, Separable, ParsedLine;
  }

  lemma NothingToParse(block: nat)
    requires block >= BLOCK
    ensures Parsed([], block) == [] && Loadable([], block)
  {
  }

  lemma AddAllOneMore(s: State, es: seq<Setting>, e: Setting)
    ensures AddAll(s, es + [e]) == Add(AddAll(s, es), e)
  {
    assert (es + [e])[..|es|] == es;
  }

  lemma {:induction false} AddAllInTurn(s: State, es: seq<Setting>, more: seq<Setting>)
    ensures AddAll(s, es + more) == AddAll(AddAll(s, es), more)
  {
    hide Add;
    if more == [] {
      CatEmpty(es);
    } else {
      var n := |more| - 1;
      AddAllInTurn(s, es, more[..n]);
      assert (es + more)[..|es + more| - 1] == es + more[..n];
    }
  }

  method StripLine(line: seq<byte>) returns (b: seq<byte>)
    ensures b == Trim(line, false)
  {
    b := line;
    while b != [] && Eol(b[|b| - 1])
      invariant |b| <= |line| && b == line[..|b|]
      invariant forall i | |b| <= i < |line| :: Eol(line[i])
    {
      b := b[..|b| - 1];
    }
    TrimIsUnique(line, false, |b|);
  }

  /** How much one fgets takes of the file. */
  method TakeMost(text: seq<byte>) returns (n: nat)
    ensures n == Take(text, MOST)
  {
    n := 0;
    while n < MOST && n < |text| && (n > 0 ==> text[n - 1] != LF)
      invariant n <= MOST && n <= |text| && LF !in text[..if n > 0 then n - 1 else 0]
    {
      if n > 0 {
        assert text[..n] == text[..n - 1] + [text[n - 1]];
      }
      n := n + 1;
    }
    TakeIs(text, MOST, n);
  }

  /** Reads the line that a setting begins with, and makes the block larger as it goes on. */
  method ReadFirstLine(text: seq<byte>, block0: nat) returns (b: seq<byte>, rest: seq<byte>, block: nat)
    requires text != [] && NulFree(text) && block0 >= BLOCK
    ensures Begun(text, block0) == Inside(b, rest, block) && b != [] && NulFree(b) && NulFree(rest)
    ensures BLOCK <= block && |b| < block && |rest| < |text|
  {
    hide Take;
    var n := TakeMost(text);
    b, rest, block := text[..n], text[n..], block0;
    while b[|b| - 1] != LF
      invariant b != [] && NulFree(b) && NulFree(rest) && BLOCK <= block && |b| < block && |rest| < |text|
      invariant Begun(text, block0) == FirstLine(b, rest, block)
      decreases |rest|
    {
      block := |b| + BLOCK;
      if rest == [] {
        return;
      }
      n := TakeMost(rest);
      b, rest := b + rest[..n], rest[n..];
    }
  }

  /** Reads a whole setting: lines are joined until one ends in a backslash. `inside` says that
      the block is not left, neither in front by a blank line nor behind by one too long. */
  method ReadWhole(text: seq<byte>, block0: nat)
    returns (inside: bool, b: seq<byte>, rest: seq<byte>, block: nat)
    requires text != [] && NulFree(text) && block0 >= BLOCK
    ensures inside <==> WholeSetting(text, block0).Inside?
    ensures inside ==> WholeSetting(text, block0) == Inside(b, rest, block) && NulFree(b) && NulFree(rest)
  {
    hide Trim, Begun, Take;
    b, rest, block := ReadFirstLine(text, block0);
    b := StripLine(b);
    if b == [] {
      inside := false;
      return;
    }
    while b[|b| - 1] != BACKSLASH
      invariant b != [] && !Eol(b[|b| - 1]) && NulFree(b) && NulFree(rest)
      invariant WholeSetting(text, block0) == Joined(b, rest, block)
      decreases |rest|, b[|b| - 1] != BACKSLASH
    {
      if rest == [] {
        if |b| + 2 > block {
          inside := false;
          return;
        }
        b := b + [BACKSLASH];
      } else {
        var n := TakeMost(rest);
        if |b| + n + 1 > block {
          inside := false;
          return;
        }
        TrimKeepsFront(b, rest[..n]);
        b := StripLine(b + rest[..n]);
        rest := rest[n..];
      }
    }
    inside := true;
  }

  /** Splits a whole line at its first backslash and decodes the value. With a name and only that
      backslash the source writes before the empty value; `inside` says that it does not. */
  method ParseLine(b: seq<byte>) returns (inside: bool, e: Option<Setting>)
    requires b != [] && b[|b| - 1] == BACKSLASH && NulFree(b)
    ensures inside <==> Separable(b)
    ensures inside ==> ParsedLine(b) == if e.Some? then [e.value] else []
  {
    hide Index, Decoded;
    var p := 0;
    while b[p] != BACKSLASH
      invariant 0 <= p < |b| && BACKSLASH !in b[..p]
      decreases |b| - p
    {
      assert b[..p + 1] == b[..p] + [b[p]];
      p := p + 1;
    }
    IndexIsUnique(b, BACKSLASH, p);
    if p == 0 {
      return true, None;
    }
    if p + 1 == |b| {
      return false, None;
    }
    var text := b[p + 1..|b| - 1];
    var value := new byte[|text| + 1](i => if 0 <= i < |text| then text[i] else NUL);
    assert forall i | 0 <= i < |text| :: text[i] == b[p + 1 + i] && b[p + 1 + i] in b;
    var value2 := DecodeRest(value, 0, text);
    return true, Some(Setting(b[..p], Some(value2)));
  }

  // ---------------------------------------------------------------- the linked list

  class Item {
    var name: Option<seq<byte>>
    var value: Option<seq<byte>>
    var next: Item?
    var prev: Item?

    constructor (name: seq<byte>, value: Option<seq<byte>>)
      ensures this.name == Some(name) && this.value == value && next == null && prev == null
    {
      this.name, this.value, next, prev := Some(name), value, null, null;
    }
  }

  ghost predicate NoTwins(c: seq<Item>) {
    forall i, j | 0 <= i < j < |c| :: c[i] != c[j]
  }

  ghost predicate Apart(c: seq<Item>, d: seq<Item>) {
    forall i, j | 0 <= i < |c| && 0 <= j < |d| :: c[i] != d[j]
  }

  ghost function Head(c: seq<Item>): Item? {
    if c == [] then null else c[0]
  }

  ghost function Tail(c: seq<Item>): Item? {
    if c == [] then null else c[|c| - 1]
  }

  ghost function Successor(c: seq<Item>, i: nat, after: Item?): Item? {
    if i + 1 < |c| then c[i + 1] else after
  }

  ghost function Predecessor(c: seq<Item>, i: nat, before: Item?): Item? {
    if 0 < i <= |c| then c[i - 1] else before
  }

  /** A stretch of a list, linked both ways, with what is before and after it. */
  ghost predicate Linked(c: seq<Item>, before: Item?, after: Item?)
    reads c`next, c`prev
  {
    && (forall i {:trigger c[i].next} | 0 <= i < |c| :: c[i].next == Successor(c, i, after))
    && (forall i {:trigger c[i].prev} | 0 <= i < |c| :: c[i].prev == Predecessor(c, i, before))
  }

  ghost predicate Hold(c: seq<Item>, items: seq<Setting>)
    reads c`name, c`value
  {
    && |c| == |items|
    && forall i | 0 <= i < |c| :: c[i].name == Some(items[i].name) && c[i].value == items[i].value
  }

  /** A list in two parts: the items already looked at and those still to come. */
  ghost predicate Split(front: seq<Item>, back: seq<Item>, fs: seq<Setting>, bs: seq<Setting>)
    reads front, back
  {
    && NoTwins(front) && NoTwins(back) && Apart(front, back)
    && Linked(front, null, Head(back)) && Linked(back, Tail(front), null)
    && Hold(front, fs) && Hold(back, bs)
  }

  lemma MoveOn(front: seq<Item>, back: seq<Item>, fs: seq<Setting>, bs: seq<Setting>)
    requires Split(front, back, fs, bs) && back != []
    ensures Split(front + [back[0]], back[1..], fs + [bs[0]], bs[1..])
  {
    var f, b := front + [back[0]], back[1..];
    assert forall i | 0 <= i < |b| :: b[i] == back[i + 1];
    assert f[|front|] == back[0];
    assert forall i | 0 <= i < |front| :: f[i] == front[i];
    assert Linked(f, null, Head(b));
    assert Linked(b, Tail(f), null);
  }

  lemma FirstLinks(back: seq<Item>, before: Item?)
    requires back != [] && Linked(back, before, null)
    ensures back[0].prev == before && back[0].next == Head(back[1..])
    ensures Linked(back[1..], back[0], null)
  {
    var b := back[1..];
    assert forall i | 0 <= i < |b| :: b[i] == back[i + 1];
  }

  lemma HeldBehind(back: seq<Item>, bs: seq<Setting>)
    requires back != [] && Hold(back, bs)
    ensures bs != [] && Hold(back[1..], bs[1..])
    ensures back[0].name == Some(bs[0].name) && back[0].value == bs[0].value
  {
  }

  lemma SplitHolds(front: seq<Item>, back: seq<Item>, fs: seq<Setting>, bs: seq<Setting>)
    requires Split(front, back, fs, bs) && back != []
    ensures |back| == |bs| && back[0].name == Some(bs[0].name) && back[0].next == Head(back[1..])
  {
  }

  ghost predicate Among(c: seq<Item>, d: seq<Item>) {
    forall i | 0 <= i < |c| :: c[i] in d
  }

  lemma AmongOneMore(front: seq<Item>, all: seq<Item>, k: nat)
    requires k < |all| && Among(front, all[..k])
    ensures Among(front, all[..k + 1]) && Among(front + [all[k]], all[..k + 1])
  {
    assert all[..k + 1] == all[..k] + [all[k]];
  }

  /** What has been kept of the first `k` items: it is among them, and when all have been looked
      at, its end is the end of all, unless that has been taken out. */
  ghost predicate KeptSoFar(front: seq<Item>, all: seq<Item>, es: seq<Setting>, k: nat, key: seq<byte>) {
    && k <= |all| == |es| && Among(front, all[..k])
    && (k == |all| && EndsIn(es, key) ==> Among(front, all[..k - 1]))
    && (k == |all| && !EndsIn(es, key) ==> Tail(front) == Tail(all))
  }

  lemma KeepOn(front: seq<Item>, all: seq<Item>, es: seq<Setting>, k: nat, key: seq<byte>)
    requires KeptSoFar(front, all, es, k, key) && k < |all|
    ensures KeptSoFar(if es[k].name == key then front else front + [all[k]], all, es, k + 1, key)
  {
    AmongOneMore(front, all, k);
  }

  lemma AllKept(front: seq<Item>, all: seq<Item>, es: seq<Setting>, k: nat, key: seq<byte>)
    requires KeptSoFar(front, all, es, k, key) && k == |all|
    ensures Among(front, if EndsIn(es, key) then all[..|all| - 1] else all)
    ensures !EndsIn(es, key) ==> Tail(front) == Tail(all)
  {
    assert all[..k] == all;
  }

  lemma KeptAreOfAll(front: seq<Item>, all: seq<Item>, es: seq<Setting>, k: nat, key: seq<byte>)
    requires KeptSoFar(front, all, es, k, key)
    ensures forall i | 0 <= i < |front| :: front[i] in all
  {
    assert forall i | 0 <= i < |front| :: front[i] in all[..k];
  }

  lemma EndsInLast(es: seq<Setting>, k: nat, key: seq<byte>)
    requires k < |es|
    ensures k + 1 == |es| ==> (EndsIn(es, key) <==> es[k].name == key)
  {
  }

  lemma HeadOfRest(all: seq<Item>, k: nat)
    requires k <= |all|
    ensures Head(all[k..]) == (if k < |all| then all[k] else null) && Head(all) == Head(all[0..])
  {
    assert all[0..] == all;
  }

  lemma Slices<T>(s: seq<T>, k: nat)
    requires k < |s|
    ensures |s[k..]| == |s| - k && s[k..][0] == s[k] && s[k..][1..] == s[k + 1..]
  {
  }

  lemma NothingKept(es: seq<Setting>, all: seq<Item>, key: seq<byte>)
    ensures Without(es[..0], key) == [] && Among([], all[..0]) && Tail([]) == null
    ensures es == [] ==> !EndsIn(es, key)
    ensures |all| == |es| ==> KeptSoFar([], all, es, 0, key)
  {
  }

  lemma NothingHeld()
    ensures Hold([], [])
  {
  }

  lemma HoldsAsMany(c: seq<Item>, items: seq<Setting>)
    requires Hold(c, items)
    ensures |c| == |items|
  {
  }

  lemma WithoutOneMore(es: seq<Setting>, k: nat, key: seq<byte>)
    requires k < |es|
    ensures Without(es[..k + 1], key) ==
            if es[k].name == key then Without(es[..k], key) else Without(es[..k], key) + [es[k]]
  {
    assert es[..k + 1][..k] == es[..k];
    CatEmpty(Without(es[..k], key));
  }

  lemma NothingLinked(before: Item?, after: Item?)
    ensures Linked([], before, after)
  {
  }

  method LeadForward(end: Item, to: Item?, ghost front: seq<Item>, ghost after: Item?)
    requires front != [] && end == Tail(front) && NoTwins(front) && Linked(front, null, after)
    modifies end`next
    ensures Linked(front, null, to)
  {
    end.next := to;
  }

  method LeadBack(begin: Item, to: Item?, ghost back: seq<Item>, ghost before: Item?)
    requires back != [] && begin == Head(back) && NoTwins(back) && Linked(back, before, null)
    modifies begin`prev
    ensures Linked(back, to, null)
  {
    begin.prev := to;
  }

  /** Leads the item's link onwards to another; it may be the last of a list or not be in it. */
  method HangOn(current: Item, item: Item, ghost c: seq<Item>, ghost inside: bool)
    requires NoTwins(c) && Linked(c, null, null)
    requires if inside then current == Tail(c) else current !in c
    modifies current`next
    ensures Linked(c, null, if inside then item else null)
  {
    current.next := item;
  }

  lemma AmongOld(c: seq<Item>, d: seq<Item>, item: Item)
    requires Among(c, d) && item !in d
    ensures item !in c && NoTwins(c) ==> NoTwins(c + [item])
    ensures item !in c && forall i | 0 <= i < |c| :: c[i] in d
  {
  }

  lemma HangsBehind(c: seq<Item>, items: seq<Setting>, item: Item, e: Setting)
    requires Linked(c, null, item) && item.prev == Tail(c) && item.next == null
    requires Hold(c, items) && item.name == Some(e.name) && item.value == e.value
    ensures Linked(c + [item], null, null) && Hold(c + [item], items + [e])
  {
    var d := c + [item];
    assert d[|c|] == item && forall i | 0 <= i < |c| :: d[i] == c[i];
  }

  class SettingsList {
    var first: Item?
    var last: Item?
    var num: int
    ghost var chain: seq<Item>      // what is reached from `first`
    ghost var items: seq<Setting>   // what these hold

    /** The links from the front are consistent both ways. `last` is the end of them, or, in a
        broken list, some item outside. */
    ghost predicate Valid()
      reads this, chain
    {
      && NoTwins(chain) && Linked(chain, null, null) && Hold(chain, items)
      && first == Head(chain)
      && (last == Tail(chain) || (last != null && last !in chain))
    }

    ghost function Abs(): State
      reads this
    {
      State(items, last != Tail(chain))
    }

    constructor ()
      ensures Valid() && Abs() == Empty && num == 0 && chain == []
    {
      first, last, num, chain, items := null, null, 0, [], [];
    }

    /** Leads the links of its neighbours past an item. */
    method Bypass(current: Item, ghost front: seq<Item>, ghost back: seq<Item>,
                  ghost fs: seq<Setting>, ghost bs: seq<Setting>)
      requires Split(front, back, fs, bs) && back != [] && current == back[0]
      requires first == Head(front + back)
      modifies this`first, this`last, front, back
      ensures Split(front, back[1..], fs, bs[1..]) && first == Head(front + back[1..])
      ensures current.next == Head(back[1..])
      ensures last == if |back| > 1 then old(last) else Tail(front)
    {
      hide Linked, Hold;
      FirstLinks(back, Tail(front));
      NothingLinked(null, Head(back[1..]));
      NothingLinked(Tail(front), null);
      HeldBehind(back, bs);
      ghost var rest := back[1..];
      assert forall i | 0 <= i < |rest| :: rest[i] == back[i + 1];
      current.value := None;
      current.name := None;
      if current.prev != null {
        LeadForward(current.prev, current.next, front, current);
      } else {
        first := current.next;
      }
      if current.next != null {
        LeadBack(current.next, current.prev, rest, current);
      } else {
        last := current.prev;
      }
    }

    /** One turn of the loop of a deletion. */
    method DelStep(current: Item, key: seq<byte>, ghost front: seq<Item>, ghost back: seq<Item>,
                   ghost fs: seq<Setting>, ghost bs: seq<Setting>)
      returns (next: Item?, ghost kept: seq<Item>)
      requires Split(front, back, fs, bs) && back != [] && bs != [] && current == back[0]
      requires first == Head(front + back)
      modifies this`first, this`last, front, back
      ensures kept == if bs[0].name == key then front else front + [current]
      ensures Split(kept, back[1..], if bs[0].name == key then fs else fs + [bs[0]], bs[1..])
      ensures first == Head(kept + back[1..]) && next == Head(back[1..])
      ensures last == if bs[0].name == key && |back| == 1 then Tail(front) else old(last)
    {
      hide Split, Linked;
      SplitHolds(front, back, fs, bs);
      if current.name == Some(key) {
        Bypass(current, front, back, fs, bs);
        kept := front;
      } else {
        MoveOn(front, back, fs, bs);
        kept := front + [current];
        assert kept + back[1..] == front + back;
      }
      next := current.next;
    }

    /** The loop of a deletion. What is left is among the items there were, and has the same end
        unless that has been taken out. */
    method DelLoop(key: seq<byte>, ghost all: seq<Item>, ghost es: seq<Setting>) returns (ghost front: seq<Item>)
      requires Split([], all, [], es) && |all| == |es| && first == Head(all)
      modifies this`first, this`last, all
      ensures Split(front, [], Without(es, key), []) && first == Head(front)
      ensures last == if EndsIn(es, key) then Tail(front) else old(last)
      ensures Among(front, if EndsIn(es, key) then all[..|all| - 1] else all)
      ensures !EndsIn(es, key) ==> Tail(front) == Tail(all)
    {
      hide Split, Without, KeptSoFar, EndsIn, Among, Head, Tail;
      ghost var k := 0;
      front := [];
      ghost var fs: seq<Setting> := [];
      assert all[0..] == all && es[0..] == es;
      CatEmpty(all);
      NothingKept(es, all, key);
      HeadOfRest(all, k);
      var current := first;
      while current != null
        invariant 0 <= k <= |all| == |es| && fs == Without(es[..k], key)
        invariant Split(front, all[k..], fs, es[k..]) && (current == null <==> k == |all|)
        invariant first == Head(front + all[k..]) && current == Head(all[k..])
        invariant last == if k == |all| && EndsIn(es, key) then Tail(front) else old(last)
        invariant KeptSoFar(front, all, es, k, key)
        decreases |all| - k
      {
        Slices(all, k);
        Slices(es, k);
        HeadOfRest(all, k);
        HeadOfRest(all, k + 1);
        WithoutOneMore(es, k, key);
        KeepOn(front, all, es, k, key);
        EndsInLast(es, k, key);
        KeptAreOfAll(front, all, es, k, key);
        current, front := DelStep(current, key, front, all[k..], fs, es[k..]);
        fs := Without(es[..k + 1], key);
        k := k + 1;
      }
      AllKept(front, all, es, k, key);
      assert es[..k] == es && all[k..] == [] && es[k..] == [];
      CatEmpty(front);
    }

    /** Takes out every item of that name, in one pass. */
    method SettingsDelItem(key: seq<byte>)
      requires Valid()
      modifies this`first, this`last, this`chain, this`items, chain
      ensures Valid() && Abs() == Del(old(Abs()), key)
      ensures Among(chain, old(chain)) && num == old(num)
      ensures last == if EndsIn(old(items), key) then Tail(chain) else old(last)
      ensures EndsIn(old(items), key) ==> old(Tail(chain)) !in chain
    {
      hide Linked, Hold, Without;
      HoldsAsMany(chain, items);
      NothingLinked(null, Head(chain));
      NothingHeld();
      ghost var front := DelLoop(key, chain, items);
      chain, items := front, Without(items, key);
    }

    /** Hangs a new item behind what is last, after taking out those of its name. */
    method DelAndHang(item: Item, key: seq<byte>)
      requires Valid() && last != null && item !in chain && item != last && item.next == null
      modifies this`first, this`last, this`chain, this`items, chain, last`next, item`prev
      ensures NoTwins(chain) && Hold(chain, items) && first == Head(chain) && Among(chain, old(chain))
      ensures items == Without(old(items), key) && item.prev == old(last)
      ensures var hangs := !old(Abs()).lost && !EndsIn(old(items), key);
        Linked(chain, null, if hangs then item else null) && (hangs ==> old(last) == Tail(chain))
    {
      hide Linked, Hold, Without;
      var current := last;
      ghost var hangs := !Abs().lost && !EndsIn(items, key);
      SettingsDelItem(key);
      HangOn(current, item, chain, hangs);
      item.prev := current;
    }

    /** Adds an item at the end, after taking out those of its name. */
    method SettingsAddItem(name: seq<byte>, value: Option<seq<byte>>)
      requires Valid()
      modifies this, chain, if last == null then {} else {last}
      ensures Valid() && Abs() == Add(old(Abs()), Setting(name, value))
      ensures num == old(num) + 1
      ensures forall i | 0 <= i < |chain| :: chain[i] in old(chain) || fresh(chain[i])
      ensures last != null && fresh(last)
    {
      hide Linked, Hold, Without, Among, NoTwins, EndsIn;
      HoldsAsMany(chain, items);
      NothingKept(items, chain, name);
      NothingLinked(null, last);
      var item := new Item(name, value);
      ghost var e := Setting(name, value);
      ghost var hangs := !Abs().lost && !EndsIn(items, name);
      var current := last;
      if current == null {
        first := item;
        NothingLinked(null, item);
      } else {
        DelAndHang(item, name);
      }
      last := item;
      num := num + 1;
      AmongOld(chain, old(chain), item);
      if hangs {
        HangsBehind(chain, items, item, e);
        chain, items := chain + [item], items + [e];
      }
    }

    method SettingsKey(key: seq<byte>) returns (value: Option<seq<byte>>)
      requires Valid()
      ensures value == Find(items, key)
    {
      var current := first;
      ghost var k := 0;
      while current != null
        invariant 0 <= k <= |chain| && current == (if k < |chain| then chain[k] else null)
        invariant Find(items, key) == Find(items[k..], key)
        decreases |chain| - k
      {
        if current.name == Some(key) {
          return current.value;
        }
        assert items[k..][1..] == items[k + 1..];
        current := current.next;
        k := k + 1;
      }
      value := None;
    }

    /** Writes the settings in list order. It is left at one that it cannot handle. */
    method SettingsSave() returns (inside: bool, text: seq<byte>)
      requires Valid() && forall i | 0 <= i < |items| :: IsText(items[i])
      ensures inside <==> forall i | 0 <= i < |items| :: Writable(items[i])
      ensures inside ==> text == SavedText(items)
    {
      hide Munging.Munge;
      text := [];
      var current := first;
      ghost var k := 0;
      while current != null
        invariant 0 <= k <= |chain| && current == (if k < |chain| then chain[k] else null)
        invariant text == SavedText(items[..k]) && forall i | 0 <= i < k :: Writable(items[i])
        decreases |chain| - k
      {
        assert items[..k + 1][..k] == items[..k];
        assert IsText(items[k]);
        if current.name.Some? {
          var munged := MungedText(current.value.GetOr([]), 1);
          var line := current.name.value + [BACKSLASH] + munged + [BACKSLASH];
          assert line == SettingLine(items[k]);
          if current.value.None? || |line| + 1 >= 4096 {
            assert !Writable(items[k]);
            return false, text;
          }
          text := text + (line + [LF]);
        }
        current := current.next;
        k := k + 1;
      }
      assert items[..k] == items;
      inside := true;
    }

    /** Takes the setting at the front of the text, if that names one. */
    method LoadOne(text: seq<byte>, block0: nat)
      returns (inside: bool, rest: seq<byte>, block: nat, ghost es: seq<Setting>)
      requires text != [] && Valid() && NulFree(text) && block0 >= BLOCK
      modifies this, chain, if last == null then {} else {last}
      ensures Valid() && (!inside ==> !Loadable(text, block0))
      ensures inside ==> NulFree(rest) && |rest| < |text| && block >= BLOCK
      ensures inside ==> (Loadable(text, block0) <==> Loadable(rest, block))
      ensures inside ==> Parsed(text, block0) == es + Parsed(rest, block) && Abs() == AddAll(old(Abs()), es)
      ensures forall i | 0 <= i < |chain| :: chain[i] in old(chain) || fresh(chain[i])
      ensures last == old(last) || (last != null && fresh(last))
    {
      hide Add, Valid, Parsed, ParsedLine, Loadable, Separable, WholeSetting;
      ParsedUnfolds(text, block0);
      es := [];
      var b;
      inside, b, rest, block := ReadWhole(text, block0);
      if !inside {
        return;
      }
      var e;
      inside, e := ParseLine(b);
      if !inside {
        return;
      }
      es := ParsedLine(b);
      if e.Some? {
        AddAllOneMore(Abs(), [], e.value);
        SettingsAddItem(e.value.name, e.value.value);
      }
    }

    /** Adds the settings of a file, in its order; `inside` says that no line makes it look or
        write outside a buffer. */
    method SettingsLoad(text: seq<byte>) returns (inside: bool)
      requires Valid() && NulFree(text)
      modifies this, chain, if last == null then {} else {last}
      ensures Valid() && (inside <==> Loadable(text, BLOCK))
      ensures inside ==> Abs() == AddAll(old(Abs()), Parsed(text, BLOCK))
    {
      hide Add, Valid, Parsed, Loadable;
      ghost var s := Abs();
      ghost var done: seq<Setting> := [];
      ghost var es: seq<Setting>;
      var rest, block := text, BLOCK;
      CatEmpty(Parsed(text, BLOCK));
      while rest != []
        invariant Valid() && NulFree(rest) && block >= BLOCK && (Loadable(text, BLOCK) <==> Loadable(rest, block))
        invariant Parsed(text, BLOCK) == done + Parsed(rest, block) && Abs() == AddAll(s, done)
        invariant forall i | 0 <= i < |chain| :: chain[i] in old(chain) || fresh(chain[i])
        invariant last == old(last) || (last != null && fresh(last))
        decreases |rest|
      {
        inside, rest, block, es := LoadOne(rest, block);
        if !inside {
          return;
        }
        CatAssoc(done, es, Parsed(rest, block));
        AddAllInTurn(s, done, es);
        done := done + es;
      }
      NothingToParse(block);
      CatEmpty(done);
      inside := true;
    }
  }
}
