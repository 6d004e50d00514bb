/** The line discipline (ldisc.c): local echo and local line editing between keys and back end. */
module LineDiscipline {
  import opened CText
  import opened Wrappers

  const BACKSPACE: byte := 8
  const DELETE: byte := 127

  const CTRL_C: int := 3
  const CTRL_D: int := 4
  const CTRL_J: int := 10
  const CTRL_M: int := 13
  const CTRL_R: int := 18
  const CTRL_U: int := 21
  const CTRL_V: int := 22
  const CTRL_W: int := 23
  const CTRL_Z: int := 26
  const CTRL_BACKSLASH: int := 28

  /** Added to the bytes of a special key (KCTRL('@')). */
  const KEY_FLAG: int := 0x100
  const KEY_H: int := 0x108
  const KEY_M: int := 0x10D
  const KEY_QUERY: int := 0x17F

  datatype Protocol = Raw | Telnet | OtherProtocol

  datatype Toggle = ForceOn | ForceOff | Auto {
    predicate Holds(backend: bool) {
      ForceOn? || (Auto? && backend)
    }
  }

  /** Everything that stays fixed during a send: the cached configuration, the back end's
      answers to LD_ECHO and LD_EDIT, and whether the terminal is in UTF-8 mode. */
  datatype Config = Config(
    localecho: Toggle, localedit: Toggle, ldEcho: bool, ldEdit: bool,
    protocol: Protocol, telnetKeyboard: bool, telnetNewline: bool, utf: bool)
  {
    predicate Echoing() { localecho.Holds(ldEcho) }
    predicate Editing() { localedit.Holds(ldEdit) }
  }

  datatype Special = EL | IP | SUSP | ABORT | EOF | EOL | EC

  /** What leaves the line discipline, in order: terminal output, data and specials for the back end. */
  datatype Event = Write(text: seq<byte>) | Send(data: seq<byte>) | Signal(special: Special)

  /** The line being edited. */
  datatype Line = Line(buf: seq<byte>, quote: bool)

  datatype Result = Result(line: Line, events: seq<Event>)

  // ---------------------------------------------------------------- characters

  /** Terminal columns a byte of the buffer takes up on the screen. */
  function Plen(utf: bool, c: byte): nat {
    if 32 <= c <= 126 || (c >= 160 && !utf) then 1
    else if c < 128 then 2
    else if utf && c >= 0xC0 then 1
    else if utf && 0x80 <= c < 0xC0 then 0
    else 4
  }

  /** The bytes echoed for a byte of the buffer. */
  function Pwrite(utf: bool, c: byte): seq<byte> {
    if 32 <= c <= 126 || (!utf && c >= 0xA0) || (utf && c >= 0x80) then [c]
    else if c < 128 then [94, if c == DELETE then 63 else c + 0x40]
    else [60, HexDigit(c / 16), HexDigit(c % 16), 62]
  }

  predicate CharStart(utf: bool, c: byte) {
    utf ==> c < 0x80 || c >= 0xC0
  }

  predicate IsSpace(c: byte) {
    c == SPACE || 9 <= c <= 13
  }

  // ---------------------------------------------------------------- the abstract line editor

  /** Where the loop of an erase key stops when it begins with `n` bytes: it drops bytes until it
      has dropped a character start. It is -1 when there is none, and the loop goes on to look
      before the front of the buffer. */
  function EraseStop(utf: bool, buf: seq<byte>, n: nat): (k: int)
    requires n <= |buf|
    ensures -1 <= k < n
    ensures k >= 0 <==> exists j: nat :: j < n && CharStart(utf, buf[j])
    ensures k >= 0 ==> CharStart(utf, buf[k]) && forall j: nat :: k < j < n ==> !CharStart(utf, buf[j])
  {
    if n == 0 then -1
    else if CharStart(utf, buf[n - 1]) then n - 1
    else EraseStop(utf, buf, n - 1)
  }

  /** An empty prefix, or one that ends in a space that a non-space followed. */
  predicate WordStop(buf: seq<byte>, k: nat)
    requires k < |buf|
  {
    k == 0 || (IsSpace(buf[k - 1]) && !IsSpace(buf[k]))
  }

  /** The longest proper prefix that is empty or ends in a space followed by a non-space. */
  function LastWord(buf: seq<byte>): (k: nat)
    requires buf != []
    ensures k < |buf| && WordStop(buf, k)
    ensures forall j: nat :: k < j < |buf| ==> !WordStop(buf, j)
  {
    LastWordFrom(buf, |buf| - 1)
  }

  function LastWordFrom(buf: seq<byte>, n: nat): (k: nat)
    requires n < |buf|
    ensures k <= n && WordStop(buf, k)
    ensures forall j: nat :: k < j <= n ==> !WordStop(buf, j)
  {
    if WordStop(buf, n) then n else LastWordFrom(buf, n - 1)
  }

  function Repeat(e: Event, n: nat): seq<Event> {
    if n == 0 then [] else Repeat(e, n - 1) + [e]
  }

  /** "\b \b" */
  const RUB: seq<byte> := [BACKSPACE, SPACE, BACKSPACE]
  const NEWLINE: seq<byte> := [CR, LF]

  /** The rub-outs that take `s` off the screen, last byte first. */
  function Rubout(utf: bool, s: seq<byte>): seq<Event> {
    if s == [] then []
    else Repeat(Write(RUB), Plen(utf, s[|s| - 1])) + Rubout(utf, s[..|s| - 1])
  }

  function Erase(cfg: Config, line: Line, k: nat): Result
    requires k <= |line.buf|
  {
    Result(line.(buf := line.buf[..k]), if cfg.Echoing() then Rubout(cfg.utf, line.buf[k..]) else [])
  }

  function Insert(cfg: Config, line: Line, c: nat): Result
  {
    var b: byte := c % 256;
    Result(Line(line.buf + [b], false), if cfg.Echoing() then [Write(Pwrite(cfg.utf, b))] else [])
  }

  function EndOfLine(cfg: Config, line: Line): Result {
    Result(line.(buf := []),
           (if line.buf != [] then [Send(line.buf)] else [])
           + (if cfg.protocol == Raw then [Send(NEWLINE)]
              else if cfg.protocol == Telnet && cfg.telnetNewline then [Signal(EOL)]
              else [Send([CR])])
           + (if cfg.Echoing() then [Write(NEWLINE)] else []))
  }

  function Redraw(utf: bool, s: seq<byte>): seq<Event> {
    if s == [] then [] else Redraw(utf, s[..|s| - 1]) + [Write(Pwrite(utf, s[|s| - 1]))]
  }

  function Then(r: Result, s: Result): Result {
    Result(s.line, r.events + s.events)
  }

  predicate IsEraseKey(c: int) { c == KEY_H || c == KEY_QUERY }
  predicate IsLineKill(c: int) { c == CTRL_U || c == CTRL_C || c == CTRL_BACKSLASH || c == CTRL_Z }

  /** The key does not look before the front of the buffer. */
  predicate KeySafe(cfg: Config, line: Line, c: nat) {
    IsEraseKey(c) && !line.quote && line.buf != [] ==> EraseStop(cfg.utf, line.buf, |line.buf|) >= 0
  }

  /** One key in editing mode. */
  function Key(cfg: Config, line: Line, c: nat): Result
    requires KeySafe(cfg, line, c)
  {
    if line.quote then Insert(cfg, line, c)
    else if IsEraseKey(c) then
      if line.buf == [] then Result(line, []) else Erase(cfg, line, EraseStop(cfg.utf, line.buf, |line.buf|))
    else if c == CTRL_W then
      if line.buf == [] then Result(line, []) else Erase(cfg, line, LastWord(line.buf))
    else if IsLineKill(c) then
      var killed := Then(Erase(cfg, line, 0), Result(line.(buf := []), [Signal(EL)]));
      if !cfg.telnetKeyboard then Then(killed, Insert(cfg, killed.line, c))
      else if c == CTRL_U then killed
      else Then(killed, Result(killed.line, [Signal(if c == CTRL_C then IP else if c == CTRL_Z then SUSP else ABORT)]))
    else if c == CTRL_R then
      Result(line, if cfg.Echoing() then [Write([94, 82, CR, LF])] + Redraw(cfg.utf, line.buf) else [])
    else if c == CTRL_V then Result(line.(quote := true), [])
    else if c == CTRL_D then
      if line.buf == [] then Result(line, [Signal(EOF)]) else Result(line.(buf := []), [Send(line.buf)])
    else if c == KEY_M then EndOfLine(cfg, line)
    else if c == CTRL_J && cfg.protocol == Raw && line.buf != [] && line.buf[|line.buf| - 1] == CR then
      var unreturned := Erase(cfg, line, |line.buf| - 1);
      Then(unreturned, EndOfLine(cfg, unreturned.line))
    else Insert(cfg, line, c)
  }

  predicate KeysSafe(cfg: Config, line: Line, cs: seq<nat>)
    decreases |cs|
  {
    cs == [] || (KeySafe(cfg, line, cs[0]) && KeysSafe(cfg, Key(cfg, line, cs[0]).line, cs[1..]))
  }

  function Keys(cfg: Config, line: Line, cs: seq<nat>): Result
    requires KeysSafe(cfg, line, cs)
    decreases |cs|
  {
    if cs == [] then Result(line, [])
    else
      var r := Key(cfg, line, cs[0]);
      Then(r, Keys(cfg, r.line, cs[1..]))
  }

  // ---------------------------------------------------------------- chunks

  lemma ThenIsAssociative(r: Result, s: Result, t: Result)
    ensures Then(Then(r, s), t) == Then(r, Then(s, t))
  {
    assert (r.events + s.events) + t.events == r.events + (s.events + t.events);
  }

  /** However a key sequence is cut in two, the line and the events come out the same. */
  lemma {:induction false} KeysInTwoChunks(cfg: Config, line: Line, cs: seq<nat>, ds: seq<nat>)
    requires KeysSafe(cfg, line, cs + ds)
    ensures KeysSafe(cfg, line, cs) && KeysSafe(cfg, Keys(cfg, line, cs).line, ds)
    ensures Keys(cfg, line, cs + ds) == Then(Keys(cfg, line, cs), Keys(cfg, Keys(cfg, line, cs).line, ds))
    decreases |cs|
  {
    if cs == [] {
      assert cs + ds == ds;
    } else {
      hide Key, KeySafe, Then;
      assert (cs + ds)[1..] == cs[1..] + ds;
      var r := Key(cfg, line, cs[0]);
      KeysInTwoChunks(cfg, r.line, cs[1..], ds);
      var s := Keys(cfg, r.line, cs[1..]);
      ThenIsAssociative(r, s, Keys(cfg, s.line, ds));
      assert Keys(cfg, line, cs) == Then(r, s);
    }
  }

  // ---------------------------------------------------------------- no read before the buffer

  predicate HeadIsCharStart(cfg: Config, line: Line) {
    line.buf == [] || CharStart(cfg.utf, line.buf[0])
  }

  /** The byte a key would put into an empty buffer starts a character. */
  predicate KeyStartsChar(cfg: Config, line: Line, c: nat) {
    line.buf == [] ==> CharStart(cfg.utf, c % 256)
  }

  /** A buffer that begins with a character start keeps doing so, and is safe to erase from. */
  lemma KeyKeepsHead(cfg: Config, line: Line, c: nat)
    requires HeadIsCharStart(cfg, line) && KeyStartsChar(cfg, line, c)
    ensures KeySafe(cfg, line, c) && HeadIsCharStart(cfg, Key(cfg, line, c).line)
  {
    if line.buf != [] {
      assert CharStart(cfg.utf, line.buf[0]);
    }
  }

  /** No continuation byte ever arrives at an empty line. */
  predicate NoStrayContinuation(cfg: Config, line: Line, cs: seq<nat>)
    requires HeadIsCharStart(cfg, line)
    decreases |cs|
  {
    cs == [] ||
    (KeyStartsChar(cfg, line, cs[0]) &&
     (KeyKeepsHead(cfg, line, cs[0]);
      NoStrayContinuation(cfg, Key(cfg, line, cs[0]).line, cs[1..])))
  }

  /** As long as none does, erasing never runs past the front of the buffer. */
  lemma {:induction false} NoStrayMeansSafe(cfg: Config, line: Line, cs: seq<nat>)
    requires HeadIsCharStart(cfg, line) && NoStrayContinuation(cfg, line, cs)
    ensures KeysSafe(cfg, line, cs) && HeadIsCharStart(cfg, Keys(cfg, line, cs).line)
    decreases |cs|
  {
    if cs != [] {
      KeyKeepsHead(cfg, line, cs[0]);
      hide Key, KeySafe;
      NoStrayMeansSafe(cfg, Key(cfg, line, cs[0]).line, cs[1..]);
    }
  }

  /** Two keys are enough to look before the front: a lone continuation byte, then backspace. */
  lemma StrayContinuationIsUnsafe(cfg: Config)
    requires cfg.utf
    ensures EraseStop(cfg.utf, [0x80], 1) == -1
    ensures !KeysSafe(cfg, Line([], false), [0x80, KEY_H])
  {
    var line := Key(cfg, Line([], false), 0x80).line;
    assert line.buf == [0x80];
    assert !KeySafe(cfg, line, KEY_H);
    assert [0x80, KEY_H][1..] == [KEY_H];
  }

  function Erases(n: nat): (cs: seq<nat>)
    ensures |cs| == n && forall i | 0 <= i < n :: cs[i] == KEY_H
  {
    seq(n, i => KEY_H)
  }

  lemma OneEraseLess(n: nat)
    ensures Erases(n + 1)[0] == KEY_H && Erases(n + 1)[1..] == Erases(n)
  {
  }

  lemma {:induction false} ErasesAreSafe(cfg: Config, line: Line, n: nat)
    requires HeadIsCharStart(cfg, line)
    ensures KeysSafe(cfg, line, Erases(n))
    decreases n
  {
    hide Key, KeySafe;
    if n > 0 {
      OneEraseLess(n - 1);
      KeyKeepsHead(cfg, line, KEY_H);
      ErasesAreSafe(cfg, Key(cfg, line, KEY_H).line, n - 1);
    }
  }

  /** An erase key on a line that does not begin with a character start looks before the front, or
      leaves a shorter line of the kind; a quoted one is put into the line. */
  lemma EraseFromStrayHead(cfg: Config, line: Line)
    requires !HeadIsCharStart(cfg, line) && KeySafe(cfg, line, KEY_H)
    ensures var next := Key(cfg, line, KEY_H).line;
      !HeadIsCharStart(cfg, next) && !next.quote && (line.quote || |next.buf| < |line.buf|)
  {
    assert !CharStart(cfg.utf, line.buf[0]);
  }

  lemma {:induction false} ErasesReachTheFront(cfg: Config, line: Line) returns (n: nat)
    requires !HeadIsCharStart(cfg, line)
    ensures !KeysSafe(cfg, line, Erases(n))
    decreases line.quote, |line.buf|
  {
    hide Key, KeySafe, HeadIsCharStart;
    if !KeySafe(cfg, line, KEY_H) {
      n := 1;
    } else {
      EraseFromStrayHead(cfg, line);
      n := ErasesReachTheFront(cfg, Key(cfg, line, KEY_H).line);
      OneEraseLess(n);
      n := n + 1;
    }
  }

  /** However often the erase key is pressed, it never looks before the front if and only if the
      line is empty or begins with a character start. */
  lemma ErasingIsSafeExactly(cfg: Config, line: Line)
    ensures (forall n: nat :: KeysSafe(cfg, line, Erases(n))) <==> HeadIsCharStart(cfg, line)
  {
    hide KeysSafe, HeadIsCharStart;
    if HeadIsCharStart(cfg, line) {
      forall n: nat
        ensures KeysSafe(cfg, line, Erases(n))
      {
        ErasesAreSafe(cfg, line, n);
      }
    } else {
      var n := ErasesReachTheFront(cfg, line);
    }
  }

  /** Keys that may be broken off anywhere and followed by any number of erase keys. */
  ghost predicate SafeToEraseAnywhere(cfg: Config, line: Line, cs: seq<nat>) {
    forall k: nat, n: nat | k <= |cs| :: KeysSafe(cfg, line, cs[..k] + Erases(n))
  }

  lemma SafeStep(cfg: Config, line: Line, cs: seq<nat>)
    requires cs != []
    ensures KeysSafe(cfg, line, cs) <==> KeySafe(cfg, line, cs[0]) && KeysSafe(cfg, Key(cfg, line, cs[0]).line, cs[1..])
  {
    hide Key, KeySafe;
  }

  lemma SafeToEraseFurther(cfg: Config, line: Line, cs: seq<nat>, k: nat, n: nat)
    requires k < |cs| && KeySafe(cfg, line, cs[0])
    ensures KeysSafe(cfg, line, cs[..k + 1] + Erases(n))
      <==> KeysSafe(cfg, Key(cfg, line, cs[0]).line, cs[1..][..k] + Erases(n))
  {
    hide Key, KeySafe, KeysSafe;
    var all := cs[..k + 1] + Erases(n);
    assert all[0] == cs[0] && all[1..] == cs[1..][..k] + Erases(n);
    SafeStep(cfg, line, all);
  }

  lemma StrayHasNoHead(cfg: Config, line: Line, c: nat)
    requires !KeyStartsChar(cfg, line, c) && KeySafe(cfg, line, c)
    ensures !HeadIsCharStart(cfg, Key(cfg, line, c).line)
  {
    var b: byte := c % 256;
    assert 0x80 <= b < 0xC0;
  }

  /** Over whole runs: erasing is safe at every point if and only if no continuation byte ever
      arrives at an empty line. */
  lemma {:induction false} NoStrayExactly(cfg: Config, line: Line, cs: seq<nat>)
    requires HeadIsCharStart(cfg, line)
    ensures NoStrayContinuation(cfg, line, cs) <==> SafeToEraseAnywhere(cfg, line, cs)
    decreases |cs|
  {
    hide Key, KeySafe, KeysSafe, HeadIsCharStart, KeyStartsChar, SafeToEraseAnywhere;
    if cs == [] {
      NothingTyped(cfg, line);
    } else {
      HeadIsKeySafe(cfg, line, cs[0]);
      SafeAfterFirst(cfg, line, cs);
      var next := Key(cfg, line, cs[0]).line;
      if KeyStartsChar(cfg, line, cs[0]) {
        KeyKeepsHead(cfg, line, cs[0]);
        NoStrayExactly(cfg, next, cs[1..]);
      } else {
        StrayHasNoHead(cfg, line, cs[0]);
        SafeNow(cfg, next, cs[1..]);
      }
    }
  }

  lemma NothingTyped(cfg: Config, line: Line)
    requires HeadIsCharStart(cfg, line)
    ensures SafeToEraseAnywhere(cfg, line, [])
  {
    hide KeysSafe;
    var none: seq<nat> := [];
    forall k: nat, n: nat | k <= |none|
      ensures KeysSafe(cfg, line, none[..k] + Erases(n))
    {
      assert none[..k] + Erases(n) == Erases(n);
      ErasesAreSafe(cfg, line, n);
    }
  }

  lemma SafeNow(cfg: Config, line: Line, cs: seq<nat>)
    ensures SafeToEraseAnywhere(cfg, line, cs) ==> HeadIsCharStart(cfg, line)
  {
    hide KeysSafe, HeadIsCharStart;
    if SafeToEraseAnywhere(cfg, line, cs) {
      forall n: nat
        ensures KeysSafe(cfg, line, Erases(n))
      {
        assert cs[..0] + Erases(n) == Erases(n);
      }
      ErasingIsSafeExactly(cfg, line);
    }
  }

  lemma SafeAfterFirst(cfg: Config, line: Line, cs: seq<nat>)
    requires cs != [] && HeadIsCharStart(cfg, line) && KeySafe(cfg, line, cs[0])
    ensures SafeToEraseAnywhere(cfg, line, cs) <==> SafeToEraseAnywhere(cfg, Key(cfg, line, cs[0]).line, cs[1..])
  {
    hide Key, KeySafe, KeysSafe;
    var next := Key(cfg, line, cs[0]).line;
    if SafeToEraseAnywhere(cfg, line, cs) {
      forall k: nat, n: nat | k <= |cs[1..]|
        ensures KeysSafe(cfg, next, cs[1..][..k] + Erases(n))
      {
        SafeToEraseFurther(cfg, line, cs, k, n);
      }
    }
    if SafeToEraseAnywhere(cfg, next, cs[1..]) {
      forall k: nat, n: nat | k <= |cs|
        ensures KeysSafe(cfg, line, cs[..k] + Erases(n))
      {
        if k == 0 {
          assert cs[..k] + Erases(n) == Erases(n);
          ErasesAreSafe(cfg, line, n);
        } else {
          SafeToEraseFurther(cfg, line, cs, k - 1, n);
        }
      }
    }
  }

  lemma HeadIsKeySafe(cfg: Config, line: Line, c: nat)
    requires HeadIsCharStart(cfg, line)
    ensures KeySafe(cfg, line, c)
  {
    assert line.buf != [] ==> CharStart(cfg.utf, line.buf[0]);
  }

  // ---------------------------------------------------------------- the cursor

  /** The column of an unbounded terminal line after one byte of output. */
  function Advance(utf: bool, col: nat, b: byte): nat {
    if b == BACKSPACE then (if col > 0 then col - 1 else 0)
    else if b == CR then 0
    else if 32 <= b <= 126 || (!utf && b >= 0xA0) || (utf && b >= 0xC0) then col + 1
    else col
  }

  function Column(utf: bool, col: nat, text: seq<byte>): nat
    decreases |text|
  {
    if text == [] then col else Column(utf, Advance(utf, col, text[0]), text[1..])
  }

  /** The leftmost column the cursor is in, from `col` on. */
  function Leftmost(utf: bool, col: nat, text: seq<byte>): (m: nat)
    ensures m <= col
    decreases |text|
  {
    if text == [] then col
    else
      var m := Leftmost(utf, Advance(utf, col, text[0]), text[1..]);
      if m < col then m else col
  }

  /** What the terminal receives. */
  function Screen(events: seq<Event>): seq<byte> {
    if events == [] then []
    else (if events[0].Write? then events[0].text else []) + Screen(events[1..])
  }

  function Width(utf: bool, s: seq<byte>): nat {
    if s == [] then 0 else Width(utf, s[..|s| - 1]) + Plen(utf, s[|s| - 1])
  }

  lemma {:induction false} ColumnOfBoth(utf: bool, col: nat, a: seq<byte>, b: seq<byte>)
    ensures Column(utf, col, a + b) == Column(utf, Column(utf, col, a), b)
    ensures var l, m := Leftmost(utf, col, a), Leftmost(utf, Column(utf, col, a), b);
            Leftmost(utf, col, a + b) == if l < m then l else m
    decreases |a|
  {
    if a == [] {
      assert a + b == b;
    } else {
      assert (a + b)[1..] == a[1..] + b;
      ColumnOfBoth(utf, Advance(utf, col, a[0]), a[1..], b);
    }
  }

  lemma {:induction false} ScreenOfBoth(e: seq<Event>, f: seq<Event>)
    ensures Screen(e + f) == Screen(e) + Screen(f)
    decreases |e|
  {
    if e == [] {
      assert e + f == f;
    } else {
      assert (e + f)[1..] == e[1..] + f;
      ScreenOfBoth(e[1..], f);
    }
  }

  lemma {:induction false} WidthOfBoth(utf: bool, s: seq<byte>, t: seq<byte>)
    ensures Width(utf, s + t) == Width(utf, s) + Width(utf, t)
    decreases |t|
  {
    if t == [] {
      assert s + t == s;
    } else {
      var n := |t| - 1;
      assert (s + t)[..|s + t| - 1] == s + t[..n];
      WidthOfBoth(utf, s, t[..n]);
    }
  }

  /** The echo of a byte moves the cursor right by exactly the width its erasure assumes. */
  lemma EchoMatchesWidth(utf: bool, col: nat, c: byte)
    ensures Column(utf, col, Pwrite(utf, c)) == col + Plen(utf, c)
    ensures Leftmost(utf, col, Pwrite(utf, c)) == col
  {
    if |Pwrite(utf, c)| == 1 {
      OneByte(utf, col, c);
    } else {
      PrintableRun(utf, col, Pwrite(utf, c));
    }
  }

  lemma {:induction false} PrintableRun(utf: bool, col: nat, t: seq<byte>)
    requires forall i | 0 <= i < |t| :: 32 <= t[i] <= 126
    ensures Column(utf, col, t) == col + |t| && Leftmost(utf, col, t) == col
    decreases |t|
  {
    if t != [] {
      PrintableRun(utf, col + 1, t[1..]);
    }
  }

  lemma OneByte(utf: bool, col: nat, b: byte)
    ensures var n := Advance(utf, col, b);
            Column(utf, col, [b]) == n && Leftmost(utf, col, [b]) == if n < col then n else col
  {
    assert [b][1..] == [];
  }

  lemma OneRub(utf: bool, col: nat)
    requires col > 0
    ensures Column(utf, col, RUB) == col - 1 && Leftmost(utf, col, RUB) == col - 1
  {
    assert RUB == [BACKSPACE] + ([SPACE] + [BACKSPACE]);
    OneByte(utf, col, BACKSPACE);
    OneByte(utf, col - 1, SPACE);
    OneByte(utf, col, BACKSPACE);
    ColumnOfBoth(utf, col - 1, [SPACE], [BACKSPACE]);
    ColumnOfBoth(utf, col, [BACKSPACE], [SPACE] + [BACKSPACE]);
  }

  lemma {:induction false} ManyRubs(utf: bool, col: nat, n: nat)
    requires n <= col
    ensures Column(utf, col, Screen(Repeat(Write(RUB), n))) == col - n
    ensures Leftmost(utf, col, Screen(Repeat(Write(RUB), n))) == col - n
  {
    if n > 0 {
      ManyRubs(utf, col, n - 1);
      ScreenOfBoth(Repeat(Write(RUB), n - 1), [Write(RUB)]);
      OneWrite(RUB);
      ColumnOfBoth(utf, col, Screen(Repeat(Write(RUB), n - 1)), RUB);
      OneRub(utf, col - (n - 1));
    }
  }

  lemma OneWrite(t: seq<byte>)
    ensures Screen([Write(t)]) == t
  {
    assert [Write(t)][1..] == [];
    assert t + [] == t;
  }

  lemma NothingDrawn(utf: bool, col: nat)
    ensures Screen([]) == [] && Column(utf, col, []) == col && Leftmost(utf, col, []) == col
  {
  }

  /** Rubbing out `s` brings the cursor back to where `s` began, and never further left. */
  lemma {:induction false} RuboutReturns(utf: bool, base: nat, s: seq<byte>)
    ensures Column(utf, base + Width(utf, s), Screen(Rubout(utf, s))) == base
    ensures Leftmost(utf, base + Width(utf, s), Screen(Rubout(utf, s))) == base
    decreases |s|
  {
    hide Column, Leftmost, Screen, Repeat, Plen;
    NothingDrawn(utf, base);
    if s != [] {
      var n := |s| - 1;
      var w, col := Plen(utf, s[n]), base + Width(utf, s);
      var first := Repeat(Write(RUB), w);
      ScreenOfBoth(first, Rubout(utf, s[..n]));
      ColumnOfBoth(utf, col, Screen(first), Screen(Rubout(utf, s[..n])));
      ManyRubs(utf, col, w);
      RuboutReturns(utf, base, s[..n]);
    }
  }

  lemma {:induction false} RedrawShowsLine(utf: bool, base: nat, s: seq<byte>)
    ensures Column(utf, base, Screen(Redraw(utf, s))) == base + Width(utf, s)
    ensures Leftmost(utf, base, Screen(Redraw(utf, s))) == base
    decreases |s|
  {
    if s != [] {
      var n := |s| - 1;
      var p := Pwrite(utf, s[n]);
      RedrawShowsLine(utf, base, s[..n]);
      ScreenOfBoth(Redraw(utf, s[..n]), [Write(p)]);
      OneWrite(p);
      ColumnOfBoth(utf, base, Screen(Redraw(utf, s[..n])), p);
      EchoMatchesWidth(utf, base + Width(utf, s[..n]), s[n]);
    }
  }

  // ---------------------------------------------------------------- the cursor over whole runs

  predicate EndsLine(cfg: Config, line: Line, c: nat) {
    && !line.quote
    && (c == KEY_M || (c == CTRL_J && cfg.protocol == Raw && line.buf != [] && line.buf[|line.buf| - 1] == CR))
  }

  /** The column at which the edit begins after a key: the left margin after a redraw or a
      newline, the cursor itself after a line is sent without one, and unchanged otherwise. */
  function StartAfter(cfg: Config, line: Line, c: nat, base: nat): nat {
    if !line.quote && (c == CTRL_R || EndsLine(cfg, line, c)) then 0
    else if !line.quote && c == CTRL_D then base + Width(cfg.utf, line.buf)
    else base
  }

  /** A result whose output takes the cursor from `col` to the end of its line, which starts at
      `start`, without ever going left of `limit`. */
  predicate Draws(cfg: Config, r: Result, col: nat, start: nat, limit: nat) {
    && Column(cfg.utf, col, Screen(r.events)) == start + Width(cfg.utf, r.line.buf)
    && Leftmost(cfg.utf, col, Screen(r.events)) >= limit
  }

  lemma DrawsBoth(cfg: Config, r: Result, s: Result, col: nat, base: nat, start: nat, limit: nat)
    requires Draws(cfg, r, col, base, limit) && Draws(cfg, s, base + Width(cfg.utf, r.line.buf), start, limit)
    ensures Draws(cfg, Then(r, s), col, start, limit)
  {
    ScreenOfBoth(r.events, s.events);
    ColumnOfBoth(cfg.utf, col, Screen(r.events), Screen(s.events));
  }

  lemma EraseDraws(cfg: Config, line: Line, k: nat, base: nat)
    requires cfg.Echoing() && k <= |line.buf|
    ensures Draws(cfg, Erase(cfg, line, k), base + Width(cfg.utf, line.buf), base, base)
  {
    assert line.buf[..k] + line.buf[k..] == line.buf;
    WidthOfBoth(cfg.utf, line.buf[..k], line.buf[k..]);
    RuboutReturns(cfg.utf, base + Width(cfg.utf, line.buf[..k]), line.buf[k..]);
  }

  lemma InsertDraws(cfg: Config, line: Line, c: nat, base: nat)
    requires cfg.Echoing()
    ensures Draws(cfg, Insert(cfg, line, c), base + Width(cfg.utf, line.buf), base, base)
  {
    var b: byte := c % 256;
    OneWrite(Pwrite(cfg.utf, b));
    EchoMatchesWidth(cfg.utf, base + Width(cfg.utf, line.buf), b);
    assert (line.buf + [b])[..|line.buf|] == line.buf;
  }

  /** Events that write nothing leave the screen alone. */
  lemma Quiet(e: Event, f: seq<Event>)
    requires !e.Write?
    ensures Screen([e] + f) == Screen(f)
    ensures Screen([e]) == []
  {
    assert ([e] + f)[1..] == f;
    assert [e][1..] == [];
  }

  lemma NewlineDraws(cfg: Config, line: Line, col: nat)
    requires cfg.Echoing()
    ensures Draws(cfg, EndOfLine(cfg, line), col, 0, 0)
  {
    var r := EndOfLine(cfg, line);
    var n := |r.events| - 1;
    assert r.events[n] == Write(NEWLINE);
    assert r.events == r.events[..n] + [Write(NEWLINE)];
    ScreenOfBoth(r.events[..n], [Write(NEWLINE)]);
    OneWrite(NEWLINE);
    assert NEWLINE == [CR] + [LF];
    ColumnOfBoth(cfg.utf, col, Screen(r.events[..n]), NEWLINE);
    var mid := Column(cfg.utf, col, Screen(r.events[..n]));
    ColumnOfBoth(cfg.utf, mid, [CR], [LF]);
    OneByte(cfg.utf, mid, CR);
    OneByte(cfg.utf, 0, LF);
  }

  lemma RedrawDraws(cfg: Config, line: Line, col: nat)
    requires cfg.Echoing() && !line.quote
    ensures Draws(cfg, Key(cfg, line, CTRL_R), col, 0, 0)
  {
    var head: seq<byte> := [94, 82] + ([CR] + [LF]);
    assert head == [94, 82, CR, LF];
    ScreenOfBoth([Write(head)], Redraw(cfg.utf, line.buf));
    OneWrite(head);
    PrintableRun(cfg.utf, col, [94, 82]);
    ColumnOfBoth(cfg.utf, col, [94, 82], [CR] + [LF]);
    ColumnOfBoth(cfg.utf, col + 2, [CR], [LF]);
    OneByte(cfg.utf, col + 2, CR);
    OneByte(cfg.utf, 0, LF);
    ColumnOfBoth(cfg.utf, col, head, Screen(Redraw(cfg.utf, line.buf)));
    RedrawShowsLine(cfg.utf, 0, line.buf);
  }

  lemma SignalDraws(cfg: Config, line: Line, sp: Special, base: nat)
    ensures Draws(cfg, Result(line, [Signal(sp)]), base + Width(cfg.utf, line.buf), base, base)
    ensures Draws(cfg, Result(line, []), base + Width(cfg.utf, line.buf), base, base)
  {
    Quiet(Signal(sp), []);
  }

  lemma KillDraws(cfg: Config, line: Line, c: nat, base: nat)
    requires cfg.Echoing() && !line.quote && IsLineKill(c)
    ensures Draws(cfg, Key(cfg, line, c), base + Width(cfg.utf, line.buf), base, base)
  {
    hide Draws, Screen, Rubout, Insert, Width, Column, Leftmost;
    var col := base + Width(cfg.utf, line.buf);
    var empty := line.(buf := []);
    var killed := Then(Erase(cfg, line, 0), Result(empty, [Signal(EL)]));
    assert line.buf[..0] == [];
    assert Erase(cfg, line, 0).line == empty;
    EraseDraws(cfg, line, 0, base);
    SignalDraws(cfg, empty, EL, base);
    DrawsBoth(cfg, Erase(cfg, line, 0), Result(empty, [Signal(EL)]), col, base, base, base);
    if !cfg.telnetKeyboard {
      InsertDraws(cfg, empty, c, base);
      DrawsBoth(cfg, killed, Insert(cfg, empty, c), col, base, base, base);
    } else if c != CTRL_U {
      var sp := if c == CTRL_C then IP else if c == CTRL_Z then SUSP else ABORT;
      SignalDraws(cfg, empty, sp, base);
      DrawsBoth(cfg, killed, Result(empty, [Signal(sp)]), col, base, base, base);
    }
  }

  function Lesser(m: nat, n: nat): nat { if m < n then m else n }

  /** One key keeps the cursor at the end of the displayed line, and never moves it left of
      where the line begins. */
  lemma KeyKeepsCursor(cfg: Config, line: Line, c: nat, base: nat)
    requires cfg.Echoing() && KeySafe(cfg, line, c)
    ensures var start := StartAfter(cfg, line, c, base);
            Draws(cfg, Key(cfg, line, c), base + Width(cfg.utf, line.buf), start, Lesser(base, start))
  {
    var col := base + Width(cfg.utf, line.buf);
    hide Draws, Screen, Width, Column, Leftmost, Rubout, Redraw;
    if line.quote {
      InsertDraws(cfg, line, c, base);
    } else if IsEraseKey(c) || c == CTRL_W {
      if line.buf == [] {
        SignalDraws(cfg, line, EOF, base);
      } else {
        var k := if c == CTRL_W then LastWord(line.buf) else EraseStop(cfg.utf, line.buf, |line.buf|);
        EraseDraws(cfg, line, k, base);
      }
    } else if IsLineKill(c) {
      KillDraws(cfg, line, c, base);
    } else if c == CTRL_R {
      RedrawDraws(cfg, line, col);
    } else if c == CTRL_V {
      QuoteDraws(cfg, line, base);
    } else if c == CTRL_D {
      EofDraws(cfg, line, base);
    } else if EndsLine(cfg, line, c) {
      if c == KEY_M {
        NewlineDraws(cfg, line, col);
      } else {
        ReturnDraws(cfg, line, base);
      }
    } else {
      InsertDraws(cfg, line, c, base);
    }
  }

  lemma QuoteDraws(cfg: Config, line: Line, base: nat)
    ensures Draws(cfg, Result(line.(quote := true), []), base + Width(cfg.utf, line.buf), base, base)
  {
  }

  lemma EofDraws(cfg: Config, line: Line, base: nat)
    requires !line.quote
    ensures var start := base + Width(cfg.utf, line.buf);
            Draws(cfg, Key(cfg, line, CTRL_D), start, start, base)
  {
    Quiet(Signal(EOF), []);
    Quiet(Send(line.buf), []);
  }

  lemma ReturnDraws(cfg: Config, line: Line, base: nat)
    requires cfg.Echoing() && !line.quote && EndsLine(cfg, line, CTRL_J)
    ensures Draws(cfg, Key(cfg, line, CTRL_J), base + Width(cfg.utf, line.buf), 0, 0)
  {
    var n := |line.buf| - 1;
    var r := Erase(cfg, line, n);
    EraseDraws(cfg, line, n, base);
    NewlineDraws(cfg, r.line, base + Width(cfg.utf, r.line.buf));
    DrawsBoth(cfg, r, EndOfLine(cfg, r.line), base + Width(cfg.utf, line.buf), base, 0, 0);
  }

  function StartAfterAll(cfg: Config, line: Line, cs: seq<nat>, base: nat): nat
    requires KeysSafe(cfg, line, cs)
    decreases |cs|
  {
    if cs == [] then base
    else StartAfterAll(cfg, Key(cfg, line, cs[0]).line, cs[1..], StartAfter(cfg, line, cs[0], base))
  }

  /** The smallest column at which an edit begins while the keys are handled. */
  function LowestStart(cfg: Config, line: Line, cs: seq<nat>, base: nat): nat
    requires KeysSafe(cfg, line, cs)
    decreases |cs|
  {
    if cs == [] then base
    else Lesser(base, LowestStart(cfg, Key(cfg, line, cs[0]).line, cs[1..], StartAfter(cfg, line, cs[0], base)))
  }

  lemma {:induction false} LowestIsLow(cfg: Config, line: Line, cs: seq<nat>, base: nat)
    requires KeysSafe(cfg, line, cs)
    ensures LowestStart(cfg, line, cs, base) <= base
  {
  }

  lemma DrawsFurtherLeft(cfg: Config, r: Result, col: nat, start: nat, limit: nat, lower: nat)
    requires Draws(cfg, r, col, start, limit) && lower <= limit
    ensures Draws(cfg, r, col, start, lower)
  {
    hide Column, Leftmost, Screen, Width;
  }

  /** With echo on, after any keys the cursor stands just past the displayed line, at the column
      where the current edit began plus the widths of the buffered bytes, and nowhere in the run
      has it been left of every column at which an edit began. */
  lemma {:induction false} CursorIsAtEndOfLine(cfg: Config, line: Line, cs: seq<nat>, base: nat)
    requires cfg.Echoing() && KeysSafe(cfg, line, cs)
    ensures Draws(cfg, Keys(cfg, line, cs), base + Width(cfg.utf, line.buf),
                  StartAfterAll(cfg, line, cs, base), LowestStart(cfg, line, cs, base))
    decreases |cs|
  {
    hide *;
    if cs == [] {
      NoKeys(cfg, line, cs, base);
    } else {
      KeysStep(cfg, line, cs, base);
      var r := Key(cfg, line, cs[0]);
      var col, start := base + Width(cfg.utf, line.buf), StartAfter(cfg, line, cs[0], base);
      var s := Keys(cfg, r.line, cs[1..]);
      var end, low := StartAfterAll(cfg, r.line, cs[1..], start), LowestStart(cfg, r.line, cs[1..], start);
      var lowest := LowestStart(cfg, line, cs, base);
      LowestIsLow(cfg, r.line, cs[1..], start);
      LesserIsLower(base, start, low);
      KeyKeepsCursor(cfg, line, cs[0], base);
      DrawsFurtherLeft(cfg, r, col, start, Lesser(base, start), lowest);
      CursorIsAtEndOfLine(cfg, r.line, cs[1..], start);
      DrawsFurtherLeft(cfg, s, start + Width(cfg.utf, r.line.buf), end, low, lowest);
      DrawsBoth(cfg, r, s, col, start, end, lowest);
    }
  }

  lemma LesserIsLower(base: nat, start: nat, low: nat)
    requires low <= start
    ensures Lesser(base, low) <= Lesser(base, start) && Lesser(base, low) <= low
  {
  }

  lemma NoKeys(cfg: Config, line: Line, cs: seq<nat>, base: nat)
    requires cs == []
    ensures KeysSafe(cfg, line, cs) && Keys(cfg, line, cs) == Result(line, [])
    ensures StartAfterAll(cfg, line, cs, base) == base
    ensures Draws(cfg, Keys(cfg, line, cs), base + Width(cfg.utf, line.buf),
                  StartAfterAll(cfg, line, cs, base), LowestStart(cfg, line, cs, base))
  {
  }

  lemma KeysStep(cfg: Config, line: Line, cs: seq<nat>, base: nat)
    requires cs != [] && KeysSafe(cfg, line, cs)
    ensures KeySafe(cfg, line, cs[0])
    ensures var r := Key(cfg, line, cs[0]);
            && KeysSafe(cfg, r.line, cs[1..])
            && Keys(cfg, line, cs) == Then(r, Keys(cfg, r.line, cs[1..]))
            && StartAfterAll(cfg, line, cs, base)
                 == StartAfterAll(cfg, r.line, cs[1..], StartAfter(cfg, line, cs[0], base))
            && LowestStart(cfg, line, cs, base)
                 == Lesser(base, LowestStart(cfg, r.line, cs[1..], StartAfter(cfg, line, cs[0], base)))
  {
    hide Key, KeySafe;
  }

  // ---------------------------------------------------------------- what the back end gets

  /** What the back end gets: bytes, and codes for specials. */
  datatype Unit = Byte(b: byte) | Code(special: Special)

  function Bytes(s: seq<byte>): seq<Unit> {
    seq(|s|, i requires 0 <= i < |s| => Byte(s[i]))
  }

  function Units(e: Event): seq<Unit> {
    match e
    case Write(_) => []
    case Send(data) => Bytes(data)
    case Signal(special) => [Code(special)]
  }

  function ToBackEnd(events: seq<Event>): seq<Unit> {
    if events == [] then [] else Units(events[0]) + ToBackEnd(events[1..])
  }

  function Data(e: Event): seq<byte> {
    if e.Send? then e.data else []
  }

  function Sent(events: seq<Event>): seq<byte> {
    if events == [] then [] else Data(events[0]) + Sent(events[1..])
  }

  lemma {:induction false} ToBackEndOfBoth(e: seq<Event>, f: seq<Event>)
    ensures ToBackEnd(e + f) == ToBackEnd(e) + ToBackEnd(f)
    ensures Sent(e + f) == Sent(e) + Sent(f)
    decreases |e|
  {
    hide Units, Data;
    CatCons(e, f);
    if e == [] {
      CatEmpty(ToBackEnd(f));
      CatEmpty(Sent(f));
    } else {
      ToBackEndOfBoth(e[1..], f);
      CatAssoc(Units(e[0]), ToBackEnd(e[1..]), ToBackEnd(f));
      CatAssoc(Data(e[0]), Sent(e[1..]), Sent(f));
    }
  }

  lemma OneEvent(d: seq<byte>, sp: Special)
    ensures ToBackEnd([]) == [] && Sent([]) == []
    ensures ToBackEnd([Send(d)]) == Bytes(d) && Sent([Send(d)]) == d
    ensures ToBackEnd([Signal(sp)]) == [Code(sp)] && Sent([Signal(sp)]) == []
    ensures ToBackEnd([Write(d)]) == [] && Sent([Write(d)]) == []
  {
    assert [Send(d)][1..] == [] && [Signal(sp)][1..] == [] && [Write(d)][1..] == [];
    CatEmpty(d);
    CatEmpty(Bytes(d));
  }

  lemma {:induction false} WritesSendNothing(e: seq<Event>)
    requires forall i | 0 <= i < |e| :: e[i].Write?
    ensures ToBackEnd(e) == [] && Sent(e) == []
    decreases |e|
  {
    if e != [] {
      WritesSendNothing(e[1..]);
    }
  }

  lemma {:induction false} RuboutOnlyWrites(utf: bool, s: seq<byte>, n: nat)
    ensures forall i | 0 <= i < |Repeat(Write(RUB), n)| :: Repeat(Write(RUB), n)[i].Write?
    ensures forall i | 0 <= i < |Rubout(utf, s)| :: Rubout(utf, s)[i].Write?
    decreases |s|, n
  {
    if n > 0 {
      RuboutOnlyWrites(utf, s, n - 1);
    } else if s != [] {
      RuboutOnlyWrites(utf, s[..|s| - 1], Plen(utf, s[|s| - 1]));
    }
  }

  lemma {:induction false} RedrawOnlyWrites(utf: bool, s: seq<byte>)
    ensures forall i | 0 <= i < |Redraw(utf, s)| :: Redraw(utf, s)[i].Write?
    decreases |s|
  {
    if s != [] {
      RedrawOnlyWrites(utf, s[..|s| - 1]);
    }
  }

  lemma EraseSendsNothing(cfg: Config, line: Line, k: nat)
    requires k <= |line.buf|
    ensures ToBackEnd(Erase(cfg, line, k).events) == [] && Sent(Erase(cfg, line, k).events) == []
  {
    RuboutOnlyWrites(cfg.utf, line.buf[k..], 0);
    WritesSendNothing(Erase(cfg, line, k).events);
  }

  lemma InsertSendsNothing(cfg: Config, line: Line, c: nat)
    ensures ToBackEnd(Insert(cfg, line, c).events) == [] && Sent(Insert(cfg, line, c).events) == []
  {
    WritesSendNothing(Insert(cfg, line, c).events);
  }

  /** How the end of a line is told: CR LF in Raw protocol, Telnet's own code if that is asked
      for, and CR otherwise. */
  function Terminator(cfg: Config): seq<Unit> {
    match cfg.protocol
    case Raw => [Byte(CR), Byte(LF)]
    case Telnet => if cfg.telnetNewline then [Code(EOL)] else [Byte(CR)]
    case OtherProtocol => [Byte(CR)]
  }

  function TerminatorBytes(cfg: Config): seq<byte> {
    if cfg.protocol == Raw then [CR, LF] else if cfg.protocol == Telnet && cfg.telnetNewline then [] else [CR]
  }

  /** The return key sends the line and its end, whatever the protocol. */
  lemma ReturnSendsLine(cfg: Config, line: Line)
    requires !line.quote
    ensures var r := Key(cfg, line, KEY_M);
      && r.line == Line([], false)
      && ToBackEnd(r.events) == Bytes(line.buf) + Terminator(cfg)
      && Sent(r.events) == line.buf + TerminatorBytes(cfg)
  {
    hide ToBackEnd, Sent;
    var a := if line.buf != [] then [Send(line.buf)] else [];
    var b := if cfg.protocol == Raw then [Send(NEWLINE)]
             else if cfg.protocol == Telnet && cfg.telnetNewline then [Signal(EOL)]
             else [Send([CR])];
    var c := if cfg.Echoing() then [Write(NEWLINE)] else [];
    assert EndOfLine(cfg, line).events == a + b + c;
    ToBackEndOfBoth(a + b, c);
    ToBackEndOfBoth(a, b);
    OneEvent(line.buf, EOL);
    OneEvent(NEWLINE, EOL);
    OneEvent([CR], EOL);
    assert Bytes(NEWLINE) == [Byte(CR), Byte(LF)] && Bytes([CR]) == [Byte(CR)];
  }

  /** Control-D sends the line without an end, and at an empty line it signals the end of input. */
  lemma EofKeySendsLine(cfg: Config, line: Line)
    requires !line.quote
    ensures var r := Key(cfg, line, CTRL_D);
      && r.line == Line([], false)
      && Sent(r.events) == line.buf
      && ToBackEnd(r.events) == if line.buf == [] then [Code(EOF)] else Bytes(line.buf)
  {
    OneEvent(line.buf, EOF);
  }

  /** These keys take something out of the line. */
  predicate Destroys(c: nat) {
    IsEraseKey(c) || c == CTRL_W || IsLineKill(c)
  }

  /** None of them is pressed, except right behind the quote key. */
  predicate NothingDestroyed(quote: bool, cs: seq<nat>)
    decreases |cs|
  {
    cs == [] || ((quote || !Destroys(cs[0])) && NothingDestroyed(!quote && cs[0] == CTRL_V, cs[1..]))
  }

  /** What must be known of the line to read a key: its last byte, if there is one, and whether
      the key is quoted. */
  datatype Glance = Glance(last: Option<byte>, quote: bool)

  function At(line: Line): Glance {
    Glance(if line.buf == [] then None else Some(line.buf[|line.buf| - 1]), line.quote)
  }

  /** What a key stands for. */
  function Meant(cfg: Config, g: Glance, c: nat): seq<Unit> {
    if g.quote then [Byte(c % 256)]
    else if c == KEY_M then Terminator(cfg)
    else if c == CTRL_D then (if g.last == None then [Code(EOF)] else [])
    else if c == CTRL_R || c == CTRL_V then []
    else [Byte(c % 256)]
  }

  function Next(cfg: Config, g: Glance, c: nat): Glance {
    if g.quote then Glance(Some(c % 256), false)
    else if c == CTRL_V then Glance(g.last, true)
    else if c == CTRL_R then g
    else if c == KEY_M || c == CTRL_D then Glance(None, false)
    else if c == CTRL_J && cfg.protocol == Raw && g.last == Some(CR) then Glance(None, false)
    else Glance(Some(c % 256), false)
  }

  function MeantAll(cfg: Config, g: Glance, cs: seq<nat>): seq<Unit>
    decreases |cs|
  {
    if cs == [] then [] else Meant(cfg, g, cs[0]) + MeantAll(cfg, Next(cfg, g, cs[0]), cs[1..])
  }

  lemma ReturnEndsLine(cfg: Config, line: Line)
    requires !line.quote
    ensures Key(cfg, line, KEY_M) == EndOfLine(cfg, line)
  {
  }

  lemma ReturnByLineFeed(cfg: Config, line: Line)
    requires EndsLine(cfg, line, CTRL_J)
    ensures cfg.protocol == Raw && line.buf != [] && line.buf[|line.buf| - 1] == CR
    ensures var u := Erase(cfg, line, |line.buf| - 1);
      && u.line == Line(line.buf[..|line.buf| - 1], false)
      && Key(cfg, line, CTRL_J) == Then(u, Key(cfg, u.line, KEY_M))
  {
    hide EndOfLine, Rubout;
    ReturnEndsLine(cfg, Erase(cfg, line, |line.buf| - 1).line);
  }

  lemma RawReturnIsKept(cfg: Config, line: Line)
    requires EndsLine(cfg, line, CTRL_J)
    ensures var r := Key(cfg, line, CTRL_J);
      r.line == Line([], false) && ToBackEnd(r.events) == Bytes(line.buf) + [Byte(LF)]
  {
    hide ToBackEnd, Erase, Key, Sent, EndsLine;
    ReturnByLineFeed(cfg, line);
    var n := |line.buf| - 1;
    var u := Erase(cfg, line, n);
    EraseSendsNothing(cfg, line, n);
    ReturnSendsLine(cfg, u.line);
    ToBackEndOfBoth(u.events, Key(cfg, u.line, KEY_M).events);
    CatEmpty(ToBackEnd(Key(cfg, u.line, KEY_M).events));
    BytesBeforeCrLf(line.buf);
  }

  lemma BytesBeforeCrLf(s: seq<byte>)
    requires s != [] && s[|s| - 1] == CR
    ensures Bytes(s[..|s| - 1]) + [Byte(CR), Byte(LF)] == Bytes(s) + [Byte(LF)]
  {
  }

  lemma KeyIsKept(cfg: Config, line: Line, c: nat)
    requires line.quote || !Destroys(c)
    ensures KeySafe(cfg, line, c)
    ensures var r := Key(cfg, line, c);
      && At(r.line) == Next(cfg, At(line), c)
      && ToBackEnd(r.events) + Bytes(r.line.buf) == Bytes(line.buf) + Meant(cfg, At(line), c)
  {
    hide ToBackEnd, Sent, Redraw, Insert, EndOfLine, Terminator, Bytes, Rubout, EraseStop, LastWord;
    var r := Key(cfg, line, c);
    CatEmpty(Bytes(line.buf));
    NoBytes();
    if line.quote {
      InsertIsKept(cfg, line, c);
    } else if c == KEY_M {
      ReturnSendsLine(cfg, line);
      CatEmpty(ToBackEnd(r.events));
    } else if c == CTRL_D {
      EofKeySendsLine(cfg, line);
      CatEmpty(ToBackEnd(r.events));
      CatEmpty([Code(EOF)]);
    } else if c == CTRL_R {
      RedrawOnlyWrites(cfg.utf, line.buf);
      WritesSendNothing(r.events);
    } else if c == CTRL_V {
      WritesSendNothing(r.events);
    } else if EndsLine(cfg, line, c) {
      RawReturnIsKept(cfg, line);
      CatEmpty(ToBackEnd(r.events));
    } else {
      InsertIsKept(cfg, line, c);
    }
  }

  lemma NoBytes()
    ensures Bytes([]) == []
  {
  }

  lemma BytesOfOneMore(s: seq<byte>, b: byte)
    ensures Bytes(s + [b]) == Bytes(s) + [Byte(b)]
  {
  }

  lemma InsertIsKept(cfg: Config, line: Line, c: nat)
    ensures var r := Insert(cfg, line, c);
      && At(r.line) == Glance(Some(c % 256), false)
      && ToBackEnd(r.events) + Bytes(r.line.buf) == Bytes(line.buf) + [Byte(c % 256)]
  {
    hide ToBackEnd, Bytes, Pwrite;
    InsertSendsNothing(cfg, line, c);
    BytesOfOneMore(line.buf, c % 256);
    CatEmpty(Bytes(line.buf + [c % 256]));
  }

  /** Nothing typed is lost, doubled or moved, in any protocol: as long as no key takes anything
      out of the line, what the back end gets followed by what is still in the line is what was in
      the line followed by what the keys stand for. */
  lemma {:induction false} InputIsKept(cfg: Config, line: Line, cs: seq<nat>)
    requires NothingDestroyed(line.quote, cs)
    ensures KeysSafe(cfg, line, cs)
    ensures var r := Keys(cfg, line, cs);
      ToBackEnd(r.events) + Bytes(r.line.buf) == Bytes(line.buf) + MeantAll(cfg, At(line), cs)
    decreases |cs|
  {
    hide Key, KeySafe, ToBackEnd, Meant, Destroys;
    if cs == [] {
      OneEvent([], EOF);
      CatEmpty(Bytes(line.buf));
    } else {
      KeyIsKept(cfg, line, cs[0]);
      var r := Key(cfg, line, cs[0]);
      QuoteAfter(cfg, line, cs[0]);
      InputIsKept(cfg, r.line, cs[1..]);
      var t := Keys(cfg, r.line, cs[1..]);
      ToBackEndOfBoth(r.events, t.events);
      Rejoin(ToBackEnd(r.events), ToBackEnd(t.events), Bytes(r.line.buf), Bytes(t.line.buf), Bytes(line.buf),
             Meant(cfg, At(line), cs[0]), MeantAll(cfg, At(r.line), cs[1..]));
    }
  }

  lemma QuoteAfter(cfg: Config, line: Line, c: nat)
    requires line.quote || !Destroys(c)
    ensures KeySafe(cfg, line, c) && Key(cfg, line, c).line.quote == (!line.quote && c == CTRL_V)
  {
  }

  lemma Rejoin<T>(sent: seq<T>, more: seq<T>, mid: seq<T>, end: seq<T>, start: seq<T>, m: seq<T>, ms: seq<T>)
    requires sent + mid == start + m && more + end == mid + ms
    ensures (sent + more) + end == start + (m + ms)
  {
    assert (sent + more) + end == sent + (more + end);
    assert sent + (mid + ms) == (sent + mid) + ms;
    assert (start + m) + ms == start + (m + ms);
  }

  // ---------------------------------------------------------------- which key signals what

  function Codes(us: seq<Unit>): seq<Special> {
    if us == [] then [] else (if us[0].Code? then [us[0].special] else []) + Codes(us[1..])
  }

  lemma {:induction false} CodesOfBoth(us: seq<Unit>, vs: seq<Unit>)
    ensures Codes(us + vs) == Codes(us) + Codes(vs)
    decreases |us|
  {
    CatCons(us, vs);
    if us != [] {
      CodesOfBoth(us[1..], vs);
    }
  }

  lemma {:induction false} BytesAreNoCodes(s: seq<byte>)
    ensures Codes(Bytes(s)) == []
    decreases |s|
  {
    if s != [] {
      assert Bytes(s)[1..] == Bytes(s[1..]);
      BytesAreNoCodes(s[1..]);
    }
  }

  lemma OneCode(sp: Special)
    ensures Codes([]) == [] && Codes([Code(sp)]) == [sp]
  {
    assert [Code(sp)][1..] == [];
  }

  /** The specials of a key that is not quoted. Interrupt, suspend and abort go with the line only
      where Telnet keys are asked for; the end of input is told only at an empty line. */
  function SpecialsOf(cfg: Config, empty: bool, c: nat): seq<Special> {
    if c == CTRL_U then [EL]
    else if c == CTRL_C then if cfg.telnetKeyboard then [EL, IP] else [EL]
    else if c == CTRL_Z then if cfg.telnetKeyboard then [EL, SUSP] else [EL]
    else if c == CTRL_BACKSLASH then if cfg.telnetKeyboard then [EL, ABORT] else [EL]
    else if c == CTRL_D && empty then [EOF]
    else if c == KEY_M && cfg.protocol == Telnet && cfg.telnetNewline then [EOL]
    else []
  }

  function SpecialsOfAll(cfg: Config, line: Line, cs: seq<nat>): seq<Special>
    requires KeysSafe(cfg, line, cs)
    decreases |cs|
  {
    if cs == [] then []
    else
      (if line.quote then [] else SpecialsOf(cfg, line.buf == [], cs[0]))
      + SpecialsOfAll(cfg, Key(cfg, line, cs[0]).line, cs[1..])
  }

  /** A line kill sends nothing of the line and leaves it empty, or with the key in it where
      Telnet keys are off. */
  lemma KillGivesUpLine(cfg: Config, line: Line, c: nat)
    requires !line.quote && IsLineKill(c)
    ensures var r := Key(cfg, line, c);
      && r.line == Line(if cfg.telnetKeyboard then [] else [c], false)
      && Sent(r.events) == [] && Codes(ToBackEnd(r.events)) == SpecialsOf(cfg, line.buf == [], c)
  {
    hide ToBackEnd, Sent, Rubout, Pwrite, Codes;
    var empty := line.(buf := []);
    var rubs := Erase(cfg, line, 0).events;
    EraseSendsNothing(cfg, line, 0);
    InsertSendsNothing(cfg, empty, c);
    ToBackEndOfBoth(rubs, [Signal(EL)]);
    OneEvent([], EL);
    OneEvent([], IP);
    OneEvent([], SUSP);
    OneEvent([], ABORT);
    ToBackEndOfBoth(rubs + [Signal(EL)], [Signal(IP)]);
    ToBackEndOfBoth(rubs + [Signal(EL)], [Signal(SUSP)]);
    ToBackEndOfBoth(rubs + [Signal(EL)], [Signal(ABORT)]);
    ToBackEndOfBoth(rubs + [Signal(EL)], Insert(cfg, empty, c).events);
    CatEmpty([Code(EL)]);
    CodesOfKill();
  }

  lemma CodesOfKill()
    ensures Codes([Code(EL)]) == [EL] && Codes([Code(EL)] + [Code(IP)]) == [EL, IP]
    ensures Codes([Code(EL)] + [Code(SUSP)]) == [EL, SUSP] && Codes([Code(EL)] + [Code(ABORT)]) == [EL, ABORT]
  {
    hide Codes;
    CodesOfBoth([Code(EL)], [Code(IP)]);
    CodesOfBoth([Code(EL)], [Code(SUSP)]);
    CodesOfBoth([Code(EL)], [Code(ABORT)]);
    OneCode(EL);
    OneCode(IP);
    OneCode(SUSP);
    OneCode(ABORT);
  }

  lemma CodesOfMeant(cfg: Config, line: Line, c: nat)
    requires line.quote || !Destroys(c)
    ensures Codes(Meant(cfg, At(line), c)) == if line.quote then [] else SpecialsOf(cfg, line.buf == [], c)
  {
    BytesAreNoCodes([c % 256]);
    BytesAreNoCodes([CR, LF]);
    assert Bytes([c % 256]) == [Byte(c % 256)] && Bytes([CR, LF]) == [Byte(CR), Byte(LF)];
    BytesAreNoCodes([CR]);
    assert Bytes([CR]) == [Byte(CR)];
    OneCode(EOF);
    OneCode(EOL);
  }

  lemma KeySignals(cfg: Config, line: Line, c: nat)
    requires KeySafe(cfg, line, c)
    ensures Codes(ToBackEnd(Key(cfg, line, c).events)) == if line.quote then [] else SpecialsOf(cfg, line.buf == [], c)
  {
    hide ToBackEnd, Sent, Codes, Rubout, EraseStop, LastWord, Meant;
    var r := Key(cfg, line, c);
    if line.quote || !Destroys(c) {
      KeyIsKept(cfg, line, c);
      CodesOfMeant(cfg, line, c);
      CodesOfBoth(ToBackEnd(r.events), Bytes(r.line.buf));
      CatEmpty(Codes(ToBackEnd(r.events)));
      CatEmpty(Codes(Meant(cfg, At(line), c)));
      CodesOfBoth(Bytes(line.buf), Meant(cfg, At(line), c));
      BytesAreNoCodes(line.buf);
      BytesAreNoCodes(r.line.buf);
    } else if IsLineKill(c) {
      KillGivesUpLine(cfg, line, c);
    } else {
      OneCode(EL);
      OneEvent([], EL);
      if line.buf != [] {
        var k := if c == CTRL_W then LastWord(line.buf) else EraseStop(cfg.utf, line.buf, |line.buf|);
        EraseSendsNothing(cfg, line, k);
      }
    }
  }

  /** Over any keys the specials sent are those of the keys, in order. */
  lemma {:induction false} SignalsFollowKeys(cfg: Config, line: Line, cs: seq<nat>)
    requires KeysSafe(cfg, line, cs)
    ensures Codes(ToBackEnd(Keys(cfg, line, cs).events)) == SpecialsOfAll(cfg, line, cs)
    decreases |cs|
  {
    hide Key, KeySafe, ToBackEnd, SpecialsOf;
    if cs != [] {
      var r := Key(cfg, line, cs[0]);
      KeySignals(cfg, line, cs[0]);
      SignalsFollowKeys(cfg, r.line, cs[1..]);
      var t := Keys(cfg, r.line, cs[1..]);
      ToBackEndOfBoth(r.events, t.events);
      CodesOfBoth(ToBackEnd(r.events), ToBackEnd(t.events));
    } else {
      OneEvent([], EL);
    }
  }

  // ---------------------------------------------------------------- what the erase keys undo

  /** Text that is put into the line byte by byte. */
  predicate Ordinary(s: seq<byte>) {
    forall i | 0 <= i < |s| :: !EditingControl(s[i]) && s[i] != LF
  }

  lemma {:induction false} TypingAppends(cfg: Config, line: Line, s: seq<byte>)
    requires !line.quote && Ordinary(s)
    ensures KeysSafe(cfg, line, AsNats(s)) && Keys(cfg, line, AsNats(s)).line == Line(line.buf + s, false)
    decreases |s|
  {
    if s == [] {
      CatEmpty(line.buf);
    } else {
      hide Erase, EndOfLine, Pwrite;
      var next := Line(line.buf + [s[0]], false);
      assert Key(cfg, line, s[0]).line == next;
      assert AsNats(s)[1..] == AsNats(s[1..]);
      TypingAppends(cfg, next, s[1..]);
      assert next.buf + s[1..] == line.buf + s;
    }
  }

  /** A byte, or in UTF-8 one that is no continuation byte and any that are. */
  predicate OneCharacter(utf: bool, ch: seq<byte>) {
    if utf then ch != [] && !(0x80 <= ch[0] < 0xC0) && forall i | 0 < i < |ch| :: 0x80 <= ch[i] < 0xC0
    else |ch| == 1
  }

  /** The characters that end a word. */
  const WHITE: seq<byte> := [32, 9, 10, 11, 12, 13]

  /** Typing a character, of however many bytes, and then an erase key leaves the line as it was. */
  lemma TypedCharacterIsErased(cfg: Config, line: Line, ch: seq<byte>, key: nat)
    requires !line.quote && Ordinary(ch) && OneCharacter(cfg.utf, ch) && IsEraseKey(key)
    ensures KeysSafe(cfg, line, AsNats(ch))
    ensures var typed := Keys(cfg, line, AsNats(ch)).line;
      KeySafe(cfg, typed, key) && Key(cfg, typed, key).line == line
  {
    hide Keys, KeysSafe, Rubout;
    TypingAppends(cfg, line, ch);
    var all, n := line.buf + ch, |line.buf|;
    assert all[n] == ch[0];
    assert forall i | n < i < |all| :: all[i] == ch[i - n];
    assert CharStart(cfg.utf, all[n]) && forall i | n < i < |all| :: !CharStart(cfg.utf, all[i]);
    assert EraseStop(cfg.utf, all, |all|) == n;
    assert all[..n] == line.buf;
  }

  lemma LastWordIsUnique(buf: seq<byte>, n: nat)
    requires n < |buf| && WordStop(buf, n) && forall j: nat | n < j < |buf| :: !WordStop(buf, j)
    ensures LastWord(buf) == n
  {
    hide WordStop;
  }

  lemma WordKeyCutsTo(cfg: Config, line: Line, n: nat)
    requires !line.quote && line.buf != [] && LastWord(line.buf) == n
    ensures Key(cfg, line, CTRL_W).line == Line(line.buf[..n], false)
  {
    hide Rubout, LastWord;
  }

  lemma SpacesAreWhite()
    ensures forall c :: IsSpace(c) <==> c in WHITE
  {
  }

  /** Typing a word, and any spaces, where one may begin and then the word key leaves the line as
      it was. */
  lemma TypedWordIsErased(cfg: Config, line: Line, word: seq<byte>, spaces: seq<byte>)
    requires !line.quote && (line.buf == [] || line.buf[|line.buf| - 1] in WHITE)
    requires word != [] && Ordinary(word) && forall i | 0 <= i < |word| :: word[i] !in WHITE
    requires forall i | 0 <= i < |spaces| :: spaces[i] == SPACE
    ensures KeysSafe(cfg, line, AsNats(word + spaces))
    ensures Key(cfg, Keys(cfg, line, AsNats(word + spaces)).line, CTRL_W).line == line
  {
    hide Keys, KeysSafe, Key, LastWord, IsSpace;
    SpacesAreWhite();
    TypingAppends(cfg, line, word + spaces);
    var all, n := line.buf + (word + spaces), |line.buf|;
    assert all[n] == word[0] && WordStop(all, n);
    forall j: nat | n < j < |all|
      ensures !WordStop(all, j)
    {
      assert all[j] == (word + spaces)[j - n] && all[j - 1] == (word + spaces)[j - 1 - n];
    }
    LastWordIsUnique(all, n);
    WordKeyCutsTo(cfg, Line(all, false), n);
    assert all[..n] == line.buf;
  }

  // ---------------------------------------------------------------- what the screen shows

  /** A row of the terminal, without a right margin, and the column of the cursor. */
  datatype Row = Row(cell: nat -> byte, col: nat)

  function Put(utf: bool, row: Row, b: byte): Row {
    if b == BACKSPACE then row.(col := if row.col > 0 then row.col - 1 else 0)
    else if b == CR then row.(col := 0)
    else if b == LF then row.(cell := _ => SPACE)
    else if Advance(utf, row.col, b) == row.col then row
    else Row((i: nat) => if i == row.col then b else row.cell(i), row.col + 1)
  }

  function PutAll(utf: bool, row: Row, text: seq<byte>): Row
    decreases |text|
  {
    if text == [] then row else PutAll(utf, Put(utf, row, text[0]), text[1..])
  }

  lemma {:induction false} PutBoth(utf: bool, row: Row, a: seq<byte>, b: seq<byte>)
    ensures PutAll(utf, row, a + b) == PutAll(utf, PutAll(utf, row, a), b)
    decreases |a|
  {
    hide Put;
    CatCons(a, b);
    if a != [] {
      PutBoth(utf, Put(utf, row, a[0]), a[1..], b);
    }
  }

  lemma PutOne(utf: bool, row: Row, b: byte)
    ensures PutAll(utf, row, [b]) == Put(utf, row, b)
  {
    assert [b][1..] == [];
  }

  /** What stands on the screen for the line: of bytes that share a column the first one. */
  function Shown(utf: bool, s: seq<byte>): (t: seq<byte>)
    ensures |t| == Width(utf, s)
  {
    if s == [] then []
    else
      var c := s[|s| - 1];
      Shown(utf, s[..|s| - 1]) + if Plen(utf, c) == 0 then [] else Pwrite(utf, c)
  }

  /** The row holds the line from `start` on, nothing else behind it, and the cursor at its end. */
  ghost predicate Shows(utf: bool, row: Row, start: nat, s: seq<byte>) {
    && row.col == start + Width(utf, s)
    && forall i: nat | i >= start ::
         row.cell(i) == if i < row.col then Shown(utf, s)[i - start] else SPACE
  }

  /** Bytes that take up a column are written one behind the other. */
  lemma {:induction false} PutPrintables(utf: bool, row: Row, t: seq<byte>)
    requires forall i | 0 <= i < |t| :: Advance(utf, 0, t[i]) == 1
    ensures var r := PutAll(utf, row, t);
      && r.col == row.col + |t|
      && forall i: nat :: r.cell(i) == if row.col <= i < r.col then t[i - row.col] else row.cell(i)
    decreases |t|
  {
    if t != [] {
      PutPrintables(utf, Put(utf, row, t[0]), t[1..]);
    }
  }

  lemma PwritePrintable(utf: bool, c: byte)
    ensures Plen(utf, c) > 0 ==> |Pwrite(utf, c)| == Plen(utf, c)
    ensures Plen(utf, c) > 0 ==> forall i | 0 <= i < |Pwrite(utf, c)| :: Advance(utf, 0, Pwrite(utf, c)[i]) == 1
  {
  }

  lemma ShownOneMore(utf: bool, s: seq<byte>, c: byte)
    ensures Width(utf, s + [c]) == Width(utf, s) + Plen(utf, c)
    ensures Shown(utf, s + [c]) == Shown(utf, s) + if Plen(utf, c) == 0 then [] else Pwrite(utf, c)
  {
    hide Pwrite, Plen;
    assert (s + [c])[..|s|] == s;
  }

  lemma WideByteIsPut(utf: bool, row: Row, c: byte)
    requires Plen(utf, c) > 0
    ensures var r, p := PutAll(utf, row, Pwrite(utf, c)), Pwrite(utf, c);
      && r.col == row.col + |p| && |p| == Plen(utf, c)
      && forall i: nat :: r.cell(i) == if row.col <= i < r.col then p[i - row.col] else row.cell(i)
  {
    hide Pwrite, Plen, PutAll;
    PwritePrintable(utf, c);
    PutPrintables(utf, row, Pwrite(utf, c));
  }

  lemma NarrowByteIsPut(utf: bool, row: Row, c: byte)
    requires Plen(utf, c) == 0
    ensures PutAll(utf, row, Pwrite(utf, c)) == row
  {
    PutOne(utf, row, c);
  }

  lemma EchoShows(utf: bool, row: Row, start: nat, s: seq<byte>, c: byte)
    requires Shows(utf, row, start, s)
    ensures Shows(utf, PutAll(utf, row, Pwrite(utf, c)), start, s + [c])
  {
    hide Pwrite, Plen, PutAll, Shown, Width;
    ShownOneMore(utf, s, c);
    if Plen(utf, c) == 0 {
      NarrowByteIsPut(utf, row, c);
      CatEmpty(Shown(utf, s));
    } else {
      WideByteIsPut(utf, row, c);
    }
  }

  lemma OneRubBlanks(utf: bool, row: Row)
    requires row.col > 0
    ensures var r := PutAll(utf, row, RUB);
      r.col == row.col - 1 && forall i: nat :: r.cell(i) == if i == r.col then SPACE else row.cell(i)
  {
    hide PutAll;
    assert RUB == [BACKSPACE] + ([SPACE] + [BACKSPACE]);
    PutBoth(utf, row, [BACKSPACE], [SPACE] + [BACKSPACE]);
    PutOne(utf, row, BACKSPACE);
    var r := Put(utf, row, BACKSPACE);
    PutBoth(utf, r, [SPACE], [BACKSPACE]);
    PutOne(utf, r, SPACE);
    PutOne(utf, Put(utf, r, SPACE), BACKSPACE);
  }

  lemma {:induction false} RubsBlank(utf: bool, row: Row, n: nat)
    requires n <= row.col
    ensures var r := PutAll(utf, row, Screen(Repeat(Write(RUB), n)));
      && r.col == row.col - n
      && forall i: nat :: r.cell(i) == if r.col <= i < row.col then SPACE else row.cell(i)
  {
    hide PutAll;
    if n == 0 {
      NothingPut(utf, row);
    } else {
      var rubs := Repeat(Write(RUB), n - 1);
      RubsBlank(utf, row, n - 1);
      ScreenOfBoth(rubs, [Write(RUB)]);
      OneWrite(RUB);
      PutBoth(utf, row, Screen(rubs), RUB);
      OneRubBlanks(utf, PutAll(utf, row, Screen(rubs)));
    }
  }

  lemma NothingPut(utf: bool, row: Row)
    ensures Screen([]) == [] && PutAll(utf, row, []) == row
  {
  }

  lemma {:induction false} RuboutShows(utf: bool, row: Row, start: nat, s: seq<byte>, k: nat)
    requires k <= |s| && Shows(utf, row, start, s)
    ensures Shows(utf, PutAll(utf, row, Screen(Rubout(utf, s[k..]))), start, s[..k])
    decreases |s|
  {
    hide Shows, PutAll, Screen, Plen, Repeat, Rubout;
    var t := s[k..];
    RuboutUnfolds(utf, t);
    if t == [] {
      assert s[..k] == s;
      NothingPut(utf, row);
    } else {
      var n := |s| - 1;
      var c := s[n];
      assert t[|t| - 1] == c && t[..|t| - 1] == s[..n][k..] && s[..n][..k] == s[..k];
      var rubs := Repeat(Write(RUB), Plen(utf, c));
      ScreenOfBoth(rubs, Rubout(utf, s[..n][k..]));
      PutBoth(utf, row, Screen(rubs), Screen(Rubout(utf, s[..n][k..])));
      LastRubbedOut(utf, row, start, s);
      RuboutShows(utf, PutAll(utf, row, Screen(rubs)), start, s[..n], k);
    }
  }

  lemma LastRubbedOut(utf: bool, row: Row, start: nat, s: seq<byte>)
    requires s != [] && Shows(utf, row, start, s)
    ensures var n := |s| - 1;
      Shows(utf, PutAll(utf, row, Screen(Repeat(Write(RUB), Plen(utf, s[n])))), start, s[..n])
  {
    hide PutAll, Screen, Repeat, Plen, Pwrite;
    RubsBlank(utf, row, Plen(utf, s[|s| - 1]));
  }

  /** A new row is blank and the cursor at its left. */
  lemma NewRowShows(utf: bool, row: Row)
    ensures Shows(utf, PutAll(utf, row, NEWLINE), 0, [])
  {
    hide PutAll;
    assert NEWLINE == [CR] + [LF];
    PutBoth(utf, row, [CR], [LF]);
    PutOne(utf, row, CR);
    PutOne(utf, Put(utf, row, CR), LF);
  }

  lemma {:induction false} RedrawShows(utf: bool, row: Row, s: seq<byte>)
    requires Shows(utf, row, 0, [])
    ensures Shows(utf, PutAll(utf, row, Screen(Redraw(utf, s))), 0, s)
    decreases |s|
  {
    hide Shows, PutAll, Screen, Pwrite;
    if s == [] {
      NothingPut(utf, row);
    } else {
      var n := |s| - 1;
      var p := Pwrite(utf, s[n]);
      RedrawShows(utf, row, s[..n]);
      ScreenOfBoth(Redraw(utf, s[..n]), [Write(p)]);
      OneWrite(p);
      PutBoth(utf, row, Screen(Redraw(utf, s[..n])), p);
      EchoShows(utf, PutAll(utf, row, Screen(Redraw(utf, s[..n]))), 0, s[..n], s[n]);
      assert s[..n] + [s[n]] == s;
    }
  }

  /** The output of a result leaves its line on the screen. */
  ghost predicate Leaves(cfg: Config, r: Result, row: Row, start: nat) {
    Shows(cfg.utf, PutAll(cfg.utf, row, Screen(r.events)), start, r.line.buf)
  }

  lemma EraseLeaves(cfg: Config, line: Line, k: nat, row: Row, base: nat)
    requires cfg.Echoing() && k <= |line.buf| && Shows(cfg.utf, row, base, line.buf)
    ensures Leaves(cfg, Erase(cfg, line, k), row, base)
  {
    hide Shows, PutAll, Screen, Rubout;
    RuboutShows(cfg.utf, row, base, line.buf, k);
  }

  lemma InsertLeaves(cfg: Config, line: Line, c: nat, row: Row, base: nat)
    requires cfg.Echoing() && Shows(cfg.utf, row, base, line.buf)
    ensures Leaves(cfg, Insert(cfg, line, c), row, base)
  {
    hide Shows, PutAll, Screen, Pwrite;
    var b: byte := c % 256;
    OneWrite(Pwrite(cfg.utf, b));
    EchoShows(cfg.utf, row, base, line.buf, b);
  }

  lemma QuietLeaves(cfg: Config, line: Line, e: Event, row: Row, base: nat)
    requires !e.Write? && Shows(cfg.utf, row, base, line.buf)
    ensures Leaves(cfg, Result(line, [e]), row, base) && Leaves(cfg, Result(line, []), row, base)
  {
    hide Shows;
    Quiet(e, []);
    NothingPut(cfg.utf, row);
  }

  lemma LeavesBoth(cfg: Config, r: Result, s: Result, row: Row, start: nat)
    requires Leaves(cfg, s, PutAll(cfg.utf, row, Screen(r.events)), start)
    ensures Leaves(cfg, Then(r, s), row, start)
  {
    hide Shows, PutAll, Screen;
    ScreenOfBoth(r.events, s.events);
    PutBoth(cfg.utf, row, Screen(r.events), Screen(s.events));
  }

  lemma NewlineLeaves(cfg: Config, line: Line, row: Row)
    requires cfg.Echoing()
    ensures Leaves(cfg, EndOfLine(cfg, line), row, 0)
  {
    hide Shows, PutAll, Screen;
    var r := EndOfLine(cfg, line);
    var n := |r.events| - 1;
    assert r.events[n] == Write(NEWLINE);
    assert r.events == r.events[..n] + [Write(NEWLINE)];
    ScreenOfBoth(r.events[..n], [Write(NEWLINE)]);
    OneWrite(NEWLINE);
    PutBoth(cfg.utf, row, Screen(r.events[..n]), NEWLINE);
    NewRowShows(cfg.utf, PutAll(cfg.utf, row, Screen(r.events[..n])));
  }

  lemma RedrawLeaves(cfg: Config, line: Line, row: Row)
    requires cfg.Echoing() && !line.quote
    ensures Leaves(cfg, Key(cfg, line, CTRL_R), row, 0)
  {
    hide Shows, PutAll, Screen, Redraw;
    var head: seq<byte> := [94, 82] + NEWLINE;
    assert head == [94, 82, CR, LF];
    ScreenOfBoth([Write(head)], Redraw(cfg.utf, line.buf));
    OneWrite(head);
    PutBoth(cfg.utf, row, head, Screen(Redraw(cfg.utf, line.buf)));
    PutBoth(cfg.utf, row, [94, 82], NEWLINE);
    NewRowShows(cfg.utf, PutAll(cfg.utf, row, [94, 82]));
    RedrawShows(cfg.utf, PutAll(cfg.utf, row, head), line.buf);
  }

  lemma KillLeaves(cfg: Config, line: Line, c: nat, row: Row, base: nat)
    requires cfg.Echoing() && !line.quote && IsLineKill(c) && Shows(cfg.utf, row, base, line.buf)
    ensures Leaves(cfg, Key(cfg, line, c), row, base)
  {
    hide Shows, PutAll, Screen, Rubout, Insert;
    var empty := line.(buf := []);
    var erased := Erase(cfg, line, 0);
    var killed := Then(erased, Result(empty, [Signal(EL)]));
    assert line.buf[..0] == [] && erased.line == empty;
    EraseLeaves(cfg, line, 0, row, base);
    QuietLeaves(cfg, empty, Signal(EL), PutAll(cfg.utf, row, Screen(erased.events)), base);
    LeavesBoth(cfg, erased, Result(empty, [Signal(EL)]), row, base);
    var next := PutAll(cfg.utf, row, Screen(killed.events));
    if !cfg.telnetKeyboard {
      InsertLeaves(cfg, empty, c, next, base);
      LeavesBoth(cfg, killed, Insert(cfg, empty, c), row, base);
    } else if c != CTRL_U {
      var sp := if c == CTRL_C then IP else if c == CTRL_Z then SUSP else ABORT;
      QuietLeaves(cfg, empty, Signal(sp), next, base);
      LeavesBoth(cfg, killed, Result(empty, [Signal(sp)]), row, base);
    }
  }

  lemma EofLeaves(cfg: Config, line: Line, row: Row, base: nat)
    requires !line.quote && Shows(cfg.utf, row, base, line.buf)
    ensures Leaves(cfg, Key(cfg, line, CTRL_D), row, base + Width(cfg.utf, line.buf))
  {
    Quiet(Signal(EOF), []);
    Quiet(Send(line.buf), []);
    NothingPut(cfg.utf, row);
  }

  lemma ReturnLeaves(cfg: Config, line: Line, row: Row)
    requires cfg.Echoing() && EndsLine(cfg, line, CTRL_J)
    ensures Leaves(cfg, Key(cfg, line, CTRL_J), row, 0)
  {
    hide Leaves, Erase, Key;
    ReturnByLineFeed(cfg, line);
    var u := Erase(cfg, line, |line.buf| - 1);
    ReturnEndsLine(cfg, u.line);
    NewlineLeaves(cfg, u.line, PutAll(cfg.utf, row, Screen(u.events)));
    LeavesBoth(cfg, u, EndOfLine(cfg, u.line), row, 0);
  }

  lemma KeyLeavesLine(cfg: Config, line: Line, c: nat, row: Row, base: nat)
    requires cfg.Echoing() && KeySafe(cfg, line, c) && Shows(cfg.utf, row, base, line.buf)
    ensures Leaves(cfg, Key(cfg, line, c), row, StartAfter(cfg, line, c, base))
  {
    hide Leaves, Shows, Screen, PutAll, Width, Rubout, Redraw;
    if line.quote {
      InsertLeaves(cfg, line, c, row, base);
    } else if IsEraseKey(c) || c == CTRL_W {
      if line.buf == [] {
        QuietLeaves(cfg, line, Signal(EOF), row, base);
      } else {
        var k := if c == CTRL_W then LastWord(line.buf) else EraseStop(cfg.utf, line.buf, |line.buf|);
        EraseLeaves(cfg, line, k, row, base);
      }
    } else if IsLineKill(c) {
      KillLeaves(cfg, line, c, row, base);
    } else if c == CTRL_R {
      RedrawLeaves(cfg, line, row);
    } else if c == CTRL_V {
      QuietLeaves(cfg, line.(quote := true), Signal(EOF), row, base);
    } else if c == CTRL_D {
      EofLeaves(cfg, line, row, base);
    } else if EndsLine(cfg, line, c) {
      if c == KEY_M {
        NewlineLeaves(cfg, line, row);
      } else {
        ReturnLeaves(cfg, line, row);
      }
    } else {
      InsertLeaves(cfg, line, c, row, base);
    }
  }

  /** With echo on, whatever keys are pressed, the row of the cursor shows the line being edited
      from where the edit began, and nothing behind it. */
  lemma {:induction false} ScreenShowsLine(cfg: Config, line: Line, cs: seq<nat>, row: Row, base: nat)
    requires cfg.Echoing() && KeysSafe(cfg, line, cs) && Shows(cfg.utf, row, base, line.buf)
    ensures Leaves(cfg, Keys(cfg, line, cs), row, StartAfterAll(cfg, line, cs, base))
    decreases |cs|
  {
    hide *;
    if cs == [] {
      NoKeys(cfg, line, cs, base);
      QuietLeaves(cfg, line, Signal(EOF), row, base);
    } else {
      KeysStep(cfg, line, cs, base);
      var r := Key(cfg, line, cs[0]);
      var start := StartAfter(cfg, line, cs[0], base);
      KeyLeavesLine(cfg, line, cs[0], row, base);
      LeavesIsShown(cfg, r, row, start);
      ScreenShowsLine(cfg, r.line, cs[1..], PutAll(cfg.utf, row, Screen(r.events)), start);
      LeavesBoth(cfg, r, Keys(cfg, r.line, cs[1..]), row, StartAfterAll(cfg, r.line, cs[1..], start));
    }
  }

  lemma LeavesIsShown(cfg: Config, r: Result, row: Row, start: nat)
    requires Leaves(cfg, r, row, start)
    ensures Shows(cfg.utf, PutAll(cfg.utf, row, Screen(r.events)), start, r.line.buf)
  {
    hide Shows, PutAll, Screen;
  }

  lemma KeyWithoutEcho(cfg: Config, line: Line, c: nat)
    requires !cfg.Echoing() && KeySafe(cfg, line, c)
    ensures forall i | 0 <= i < |Key(cfg, line, c).events| :: !Key(cfg, line, c).events[i].Write?
  {
    hide Rubout, EraseStop, LastWord, Redraw, Pwrite;
  }

  lemma {:induction false} ScreenOfNoWrites(e: seq<Event>)
    requires forall i | 0 <= i < |e| :: !e[i].Write?
    ensures Screen(e) == []
    decreases |e|
  {
    if e != [] {
      ScreenOfNoWrites(e[1..]);
    }
  }

  /** With echo off, as for a password, no key shows anything. */
  lemma {:induction false} NothingShownWithoutEcho(cfg: Config, line: Line, cs: seq<nat>)
    requires !cfg.Echoing() && KeysSafe(cfg, line, cs)
    ensures Screen(Keys(cfg, line, cs).events) == []
    decreases |cs|
  {
    hide *;
    if cs == [] {
      NoKeys(cfg, line, cs, 0);
      NothingDrawn(cfg.utf, 0);
    } else {
      KeysStep(cfg, line, cs, 0);
      var r := Key(cfg, line, cs[0]);
      KeyWithoutEcho(cfg, line, cs[0]);
      ScreenOfNoWrites(r.events);
      NothingShownWithoutEcho(cfg, r.line, cs[1..]);
      ScreenOfThen(r, Keys(cfg, r.line, cs[1..]));
      CatEmpty(Screen(r.events));
    }
  }

  lemma ScreenOfThen(r: Result, s: Result)
    ensures Screen(Then(r, s).events) == Screen(r.events) + Screen(s.events)
  {
    ScreenOfBoth(r.events, s.events);
  }

  /** A printable byte is shown as itself, a control character by '^' and a letter, and any other
      by its hex digits; no two bytes look the same. */
  lemma EchoTellsBytes(utf: bool, a: byte, b: byte)
    ensures 32 <= a <= 126 || a >= (if utf then 128 else 160) ==> Pwrite(utf, a) == [a]
    ensures a < 32 || a == 127 ==> Pwrite(utf, a) == [94, (a + 64) % 128]
    ensures !utf && 128 <= a < 144 ==> Pwrite(utf, a) == [60, 56, if a < 138 then a - 80 else a - 73, 62]
    ensures !utf && 144 <= a < 160 ==> Pwrite(utf, a) == [60, 57, if a < 154 then a - 96 else a - 89, 62]
    ensures Pwrite(utf, a) == Pwrite(utf, b) ==> a == b
  {
    if !utf && 128 <= a < 160 && 128 <= b < 160 && Pwrite(utf, a) == Pwrite(utf, b) {
      assert Pwrite(utf, a)[1] == Pwrite(utf, b)[1] && Pwrite(utf, a)[2] == Pwrite(utf, b)[2];
    }
  }

  // ---------------------------------------------------------------- ldisc_send

  /** A negative length means a NUL-terminated special string. */
  predicate SendArgs(vbuf: seq<byte>, len: int) {
    len <= |vbuf| && (len < 0 ==> NUL in vbuf)
  }

  function DataOf(vbuf: seq<byte>, len: int): seq<byte>
    requires SendArgs(vbuf, len)
  {
    if len < 0 then vbuf[..StrLen(vbuf)] else vbuf[..len]
  }

  function KeyCode(b: byte, special: bool, interactive: bool): nat {
    if special then b + KEY_FLAG
    else if !interactive && b == CR then KEY_M
    else b
  }

  function KeyCodes(data: seq<byte>, special: bool, interactive: bool): (cs: seq<nat>)
    ensures |cs| == |data| && forall i | 0 <= i < |data| :: cs[i] == KeyCode(data[i], special, interactive)
  {
    seq(|data|, i requires 0 <= i < |data| => KeyCode(data[i], special, interactive))
  }

  /** How data that is not edited goes to the back end: as it is, except for single special keys
      in Telnet. */
  function Unedited(cfg: Config, data: seq<byte>, special: bool): Event
    requires data != []
  {
    if !(special && cfg.protocol == Telnet && |data| == 1) then Send(data)
    else if data[0] == CTRL_M then if cfg.telnetNewline then Signal(EOL) else Send([CR])
    else if !cfg.telnetKeyboard then Send(data)
    else if data[0] == DELETE || data[0] == BACKSPACE then Signal(EC)
    else if data[0] == CTRL_C then Signal(IP)
    else if data[0] == CTRL_Z then Signal(SUSP)
    else Send(data)
  }

  /** Without local editing: whatever was buffered goes first and comes off the screen. */
  function PassThrough(cfg: Config, line: Line, data: seq<byte>, special: bool): Result {
    Result(line.(buf := []),
           (if line.buf == [] then [] else [Send(line.buf)] + Rubout(cfg.utf, line.buf))
           + (if data == [] then [] else
                (if cfg.Echoing() then [Write(data)] else []) + [Unedited(cfg, data, special)]))
  }

  /** The keys of their own that Telnet has where local editing is off. */
  function TelnetKey(cfg: Config, b: byte): seq<Unit> {
    if b == CR && cfg.telnetNewline then [Code(EOL)]
    else if cfg.telnetKeyboard && b in [BACKSPACE, DELETE] then [Code(EC)]
    else if cfg.telnetKeyboard && b == 3 then [Code(IP)]
    else if cfg.telnetKeyboard && b == 26 then [Code(SUSP)]
    else [Byte(b)]
  }

  function DataMeant(cfg: Config, data: seq<byte>, special: bool): seq<Unit> {
    if special && cfg.protocol == Telnet && |data| == 1 then TelnetKey(cfg, data[0]) else Bytes(data)
  }

  /** The parts of what goes out without local editing. */
  datatype Passage = Passage(flushed: seq<Event>, echoed: seq<Event>, passed: seq<Event>) {
    function Events(): seq<Event> { flushed + (echoed + passed) }
  }

  function PassageOf(cfg: Config, line: Line, data: seq<byte>, special: bool): Passage {
    Passage(if line.buf == [] then [] else [Send(line.buf)] + Rubout(cfg.utf, line.buf),
            if data != [] && cfg.Echoing() then [Write(data)] else [],
            if data == [] then [] else [Unedited(cfg, data, special)])
  }

  lemma PassageUnits(cfg: Config, line: Line, data: seq<byte>, special: bool)
    ensures ToBackEnd(PassageOf(cfg, line, data, special).Events()) == Bytes(line.buf) + DataMeant(cfg, data, special)
  {
    hide ToBackEnd, Sent, Screen, Column, Rubout, Unedited, DataMeant, Bytes;
    var p := PassageOf(cfg, line, data, special);
    FlushSends(cfg.utf, line.buf);
    ToBackEndOfBoth(p.flushed, p.echoed + p.passed);
    ToBackEndOfBoth(p.echoed, p.passed);
    OneEvent(data, EC);
    UneditedMeans(cfg, data, special);
    CatEmpty(ToBackEnd(p.passed));
  }

  lemma PassageOnScreen(cfg: Config, line: Line, data: seq<byte>, special: bool)
    ensures Screen(PassageOf(cfg, line, data, special).Events())
         == Screen(Rubout(cfg.utf, line.buf)) + if cfg.Echoing() then data else []
  {
    hide ToBackEnd, Screen, Rubout, Unedited;
    var p := PassageOf(cfg, line, data, special);
    FlushShows(cfg.utf, line.buf);
    UneditedMeans(cfg, data, special);
    ScreenOfBoth(p.flushed, p.echoed + p.passed);
    ScreenOfBoth(p.echoed, p.passed);
    OneWrite(data);
    NothingDrawn(cfg.utf, 0);
    CatEmpty(Screen(p.echoed));
  }

  lemma FlushShows(utf: bool, s: seq<byte>)
    ensures Screen(if s == [] then [] else [Send(s)] + Rubout(utf, s)) == Screen(Rubout(utf, s))
  {
    hide Screen;
    if s != [] {
      Quiet(Send(s), Rubout(utf, s));
    }
  }

  /** Without local editing nothing is lost either: what was buffered and then the data are sent,
      a single special key in Telnet as the code it has. The buffer comes off the screen, and then
      the data are echoed as they are. */
  lemma UneditedInputIsKept(cfg: Config, line: Line, data: seq<byte>, special: bool, base: nat)
    ensures var r := PassThrough(cfg, line, data, special);
      && r.line == line.(buf := [])
      && ToBackEnd(r.events) == Bytes(line.buf) + DataMeant(cfg, data, special)
      && Screen(r.events) == Screen(Rubout(cfg.utf, line.buf)) + (if cfg.Echoing() then data else [])
    ensures Column(cfg.utf, base + Width(cfg.utf, line.buf), Screen(Rubout(cfg.utf, line.buf))) == base
  {
    hide PassageOf, ToBackEnd, Screen, Column, Leftmost, Width, DataMeant, Bytes, Rubout, Unedited;
    EventsOfPassThrough(cfg, line, data, special);
    PassageUnits(cfg, line, data, special);
    PassageOnScreen(cfg, line, data, special);
    RuboutReturns(cfg.utf, base, line.buf);
  }

  lemma EventsOfPassThrough(cfg: Config, line: Line, data: seq<byte>, special: bool)
    ensures PassThrough(cfg, line, data, special).events == PassageOf(cfg, line, data, special).Events()
  {
    hide Rubout, Unedited;
  }

  lemma UneditedMeans(cfg: Config, data: seq<byte>, special: bool)
    ensures data == [] ==> DataMeant(cfg, data, special) == []
    ensures data != [] ==>
      && ToBackEnd([Unedited(cfg, data, special)]) == DataMeant(cfg, data, special)
      && Screen([Unedited(cfg, data, special)]) == []
  {
    hide ToBackEnd, Screen;
    OneEvent([CR], EOL);
    OneEvent(data, EC);
    OneEvent(data, IP);
    OneEvent(data, SUSP);
    if data != [] {
      Quiet(Unedited(cfg, data, special), []);
    }
    assert |data| == 1 ==> Bytes(data) == [Byte(data[0])];
    assert Bytes([CR]) == [Byte(CR)];
  }

  lemma FlushSends(utf: bool, s: seq<byte>)
    ensures ToBackEnd(if s == [] then [] else [Send(s)] + Rubout(utf, s)) == Bytes(s)
  {
    hide Rubout;
    if s != [] {
      var rubs := Rubout(utf, s);
      RuboutOnlyWrites(utf, s, 0);
      WritesSendNothing(rubs);
      ToBackEndOfBoth([Send(s)], rubs);
      OneEvent(s, EL);
      CatEmpty(Bytes(s));
    }
  }

  predicate SendSafe(cfg: Config, line: Line, vbuf: seq<byte>, len: int, interactive: bool)
    requires SendArgs(vbuf, len)
  {
    cfg.Editing() ==> KeysSafe(cfg, line, KeyCodes(DataOf(vbuf, len), len < 0, interactive))
  }

  function SendResult(cfg: Config, line: Line, vbuf: seq<byte>, len: int, interactive: bool): Result
    requires SendArgs(vbuf, len) && SendSafe(cfg, line, vbuf, len, interactive)
  {
    var data := DataOf(vbuf, len);
    if cfg.Editing() then Keys(cfg, line, KeyCodes(data, len < 0, interactive))
    else PassThrough(cfg, line, data, len < 0)
  }

  /** The bytes that edit the line or send it early when they are typed. */
  predicate EditingControl(b: byte) {
    b == CTRL_W || IsLineKill(b) || b == CTRL_R || b == CTRL_V || b == CTRL_D
  }

  /** In a special string only the erase keys edit the line. */
  predicate PlainText(data: seq<byte>, special: bool) {
    forall i | 0 <= i < |data| ::
      if special then data[i] != BACKSPACE && data[i] != DELETE && data[i] != NUL else !EditingControl(data[i])
  }

  /** A return ends the line where it is the key or is pasted, and is a byte where it is typed as
      one; everything else is a byte. */
  function TextMeant(cfg: Config, data: seq<byte>, special: bool, interactive: bool): seq<Unit> {
    if data == [] then []
    else
      (if data[0] == CR && (special || !interactive) then Terminator(cfg) else [Byte(data[0])])
      + TextMeant(cfg, data[1..], special, interactive)
  }

  lemma {:induction false} TextIsMeant(cfg: Config, g: Glance, data: seq<byte>, special: bool, interactive: bool)
    requires !g.quote && PlainText(data, special)
    ensures var cs := KeyCodes(data, special, interactive);
      NothingDestroyed(false, cs) && MeantAll(cfg, g, cs) == TextMeant(cfg, data, special, interactive)
    decreases |data|
  {
    if data != [] {
      hide Terminator;
      var cs := KeyCodes(data, special, interactive);
      var c := cs[0];
      assert cs[1..] == KeyCodes(data[1..], special, interactive);
      assert c % 256 == data[0];
      TextIsMeant(cfg, Next(cfg, g, c), data[1..], special, interactive);
    }
  }

  /** What a send in editing mode is for: any text without editing controls, typed, pasted or
      from a special key, gets to the back end whole and in order, but for what is still in the
      line, in every protocol. */
  lemma TextIsKept(cfg: Config, line: Line, data: seq<byte>, special: bool, interactive: bool)
    requires cfg.Editing() && !line.quote && PlainText(data, special)
    ensures var vbuf, len := if special then data + [NUL] else data, if special then -1 else |data|;
      && SendArgs(vbuf, len) && SendSafe(cfg, line, vbuf, len, interactive)
      && var r := SendResult(cfg, line, vbuf, len, interactive);
         ToBackEnd(r.events) + Bytes(r.line.buf) == Bytes(line.buf) + TextMeant(cfg, data, special, interactive)
  {
    hide Keys, KeysSafe, ToBackEnd, MeantAll, TextMeant, NothingDestroyed;
    if special {
      var vbuf := data + [NUL];
      assert vbuf[|data|] == NUL;
      forall i | 0 <= i < |data|
        ensures vbuf[i] != NUL
      {
        assert vbuf[i] == data[i];
      }
      FirstNul(vbuf, |data|);
      assert DataOf(vbuf, -1) == data;
    } else {
      assert DataOf(data, |data|) == data;
    }
    TextIsMeant(cfg, At(line), data, special, interactive);
    InputIsKept(cfg, line, KeyCodes(data, special, interactive));
  }

  lemma FirstNul(m: seq<byte>, n: nat)
    requires n < |m| && m[n] == NUL && forall i | 0 <= i < n :: m[i] != NUL
    ensures NUL in m && StrLen(m) == n
  {
    var k := StrLen(m);
    assert forall i | 0 <= i < k :: m[..k][i] == m[i];
  }

  /** In editing mode two sends are the same as one send of both pieces. */
  lemma SendInTwoChunks(cfg: Config, line: Line, a: seq<byte>, b: seq<byte>, interactive: bool)
    requires cfg.Editing() && SendSafe(cfg, line, a + b, |a + b|, interactive)
    ensures SendSafe(cfg, line, a, |a|, interactive)
    ensures SendSafe(cfg, SendResult(cfg, line, a, |a|, interactive).line, b, |b|, interactive)
    ensures SendResult(cfg, line, a + b, |a + b|, interactive)
            == Then(SendResult(cfg, line, a, |a|, interactive),
                    SendResult(cfg, SendResult(cfg, line, a, |a|, interactive).line, b, |b|, interactive))
  {
    hide Keys, KeysSafe, Then;
    assert (a + b)[..|a + b|] == a + b && a[..|a|] == a && b[..|b|] == b;
    assert KeyCodes(a + b, false, interactive) == KeyCodes(a, false, interactive) + KeyCodes(b, false, interactive);
    KeysInTwoChunks(cfg, line, KeyCodes(a, false, interactive), KeyCodes(b, false, interactive));
  }

  /** A text sent in any number of pieces comes out the same as the whole text sent at once. */
  function SendPieces(cfg: Config, line: Line, pieces: seq<seq<byte>>, interactive: bool): (r: Result)
    requires cfg.Editing() && SendSafe(cfg, line, Concat(pieces), |Concat(pieces)|, interactive)
    ensures r == SendResult(cfg, line, Concat(pieces), |Concat(pieces)|, interactive)
    decreases |pieces|
  {
    hide SendResult, SendSafe, Then;
    if pieces == [] then
      SendNothing(cfg, line, interactive);
      Result(line, [])
    else
      SendInTwoChunks(cfg, line, pieces[0], Concat(pieces[1..]), interactive);
      var r := SendResult(cfg, line, pieces[0], |pieces[0]|, interactive);
      Then(r, SendPieces(cfg, r.line, pieces[1..], interactive))
  }

  lemma SendNothing(cfg: Config, line: Line, interactive: bool)
    requires cfg.Editing()
    ensures SendSafe(cfg, line, [], 0, interactive) && SendResult(cfg, line, [], 0, interactive) == Result(line, [])
  {
  }

  /** Rubbing out goes backwards: an earlier byte is rubbed out after the later ones. */
  lemma {:induction false} RuboutEarlier(utf: bool, b: byte, s: seq<byte>)
    ensures Rubout(utf, [b] + s) == Rubout(utf, s) + Repeat(Write(RUB), Plen(utf, b))
    decreases |s|
  {
    hide Rubout, Repeat;
    var t := [b] + s;
    RuboutUnfolds(utf, t);
    if s == [] {
      assert t[..0] == [] && t[|t| - 1] == b;
      RuboutUnfolds(utf, s);
    } else {
      var n := |s| - 1;
      assert t[..n + 1] == [b] + s[..n] && t[n + 1] == s[n];
      RuboutUnfolds(utf, s);
      RuboutEarlier(utf, b, s[..n]);
    }
  }

  lemma RuboutUnfolds(utf: bool, s: seq<byte>)
    ensures Rubout(utf, []) == []
    ensures s != [] ==> Rubout(utf, s) == Repeat(Write(RUB), Plen(utf, s[|s| - 1])) + Rubout(utf, s[..|s| - 1])
  {
    hide Repeat;
  }

  class Ldisc {
    var cfg: Config
    var buf: seq<byte>
    var quotenext: bool
    /** Everything that has left the line discipline so far. */
    var log: seq<Event>

    constructor (cfg: Config)
      ensures this.cfg == cfg && Value() == Line([], false) && log == []
    {
      this.cfg, buf, quotenext, log := cfg, [], false, [];
    }

    function Value(): Line
      reads this
    {
      Line(buf, quotenext)
    }

    method Emit(e: Event)
      modifies this`log
      ensures log == old(log) + [e]
    {
      log := log + [e];
    }

    method Bsb(n: nat)
      modifies this`log
      ensures log == old(log) + Repeat(Write(RUB), n)
    {
      var i := 0;
      while i < n
        invariant i <= n && log == old(log) + Repeat(Write(RUB), i)
      {
        Emit(Write(RUB));
        i := i + 1;
      }
    }

    /** Drops the last byte of the buffer, rubbing it out when `visible`. */
    method DropLast(visible: bool)
      requires buf != []
      modifies this`buf, this`log
      ensures buf == old(buf)[..|old(buf)| - 1]
      ensures log == old(log) + if visible then Repeat(Write(RUB), Plen(cfg.utf, old(buf)[|old(buf)| - 1])) else []
    {
      if visible {
        Bsb(Plen(cfg.utf, buf[|buf| - 1]));
      }
      buf := buf[..|buf| - 1];
    }

    /** The state after dropping bytes off the end of `was`, down to length `k`. */
    ghost predicate DroppedTo(was: seq<byte>, sofar: seq<Event>, k: nat, visible: bool)
      requires k <= |was|
      reads this
    {
      buf == was[..k] && log == sofar + if visible then Rubout(cfg.utf, was[k..]) else []
    }

    method DropAt(ghost was: seq<byte>, ghost sofar: seq<Event>, ghost k: nat, visible: bool)
      requires 0 < k <= |was| && DroppedTo(was, sofar, k, visible)
      modifies this`buf, this`log
      ensures DroppedTo(was, sofar, k - 1, visible)
    {
      hide Rubout, Repeat;
      assert was[..k][..k - 1] == was[..k - 1];
      assert was[k - 1..] == [was[k - 1]] + was[k..];
      RuboutEarlier(cfg.utf, was[k - 1], was[k..]);
      DropLast(visible);
    }

    /** The loop of an erase key. It is left when it would look before the front of the buffer. */
    method DeleteChar() returns (inside: bool)
      requires buf != []
      modifies this`buf, this`log
      ensures var k := EraseStop(cfg.utf, old(buf), |old(buf)|);
        && (inside <==> k >= 0)
        && (inside ==> Value() == Erase(cfg, old(Value()), k).line)
        && (inside ==> log == old(log) + Erase(cfg, old(Value()), k).events)
        && (!inside ==> buf == [])
    {
      hide Rubout;
      ghost var was, sofar, k := buf, log, |buf| - 1;
      RuboutUnfolds(cfg.utf, []);
      assert was[|was|..] == [];
      assert was[..|was|] == was;
      var deleted := buf[|buf| - 1];
      DropAt(was, sofar, |was|, cfg.Echoing());
      while !CharStart(cfg.utf, deleted)
        invariant 0 <= k < |was| && deleted == was[k]
        invariant EraseStop(cfg.utf, was, |was|) == EraseStop(cfg.utf, was, k + 1)
        invariant DroppedTo(was, sofar, k, cfg.Echoing())
        decreases k
      {
        if |buf| == 0 {
          return false;
        }
        deleted := buf[|buf| - 1];
        DropAt(was, sofar, k, cfg.Echoing());
        k := k - 1;
      }
      inside := true;
    }

    method DeleteWord()
      modifies this`buf, this`log
      ensures old(buf) == [] ==> Value() == old(Value()) && log == old(log)
      ensures old(buf) != [] ==>
        && Value() == Erase(cfg, old(Value()), LastWord(old(buf))).line
        && log == old(log) + Erase(cfg, old(Value()), LastWord(old(buf))).events
    {
      hide LastWord, Rubout;
      ghost var was, sofar, k := buf, log, |buf|;
      RuboutUnfolds(cfg.utf, []);
      assert was[|was|..] == [];
      assert was[..|was|] == was;
      while |buf| > 0
        invariant 0 <= k <= |was| && DroppedTo(was, sofar, k, cfg.Echoing())
        invariant was != [] ==> LastWord(was) <= k
        invariant 0 < k < |was| ==> LastWord(was) < k
        decreases k
      {
        var deleted := buf[|buf| - 1];
        DropAt(was, sofar, k, cfg.Echoing());
        k := k - 1;
        if |buf| > 0 && IsSpace(buf[|buf| - 1]) && !IsSpace(deleted) {
          assert WordStop(was, k);
          break;
        }
      }
    }

    method DeleteAll(visible: bool)
      modifies this`buf, this`log
      ensures buf == [] && log == old(log) + if visible then Rubout(cfg.utf, old(buf)) else []
    {
      hide LastWord, Rubout;
      ghost var was, sofar, k := buf, log, |buf|;
      RuboutUnfolds(cfg.utf, []);
      assert was[|was|..] == [];
      assert was[..|was|] == was && was[0..] == was;
      while |buf| > 0
        invariant 0 <= k <= |was| && DroppedTo(was, sofar, k, visible)
        decreases k
      {
        DropAt(was, sofar, k, visible);
        k := k - 1;
      }
    }
  
    /** One turn of the loop in ldisc_send; `c` has the special-key flag and the pasted-return
        change applied already. `inside` says that it stays in the buffer. */
    method HandleKey(c: nat) returns (inside: bool)
      modifies this`buf, this`quotenext, this`log
      ensures inside <==> KeySafe(cfg, old(Value()), c)
      ensures inside ==> Value() == Key(cfg, old(Value()), c).line
      ensures inside ==> log == old(log) + Key(cfg, old(Value()), c).events
    {
      hide Rubout, EraseStop, LastWord, Redraw, Pwrite;
      inside := true;
      if !quotenext && IsEraseKey(c) {
        if |buf| > 0 {
          inside := DeleteChar();
        }
      } else if !quotenext && c == CTRL_W {
        DeleteWord();
      } else if !quotenext && IsLineKill(c) {
        KillLine(c);
      } else if !quotenext && c == CTRL_R {
        RedrawLine();
      } else if !quotenext && c == CTRL_V {
        quotenext := true;
      } else if !quotenext && c == CTRL_D {
        if |buf| == 0 {
          Emit(Signal(EOF));
        } else {
          Emit(Send(buf));
          buf := [];
        }
      } else if !quotenext && c == KEY_M {
        SendLine();
      } else if !quotenext && c == CTRL_J && cfg.protocol == Raw && |buf| > 0 && buf[|buf| - 1] == CR {
        SendAfterReturn();
      } else {
        InsertByte(c);
      }
    }

    method InsertByte(c: nat)
      modifies this`buf, this`quotenext, this`log
      ensures Value() == Insert(cfg, old(Value()), c).line
      ensures log == old(log) + Insert(cfg, old(Value()), c).events
    {
      var b: byte := c % 256;
      buf := buf + [b];
      if cfg.Echoing() {
        Emit(Write(Pwrite(cfg.utf, b)));
      }
      quotenext := false;
    }

    method KillLine(c: nat)
      requires !quotenext && IsLineKill(c)
      modifies this`buf, this`quotenext, this`log
      ensures Value() == Key(cfg, old(Value()), c).line
      ensures log == old(log) + Key(cfg, old(Value()), c).events
    {
      hide Rubout, Pwrite, Insert;
      assert buf[0..] == buf && buf[..0] == [];
      ghost var start := log;
      ghost var rubs := if cfg.Echoing() then Rubout(cfg.utf, buf) else [];
      DeleteAll(cfg.Echoing());
      Emit(Signal(EL));
      assert log == start + (rubs + [Signal(EL)]);
      if !cfg.telnetKeyboard {
        InsertByte(c);
      } else {
        if c == CTRL_C {
          Emit(Signal(IP));
        }
        if c == CTRL_Z {
          Emit(Signal(SUSP));
        }
        if c == CTRL_BACKSLASH {
          Emit(Signal(ABORT));
        }
      }
    }

    method RedrawLine()
      modifies this`log
      ensures log == old(log)
                     + if cfg.Echoing() then [Write([94, 82, CR, LF])] + Redraw(cfg.utf, buf) else []
    {
      if cfg.Echoing() {
        Emit(Write([94, 82, CR, LF]));
        var i := 0;
        while i < |buf|
          invariant 0 <= i <= |buf|
          invariant log == old(log) + [Write([94, 82, CR, LF])] + Redraw(cfg.utf, buf[..i])
        {
          assert buf[..i + 1][..i] == buf[..i];
          Emit(Write(Pwrite(cfg.utf, buf[i])));
          i := i + 1;
        }
        assert buf[..|buf|] == buf;
      }
    }

    method SendLine()
      modifies this`buf, this`log
      ensures Value() == EndOfLine(cfg, old(Value())).line
      ensures log == old(log) + EndOfLine(cfg, old(Value())).events
    {
      if |buf| > 0 {
        Emit(Send(buf));
      }
      if cfg.protocol == Raw {
        Emit(Send(NEWLINE));
      } else if cfg.protocol == Telnet && cfg.telnetNewline {
        Emit(Signal(EOL));
      } else {
        Emit(Send([CR]));
      }
      if cfg.Echoing() {
        Emit(Write(NEWLINE));
      }
      buf := [];
    }

    method SendAfterReturn()
      requires EndsLine(cfg, Value(), CTRL_J)
      modifies this`buf, this`log
      ensures Value() == Key(cfg, old(Value()), CTRL_J).line
      ensures log == old(log) + Key(cfg, old(Value()), CTRL_J).events
    {
      hide Rubout, EndOfLine, Repeat, Key, Erase;
      ghost var was, n := Value(), |buf| - 1;
      ReturnKey(cfg, was);
      DropLast(cfg.Echoing());
      SendLine();
    }

    /** Sends or edits; `inside` says that no erase key looks before the front of the buffer. */
    method LdiscSend(vbuf: seq<byte>, len: int, interactive: bool) returns (inside: bool)
      requires SendArgs(vbuf, len)
      modifies this`buf, this`quotenext, this`log
      ensures inside <==> SendSafe(cfg, old(Value()), vbuf, len, interactive)
      ensures inside ==> Value() == SendResult(cfg, old(Value()), vbuf, len, interactive).line
      ensures inside ==> log == old(log) + SendResult(cfg, old(Value()), vbuf, len, interactive).events
    {
      hide Keys, KeysSafe, PassThrough;
      var n, keyflag := len, 0;
      if n < 0 {
        n := StrLen(vbuf);
        keyflag := KEY_FLAG;
      }
      inside := true;
      if cfg.Editing() {
        inside := EditKeys(vbuf[..n], keyflag, interactive);
      } else {
        SendUnedited(vbuf[..n], keyflag != 0);
      }
    }

    method EditKeys(data: seq<byte>, keyflag: int, interactive: bool) returns (inside: bool)
      requires keyflag == 0 || keyflag == KEY_FLAG
      modifies this`buf, this`quotenext, this`log
      ensures var cs := KeyCodes(data, keyflag != 0, interactive);
        && (inside <==> KeysSafe(cfg, old(Value()), cs))
        && (inside ==> Value() == Keys(cfg, old(Value()), cs).line)
        && (inside ==> log == old(log) + Keys(cfg, old(Value()), cs).events)
    {
      hide Keys, KeysSafe, Key, KeySafe;
      ghost var cs := KeyCodes(data, keyflag != 0, interactive);
      ghost var start := Value();
      var i := 0;
      assert cs[0..] == cs;
      while i < |data|
        invariant 0 <= i <= |data|
        invariant KeysSafe(cfg, start, cs) <==> KeysSafe(cfg, Value(), cs[i..])
        invariant KeysSafe(cfg, start, cs) ==> Keys(cfg, start, cs).line == Keys(cfg, Value(), cs[i..]).line
        invariant KeysSafe(cfg, start, cs) ==>
          old(log) + Keys(cfg, start, cs).events == log + Keys(cfg, Value(), cs[i..]).events
      {
        var c: nat := data[i] + keyflag;
        if !interactive && c == CR {
          c := c + KEY_FLAG;
        }
        assert c == cs[i] && cs[i..][1..] == cs[i + 1..];
        SafeStep(cfg, Value(), cs[i..]);
        if KeysSafe(cfg, Value(), cs[i..]) {
          KeysStep(cfg, Value(), cs[i..], 0);
        }
        inside := HandleKey(c);
        if !inside {
          return;
        }
        i := i + 1;
      }
      NoKeys(cfg, Value(), cs[i..], 0);
      inside := true;
    }

    method SendUnedited(data: seq<byte>, special: bool)
      modifies this`buf, this`log
      ensures Value() == PassThrough(cfg, old(Value()), data, special).line
      ensures log == old(log) + PassThrough(cfg, old(Value()), data, special).events
    {
      hide Rubout, Unedited;
      if |buf| != 0 {
        Emit(Send(buf));
        DeleteAll(true);
      }
      if |data| > 0 {
        if cfg.Echoing() {
          Emit(Write(data));
        }
        EmitUnedited(data, special);
      }
    }

    method EmitUnedited(data: seq<byte>, special: bool)
      requires data != []
      modifies this`log
      ensures log == old(log) + [Unedited(cfg, data, special)]
    {
      if special && cfg.protocol == Telnet && |data| == 1 {
        var c := data[0];
        if c == CTRL_M {
          if cfg.telnetNewline {
            Emit(Signal(EOL));
          } else {
            Emit(Send([CR]));
          }
        } else if (c == DELETE || c == BACKSPACE) && cfg.telnetKeyboard {
          Emit(Signal(EC));
        } else if c == CTRL_C && cfg.telnetKeyboard {
          Emit(Signal(IP));
        } else if c == CTRL_Z && cfg.telnetKeyboard {
          Emit(Signal(SUSP));
        } else {
          Emit(Send(data));
        }
      } else {
        Emit(Send(data));
      }
    }
  }

  lemma RuboutOfLast(utf: bool, s: seq<byte>)
    requires s != []
    ensures Rubout(utf, s[|s| - 1..]) == Repeat(Write(RUB), Plen(utf, s[|s| - 1]))
  {
    assert s[|s| - 1..] == [s[|s| - 1]];
    assert [s[|s| - 1]][..0] == [];
  }

  lemma ReturnKey(cfg: Config, line: Line)
    requires EndsLine(cfg, line, CTRL_J)
    ensures
      var n, r := |line.buf| - 1, Key(cfg, line, CTRL_J);
      var rest := line.(buf := line.buf[..n]);
      var rubs := if cfg.Echoing() then Repeat(Write(RUB), Plen(cfg.utf, line.buf[n])) else [];
      r.line == EndOfLine(cfg, rest).line && r.events == rubs + EndOfLine(cfg, rest).events
  {
    hide Repeat, EndOfLine;
    RuboutOfLast(cfg.utf, line.buf);
  }
}
