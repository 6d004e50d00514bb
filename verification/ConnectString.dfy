/** Connect strings of the form user:pass@host:port/cmd (cmdline.c). */
module ConnectString {
  import opened CText
  import opened Wrappers

  /** The texts a connect string is split into. */
  datatype Parts = Parts(user: seq<byte>, pass: seq<byte>, host: seq<byte>, port: seq<byte>, cmd: seq<byte>)

  // ---------------------------------------------------------------- pieces of the grammar

  function Before(s: seq<byte>, c: byte): seq<byte> { s[..Index(s, c)] }

  function After(s: seq<byte>, c: byte): seq<byte> {
    var k := Index(s, c);
    if k < |s| then s[k + 1..] else []
  }

  /** The first '@' from `i` on that is not one of a doubled pair, or the length. */
  function SingleAt(s: seq<byte>, i: nat): (k: nat)
    requires i <= |s|
    ensures i <= k <= |s| && (k < |s| ==> s[k] == AT)
    decreases |s| - i
  {
    if i == |s| then i
    else if s[i] != AT then SingleAt(s, i + 1)
    else if i + 1 < |s| && s[i + 1] == AT then SingleAt(s, i + 2)
    else i
  }

  /** Every run of '@' brought down to a single one. */
  function Squeeze(s: seq<byte>): seq<byte> {
    if s == [] then []
    else if |s| > 1 && s[0] == AT && s[1] == AT then Squeeze(s[1..])
    else [s[0]] + Squeeze(s[1..])
  }

  /** Every '@' doubled, as a password is to be written. */
  function Double(s: seq<byte>): seq<byte> {
    if s == [] then [] else (if s[0] == AT then [AT, AT] else [s[0]]) + Double(s[1..])
  }

  predicate AtPair(s: seq<byte>, i: nat) {
    i + 1 < |s| && s[i] == AT && s[i + 1] == AT
  }

  predicate NoAtPair(s: seq<byte>) {
    forall i | 0 <= i < |s| :: !AtPair(s, i)
  }

  // ---------------------------------------------------------------- parsing

  /** The host, port and command texts of what follows the user. */
  function ParseHost(hn: seq<byte>): (seq<byte>, seq<byte>, seq<byte>) {
    if hn != [] && hn[0] == LBRACKET then
      var k := Index(hn, RBRACKET);
      if k == |hn| then (hn, [], [])
      else (hn[..k + 1], After(Before(hn[k + 1..], SLASH), COLON), After(hn[k + 1..], SLASH))
    else (Before(Before(hn, SLASH), COLON), After(Before(hn, SLASH), COLON), After(hn, SLASH))
  }

  function UserText(s: seq<byte>): seq<byte> {
    if SingleAt(s, 0) < |s| then s[..SingleAt(s, 0)] else []
  }

  function HostText(s: seq<byte>): seq<byte> {
    if SingleAt(s, 0) < |s| then s[SingleAt(s, 0) + 1..] else s
  }

  function Parse(s: seq<byte>): Parts {
    var us := UserText(s);
    var (host, port, cmd) := ParseHost(HostText(s));
    Parts(Before(us, COLON), Squeeze(After(us, COLON)), host, port, cmd)
  }

  /** What is left in the host name buffer: the password, port and command are taken out. */
  function Rewritten(s: seq<byte>): seq<byte> {
    var p := Parse(s);
    if UserText(s) != [] then p.user + [AT] + p.host else p.host
  }

  /** Who logs in, as a connect string says it. */
  datatype Login = Nobody | User(user: seq<byte>) | UserWithPassword(user: seq<byte>, pass: seq<byte>)

  /** What a connect string may consist of: all but the host can be missing. */
  datatype Form = Form(login: Login, host: seq<byte>, port: Option<seq<byte>>, cmd: Option<seq<byte>>) {
    /** The parts it stands for; what is missing is empty. */
    function Meaning(): Parts {
      Parts(if login.Nobody? then [] else login.user, if login.UserWithPassword? then login.pass else [],
            host, port.GetOr([]), cmd.GetOr([]))
    }

    function PrintedHost(): seq<byte> {
      var colon := if port.Some? then [COLON] + port.value else [];
      var slash := if cmd.Some? then [SLASH] + cmd.value else [];
      host + (colon + slash)
    }

    function Print(): seq<byte> {
      match login
      case Nobody => PrintedHost()
      case User(u) => u + [AT] + PrintedHost()
      case UserWithPassword(u, p) => (u + [COLON] + Double(p)) + [AT] + PrintedHost()
    }

    /** The user has neither ':' nor '@', the port no '/', and without a user there is no '@' at
        all. */
    predicate Printable() {
      && GoodHost(host) && (port.Some? ==> SLASH !in port.value)
      && if login.Nobody? then AT !in PrintedHost() else COLON !in login.user && AT !in login.user
    }
  }

  /** A host that may be printed: not beginning with '@', and either in square brackets or
      without '[' at its front and without ':' and '/'. */
  predicate GoodHost(h: seq<byte>) {
    if h != [] && h[0] == LBRACKET then h[|h| - 1] == RBRACKET && RBRACKET !in h[..|h| - 1]
    else (h != [] ==> h[0] != AT) && COLON !in h && SLASH !in h
  }

  // ---------------------------------------------------------------- parsing inverts printing

  /** A text cut at a byte it does not hold itself. */
  lemma CutAt(a: seq<byte>, c: byte, b: seq<byte>)
    requires c !in a
    ensures Before(a + [c] + b, c) == a && After(a + [c] + b, c) == b
    ensures Before(a, c) == a && After(a, c) == []
  {
    var s := a + [c] + b;
    assert s[..|a|] == a && a[..|a|] == a;
    IndexIsUnique(s, c, |a|);
    IndexIsUnique(a, c, |a|);
  }

  lemma {:induction false} SqueezeOfPlain(s: seq<byte>)
    ensures Squeeze(s) == s <==> NoAtPair(s)
    ensures |Squeeze(s)| <= |s|
    decreases |s|
  {
    if s != [] {
      SqueezeOfPlain(s[1..]);
      if |s| > 1 {
        PairInFront(s);
      }
    }
  }

  lemma PairInFront(s: seq<byte>)
    requires |s| > 1
    ensures NoAtPair(s) <==> NoAtPair(s[1..]) && !AtPair(s, 0)
  {
    assert forall i | 0 <= i < |s| - 1 :: AtPair(s[1..], i) == AtPair(s, i + 1);
    assert forall i | 1 <= i < |s| :: AtPair(s, i) == AtPair(s[1..], i - 1);
  }

  lemma {:induction false} SqueezeOfDouble(s: seq<byte>)
    ensures Squeeze(Double(s)) == Squeeze(s)
    decreases |s|
  {
    if s != [] {
      var d := Double(s[1..]);
      SqueezeOfDouble(s[1..]);
      DoubleFront(s[1..]);
      if s[0] == AT {
        assert Double(s) == [AT] + ([AT] + d);
        assert ([AT] + ([AT] + d))[1..] == [AT] + d;
        SqueezeFront(AT, d);
        SqueezeFront(AT, s[1..]);
      } else {
        SqueezeFront(s[0], d);
        SqueezeFront(s[0], s[1..]);
      }
      assert s == [s[0]] + s[1..];
    }
  }

  lemma SqueezeFront(c: byte, r: seq<byte>)
    ensures Squeeze([c] + r) == if c == AT && r != [] && r[0] == AT then Squeeze(r) else [c] + Squeeze(r)
  {
    assert ([c] + r)[1..] == r;
  }

  lemma DoubleFront(s: seq<byte>)
    ensures s == [] <==> Double(s) == []
    ensures s != [] ==> Double(s)[0] == s[0]
  {
  }

  /** How the scan goes on at `i`. */
  lemma ScanStep(s: seq<byte>, i: nat, t: seq<byte>)
    requires i <= |s| && s[i..] == t
    ensures t != [] && t[0] != AT ==> SingleAt(s, i) == SingleAt(s, i + 1) && s[i + 1..] == t[1..]
    ensures |t| > 1 && t[0] == AT && t[1] == AT ==> SingleAt(s, i) == SingleAt(s, i + 2) && s[i + 2..] == t[2..]
    ensures t != [] && t[0] == AT && (|t| > 1 ==> t[1] != AT) ==> SingleAt(s, i) == i
  {
    assert t != [] ==> t[0] == s[i];
    assert |t| > 1 ==> t[1] == s[i + 1];
  }

  /** The scan passes over a doubled password, */
  lemma {:induction false} ScanPassesDouble(s: seq<byte>, i: nat, p: seq<byte>, rest: seq<byte>)
    requires i <= |s| && s[i..] == Double(p) + ([AT] + rest) && (rest == [] || rest[0] != AT)
    ensures SingleAt(s, i) == i + |Double(p)|
    decreases |p|
  {
    hide SingleAt;
    ScanStep(s, i, s[i..]);
    if p != [] {
      var d := Double(p[1..]);
      CatAssoc(if p[0] == AT then [AT, AT] else [p[0]], d, [AT] + rest);
      if p[0] == AT {
        assert s[i + 2..] == d + ([AT] + rest);
        ScanPassesDouble(s, i + 2, p[1..], rest);
      } else {
        assert s[i + 1..] == d + ([AT] + rest);
        ScanPassesDouble(s, i + 1, p[1..], rest);
      }
    }
  }

  /** and over a user name without '@' before it. */
  lemma {:induction false} ScanPasses(s: seq<byte>, i: nat, u: seq<byte>, p: seq<byte>, rest: seq<byte>)
    requires i <= |s| && s[i..] == u + (Double(p) + ([AT] + rest)) && AT !in u
    requires rest == [] || rest[0] != AT
    ensures SingleAt(s, i) == i + |u| + |Double(p)|
    decreases |u|
  {
    hide SingleAt, Double;
    var more := Double(p) + ([AT] + rest);
    CatCons(u, more);
    if u == [] {
      ScanPassesDouble(s, i, p, rest);
    } else {
      assert u[0] in u && forall c | c in u[1..] :: c in u;
      ScanStep(s, i, s[i..]);
      ScanPasses(s, i + 1, u[1..], p, rest);
    }
  }

  /** A tail that may be missing, cut off by its separator. */
  lemma CutTail(a: seq<byte>, c: byte, tail: Option<seq<byte>>)
    requires c !in a
    ensures var s := a + if tail.Some? then [c] + tail.value else [];
      Before(s, c) == a && After(s, c) == tail.GetOr([])
  {
    hide Before, After;
    if tail.Some? {
      CutAt(a, c, tail.value);
      CatAssoc(a, [c], tail.value);
    } else {
      CutAt(a, c, []);
      CatEmpty(a);
    }
  }

  lemma BracketedHost(h: seq<byte>, t: seq<byte>)
    requires GoodHost(h) && h != [] && h[0] == LBRACKET
    ensures ParseHost(h + t) == (h, After(Before(t, SLASH), COLON), After(t, SLASH))
  {
    hide Before, After, Index;
    var hn, k := h + t, |h| - 1;
    assert hn[0] == h[0] && hn[k] == h[k] && hn[..k] == h[..k];
    IndexIsUnique(hn, RBRACKET, k);
    assert hn[..k + 1] == h && hn[k + 1..] == t;
  }

  lemma PlainHost(h: seq<byte>, t: seq<byte>)
    requires h == [] || h[0] != LBRACKET
    requires h == [] ==> t == [] || t[0] != LBRACKET
    ensures var hn := h + t;
      ParseHost(hn) == (Before(Before(hn, SLASH), COLON), After(Before(hn, SLASH), COLON), After(hn, SLASH))
  {
    hide Before, After;
    assert h != [] ==> (h + t)[0] == h[0];
    assert h == [] ==> h + t == t;
  }

  lemma ParsePrintedHost(f: Form)
    requires GoodHost(f.host) && (f.port.Some? ==> SLASH !in f.port.value)
    ensures ParseHost(f.PrintedHost()) == (f.host, f.port.GetOr([]), f.cmd.GetOr([]))
  {
    hide Before, After, ParseHost;
    var h := f.host;
    var colon := if f.port.Some? then [COLON] + f.port.value else [];
    var slash := if f.cmd.Some? then [SLASH] + f.cmd.value else [];
    if h != [] && h[0] == LBRACKET {
      BracketedHost(h, colon + slash);
      CutTail(colon, SLASH, f.cmd);
      CutTail([], COLON, f.port);
      CatEmpty(colon);
    } else {
      PlainHost(h, colon + slash);
      CatAssoc(h, colon, slash);
      CutTail(h + colon, SLASH, f.cmd);
      CutTail(h, COLON, f.port);
    }
  }

  lemma PartsOfCut(us: seq<byte>, rest: seq<byte>)
    ensures var s := us + [AT] + rest; s[..|us|] == us && s[|us|] == AT && s[|us| + 1..] == rest
  {
  }

  /** The text before the single '@' is what was printed there. */
  lemma ScanPrinted(user: seq<byte>, pass: seq<byte>, rest: seq<byte>)
    requires AT !in user && (rest == [] || rest[0] != AT)
    ensures var us := user + Double(pass);
      UserText(us + [AT] + rest) == us && HostText(us + [AT] + rest) == rest
  {
    hide Double, SingleAt;
    var s := user + Double(pass) + [AT] + rest;
    CatAssoc(user + Double(pass), [AT], rest);
    CatAssoc(user, Double(pass), [AT] + rest);
    assert s[0..] == s;
    ScanPasses(s, 0, user, pass, rest);
    PartsOfCut(user + Double(pass), rest);
  }

  lemma {:induction false} NoSingleAt(s: seq<byte>, i: nat)
    requires i <= |s| && AT !in s
    ensures SingleAt(s, i) == |s|
    decreases |s| - i
  {
    if i < |s| {
      assert s[i] in s;
      NoSingleAt(s, i + 1);
    }
  }

  lemma PrintedFront(f: Form)
    requires GoodHost(f.host)
    ensures var r := f.PrintedHost(); r == [] || r[0] != AT
  {
    HostFront(f.host);
  }

  lemma ParsePrintedUser(f: Form)
    requires f.Printable()
    ensures HostText(f.Print()) == f.PrintedHost()
    ensures var us := UserText(f.Print());
      && Before(us, COLON) == f.Meaning().user
      && After(us, COLON) == if f.login.UserWithPassword? then Double(f.login.pass) else []
  {
    hide Before, After, SingleAt, GoodHost;
    var rest := f.PrintedHost();
    PrintedFront(f);
    match f.login
    case Nobody =>
      NoSingleAt(rest, 0);
      CutAt([], COLON, []);
    case User(u) =>
      ScanPrinted(u, [], rest);
      CatEmpty(u);
      CutAt(u, COLON, []);
    case UserWithPassword(u, p) =>
      ScanPrinted(u + [COLON], p, rest);
      CutAt(u, COLON, Double(p));
  }

  /** What parsing makes of a printed connect string, whatever parts it has: these parts, the
      password squeezed. So it gives the parts back exactly when the password has no two
      adjacent '@'. */
  lemma ParseInvertsPrint(f: Form)
    requires f.Printable()
    ensures Parse(f.Print()) == f.Meaning().(pass := Squeeze(f.Meaning().pass))
    ensures Parse(f.Print()) == f.Meaning() <==> NoAtPair(f.Meaning().pass)
  {
    hide Double, Squeeze, UserText, HostText, ParseHost, GoodHost, NoAtPair, Before, After, f.Print, f.PrintedHost;
    ParsePrintedUser(f);
    ParsePrintedHost(f);
    SqueezeOfPlain(f.Meaning().pass);
    if f.login.UserWithPassword? {
      SqueezeOfDouble(f.login.pass);
    }
  }

  lemma HostFront(h: seq<byte>)
    requires GoodHost(h)
    ensures h != [] ==> h[0] != AT
  {
  }

  lemma BeforeIsShorter(s: seq<byte>, c: byte)
    ensures |Before(s, c)| <= |s| && |After(s, c)| <= |s|
  {
  }

  /** The rewritten host name never needs more room than the connect string had. */
  lemma RewrittenFits(s: seq<byte>)
    ensures |Rewritten(s)| <= |s|
  {
    hide Before, After, Squeeze, SingleAt;
    var us, hn := UserText(s), HostText(s);
    BeforeIsShorter(us, COLON);
    BeforeIsShorter(hn, SLASH);
    BeforeIsShorter(Before(hn, SLASH), COLON);
    assert us != [] ==> |us| + 1 + |hn| == |s|;
    assert |ParseHost(hn).0| <= |hn|;
  }

  /** The form with neither password, port nor command. */
  function Plain(f: Form): Form {
    Form(if f.login.Nobody? || f.login == User([]) then Nobody else User(f.login.user), f.host, None, None)
  }

  /** What is left of a printed connect string: the user, if there was any text for one, and the
      host. */
  lemma RewrittenPrint(f: Form)
    requires f.Printable()
    ensures Rewritten(f.Print()) ==
            if f.login.Nobody? || f.login == User([]) then f.host else f.login.user + [AT] + f.host
  {
    hide Double, Squeeze, SingleAt, ParseHost, GoodHost, Before, After, f.PrintedHost;
    ParsePrintedUser(f);
    ParsePrintedHost(f);
    UserTextPrinted(f);
  }

  lemma UserTextPrinted(f: Form)
    requires f.Printable()
    ensures UserText(f.Print()) == [] <==> f.login.Nobody? || f.login == User([])
  {
    hide Double, SingleAt, GoodHost, f.PrintedHost;
    var rest := f.PrintedHost();
    PrintedFront(f);
    match f.login
    case Nobody => NoSingleAt(rest, 0);
    case User(u) =>
      ScanPrinted(u, [], rest);
      assert Double([]) == [] by {
        DoubleFront([]);
      }
      CatEmpty(u);
    case UserWithPassword(u, p) =>
      ScanPrinted(u + [COLON], p, rest);
  }

  lemma PlainPrint(f: Form)
    ensures Plain(f).PrintedHost() == f.host
    ensures Plain(f).Print() ==
            if f.login.Nobody? || f.login == User([]) then f.host else f.login.user + [AT] + f.host
  {
    CatEmpty(f.host);
  }

  lemma ParseOfHost(f: Form)
    requires f.Printable() && Plain(f).login.Nobody?
    ensures Parse(f.host) == Plain(f).Meaning() <==> SingleAt(f.host, 0) == |f.host|
  {
    hide ParseHost, GoodHost, Squeeze, Before, After;
    PlainPrint(f);
    ParsePrintedHost(Plain(f));
    CutAt([], COLON, []);
    SqueezeOfPlain([]);
    HostIsShorter(HostText(f.host));
  }

  lemma HostIsShorter(hn: seq<byte>)
    ensures |ParseHost(hn).0| <= |hn|
  {
    hide Before, After;
    BeforeIsShorter(hn, SLASH);
    BeforeIsShorter(Before(hn, SLASH), COLON);
  }

  /** No secret is left in the host name buffer, nor a port or command: parsed again it gives the
      same user and host and nothing else. That fails only where an empty user text was all that
      kept an '@' of the host from being taken for the one behind the user. */
  lemma RewrittenParses(f: Form)
    requires f.Printable()
    ensures Parse(Rewritten(f.Print())) == f.Meaning().(pass := [], port := [], cmd := [])
      <==> (f.login == User([]) ==> SingleAt(f.host, 0) == |f.host|)
  {
    hide Double, Squeeze, SingleAt, Parse, GoodHost, NoAtPair, Rewritten, f.PrintedHost;
    RewrittenPrint(f);
    PlainPrint(f);
    if Plain(f).login.Nobody? {
      ParseOfHost(f);
      if f.login.Nobody? {
        HostInPrint(f);
        NoSingleAt(f.host, 0);
      }
    } else {
      ParseInvertsPrint(Plain(f));
      SqueezeOfPlain([]);
      SqueezeOfNothing();
    }
  }

  lemma SqueezeOfNothing()
    ensures Squeeze([]) == []
  {
  }

  lemma HostInPrint(f: Form)
    requires AT !in f.PrintedHost()
    ensures AT !in f.host
  {
    assert f.PrintedHost()[..|f.host|] == f.host;
  }

  // ---------------------------------------------------------------- ManageConnectString

  /** A new buffer holding the empty string. */
  method EmptyBuffer(size: nat) returns (m: array<byte>)
    requires size > 0
    ensures fresh(m) && m.Length == size && HoldsAt(m, 0, [])
  {
    m := new byte[size](_ => NUL);
  }

  /** Finds the first `c` of the string at `m[from..]`. */
  method FindByte(m: array<byte>, from: nat, c: byte, ghost s: seq<byte>) returns (k: nat)
    requires HoldsAt(m, from, s) && c != NUL
    ensures k == Index(s, c)
  {
    k := 0;
    while m[from + k] != NUL && m[from + k] != c
      invariant k <= |s| && c !in s[..k]
      decreases |s| - k
    {
      assert s[..k + 1] == s[..k] + [s[k]];
      k := k + 1;
    }
    IndexIsUnique(s, c, k);
  }

  /** Moves what follows the first `c` of the string at `m[from..]` to `out`. */
  method CutOff(m: array<byte>, from: nat, c: byte, out: array<byte>, ghost s: seq<byte>)
    requires HoldsAt(m, from, s) && c != NUL && out != m && |s| < out.Length && HoldsAt(out, 0, [])
    modifies m, out
    ensures HoldsAt(m, from, Before(s, c)) && HoldsAt(out, 0, After(s, c))
    ensures forall i | 0 <= i < from :: m[i] == old(m[i])
  {
    var k := FindByte(m, from, c, s);
    if m[from + k] != NUL {
      assert HoldsAt(m, from + k + 1, s[k + 1..]);
      var n := StrCpy(out, 0, m, from + k + 1, s[k + 1..]);
      m[from + k] := NUL;
    }
  }

  /** Takes port and command from what follows the host at `from`. */
  method SplitAfter(hn: array<byte>, from: nat, po: array<byte>, cm: array<byte>, ghost s: seq<byte>)
    requires HoldsAt(hn, from, s) && hn != po && hn != cm && po != cm
    requires |s| < po.Length && |s| < cm.Length && HoldsAt(po, 0, []) && HoldsAt(cm, 0, [])
    modifies hn, po, cm
    ensures HoldsAt(hn, from, Before(Before(s, SLASH), COLON))
    ensures HoldsAt(po, 0, After(Before(s, SLASH), COLON)) && HoldsAt(cm, 0, After(s, SLASH))
    ensures forall i | 0 <= i < from :: hn[i] == old(hn[i])
  {
    hide HoldsAt, After, Before;
    BeforeIsShorter(s, SLASH);
    CutOff(hn, from, SLASH, cm, s);
    CutOff(hn, from, COLON, po, Before(s, SLASH));
  }

  method SplitHost(hn: array<byte>, po: array<byte>, cm: array<byte>, ghost s: seq<byte>)
    requires HoldsAt(hn, 0, s) && hn != po && hn != cm && po != cm
    requires |s| < po.Length && |s| < cm.Length && HoldsAt(po, 0, []) && HoldsAt(cm, 0, [])
    modifies hn, po, cm
    ensures HoldsAt(hn, 0, ParseHost(s).0) && HoldsAt(po, 0, ParseHost(s).1) && HoldsAt(cm, 0, ParseHost(s).2)
  {
    hide Before, After, Index;
    if hn[0] == LBRACKET {
      var k := FindByte(hn, 0, RBRACKET, s);
      if hn[k] != NUL {
        var q := k + 1;
        SplitAfter(hn, q, po, cm, s[q..]);
        hn[q] := NUL;
      }
    } else {
      SplitAfter(hn, 0, po, cm, s);
    }
  }

  /** Finds the first doubled '@'. */
  method FindAtPair(pw: array<byte>, ghost s: seq<byte>) returns (k: nat, found: bool)
    requires HoldsAt(pw, 0, s)
    ensures if found then AtPair(s, k) else NoAtPair(s)
  {
    k := 0;
    while pw[k] != NUL
      invariant k <= |s| && forall i | 0 <= i < k :: !AtPair(s, i)
      decreases |s| - k
    {
      if pw[k] == AT && pw[k + 1] == AT {
        return k, true;
      }
      k := k + 1;
    }
    OnlyNulEnds(pw, 0, s, k);
    found := false;
  }

  lemma {:induction false} SqueezeIgnoresOneOfPair(s: seq<byte>, k: nat)
    requires AtPair(s, k)
    ensures Squeeze(WithoutByte(s, k)) == Squeeze(s)
    decreases k
  {
    var w := WithoutByte(s, k);
    if k == 0 {
      assert w == s[1..];
    } else {
      assert w[1..] == WithoutByte(s[1..], k - 1);
      assert |w| > 1 && w[0] == s[0] && (k > 1 ==> w[1] == s[1]);
      SqueezeIgnoresOneOfPair(s[1..], k - 1);
    }
  }

  /** Moves the rest of the string down over the byte at `k`. */
  method ShiftDown(pw: array<byte>, k: nat, ghost s: seq<byte>)
    requires HoldsAt(pw, 0, s) && k < |s|
    modifies pw
    ensures HoldsAt(pw, 0, WithoutByte(s, k))
  {
    pw[k] := pw[k + 1];
    var p := k + 1;
    while pw[p] != NUL
      invariant k < p <= |s| && pw[|s|] == NUL
      invariant forall i | 0 <= i < k :: pw[i] == s[i]
      invariant forall i | k <= i < p && i + 1 < |s| :: pw[i] == s[i + 1]
      invariant p == |s| ==> pw[|s| - 1] == NUL
      invariant forall i | p <= i < |s| :: pw[i] == s[i]
      decreases |s| - p
    {
      pw[p] := pw[p + 1];
      p := p + 1;
    }
  }

  /** Takes out one '@' of the first doubled pair until there is none. */
  method CollapsePairs(pw: array<byte>, ghost s: seq<byte>)
    requires HoldsAt(pw, 0, s)
    modifies pw
    ensures HoldsAt(pw, 0, Squeeze(s))
  {
    ghost var t := s;
    var k, found := FindAtPair(pw, s);
    while found
      invariant HoldsAt(pw, 0, t) && Squeeze(t) == Squeeze(s)
      invariant if found then AtPair(t, k) else NoAtPair(t)
      decreases |t|
    {
      ShiftDown(pw, k, t);
      SqueezeIgnoresOneOfPair(t, k);
      t := WithoutByte(t, k);
      k, found := FindAtPair(pw, t);
    }
    SqueezeOfPlain(t);
  }

  /** Finds the '@' that ends the user text, passing over doubled ones. */
  method FindSingleAt(m: array<byte>, ghost s: seq<byte>) returns (i: nat)
    requires HoldsAt(m, 0, s)
    ensures i == SingleAt(s, 0)
  {
    i := 0;
    while m[i] != NUL
      invariant i <= |s| && SingleAt(s, 0) == SingleAt(s, i)
      decreases |s| - i
    {
      if m[i] == AT {
        if m[i + 1] == AT {
          i := i + 1;
        } else {
          return;
        }
      }
      i := i + 1;
    }
  }

  /** Writes the two strings with an '@' between them. */
  method JoinWithAt(m: array<byte>, us: array<byte>, hn: array<byte>, ghost u: seq<byte>, ghost h: seq<byte>)
    requires HoldsAt(us, 0, u) && HoldsAt(hn, 0, h) && m != us && m != hn && |u| + 1 + |h| < m.Length
    modifies m
    ensures HoldsAt(m, 0, u + [AT] + h)
  {
    var n := StrCpy(m, 0, us, 0, u);
    m[n] := AT;
    assert forall k | 0 <= k < |u| :: m[k] == m[0 + k];
    n := StrCpy(m, n + 1, hn, 0, h);
    ghost var w := u + [AT] + h;
    forall i | 0 <= i < |w|
      ensures w[i] != NUL && m[0 + i] == w[i]
    {
      if i > |u| {
        assert w[i] == h[i - |u| - 1] && m[|u| + 1 + (i - |u| - 1)] == h[i - |u| - 1];
      }
    }
  }

  /** Puts what precedes the single '@' in `us` and what follows it in `hn`. */
  method SplitUser(hostname: array<byte>, us: array<byte>, hn: array<byte>, ghost s: seq<byte>)
    requires HoldsAt(hostname, 0, s) && us != hn && us != hostname && hn != hostname
    requires |s| < us.Length && |s| < hn.Length && HoldsAt(us, 0, []) && HoldsAt(hn, 0, s)
    modifies us, hn
    ensures HoldsAt(us, 0, UserText(s)) && HoldsAt(hn, 0, HostText(s))
  {
    hide SingleAt;
    var i := FindSingleAt(hostname, s);
    if hostname[i] != NUL {
      var n := StrCpy(us, 0, hostname, 0, s);
      us[i] := NUL;
      assert HoldsAt(hostname, i + 1, s[i + 1..]);
      n := StrCpy(hn, 0, hostname, i + 1, s[i + 1..]);
    }
  }

  /** The lengths that make every copy below fit. */
  lemma PartsFit(s: seq<byte>)
    ensures |UserText(s)| <= |s| && |HostText(s)| <= |s|
    ensures UserText(s) != [] ==> |UserText(s)| + 1 + |HostText(s)| == |s|
    ensures |Parse(s).user| <= |UserText(s)| && |Parse(s).host| <= |HostText(s)|
  {
    hide Before, After, Squeeze, SingleAt;
    BeforeIsShorter(UserText(s), COLON);
    var hn := HostText(s);
    BeforeIsShorter(hn, SLASH);
    BeforeIsShorter(Before(hn, SLASH), COLON);
  }

  /** Splits the user text at its ':' and collapses the doubled '@' of the password. */
  method SplitPassword(us: array<byte>, pw: array<byte>, ghost u: seq<byte>) returns (any: bool)
    requires HoldsAt(us, 0, u) && us != pw && |u| < pw.Length && HoldsAt(pw, 0, [])
    modifies us, pw
    ensures HoldsAt(us, 0, Before(u, COLON)) && HoldsAt(pw, 0, Squeeze(After(u, COLON)))
    ensures any <==> u != []
  {
    assert u != [] ==> u[0] != NUL;
    any := us[0] != NUL;
    if any {
      CutOff(us, 0, COLON, pw, u);
      CollapsePairs(pw, After(u, COLON));
    }
  }

  lemma Holds(m: array<byte>, s: seq<byte>)
    requires HoldsAt(m, 0, s)
    ensures |s| < m.Length
  {
  }

  /** Splits the connect string `s` in `hostname` and leaves user and host there. */
  method ManageConnectString(hostname: array<byte>, ghost s: seq<byte>) returns (parts: Parts)
    requires HoldsAt(hostname, 0, s)
    modifies hostname
    ensures parts == Parse(s)
    ensures HoldsAt(hostname, 0, Rewritten(s))
  {
    hide Squeeze, SingleAt, ParseHost, Before, After, UserText, HostText, HoldsAt;
    Holds(hostname, s);
    PartsFit(s);
    var us := EmptyBuffer(hostname.Length);
    var pw := EmptyBuffer(hostname.Length);
    var hn := EmptyBuffer(hostname.Length);
    var po := EmptyBuffer(hostname.Length);
    var cm := EmptyBuffer(hostname.Length);
    var n := StrCpy(hn, 0, hostname, 0, s);
    SplitUser(hostname, us, hn, s);
    SplitHost(hn, po, cm, HostText(s));
    ghost var p := Parse(s);
    var any := SplitPassword(us, pw, UserText(s));
    if any {
      JoinWithAt(hostname, us, hn, p.user, p.host);
    } else {
      n := StrCpy(hostname, 0, hn, 0, p.host);
    }
    var user := TextOf(us, 0, p.user);
    var pass := TextOf(pw, 0, p.pass);
    var host := TextOf(hn, 0, p.host);
    var port := TextOf(po, 0, p.port);
    var cmd := TextOf(cm, 0, p.cmd);
    parts := Parts(user, pass, host, port, cmd);
  }
}
