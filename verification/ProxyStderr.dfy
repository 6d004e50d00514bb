/** Collecting a proxy command's standard error into log lines (be_misc.c). */
module ProxyStderr {
  import opened CText

  datatype Message = FullLine(text: seq<byte>) | PartialLine(text: seq<byte>)

  /** Where a stream is cut: the raw segments logged, and the residue still buffered. */
  datatype Cut = Cut(segments: seq<seq<byte>>, residue: seq<byte>)

  // ---------------------------------------------------------------- one byte at a time

  /** A newline or a full buffer ends a segment. */
  function FeedByte(cap: nat, r: seq<byte>, b: byte): Cut {
    var s := r + [b];
    if b == LF || |s| >= cap then Cut([s], []) else Cut([], s)
  }

  function Feed(cap: nat, r: seq<byte>, data: seq<byte>): Cut
    decreases |data|
  {
    if data == [] then Cut([], r)
    else
      var first := FeedByte(cap, r, data[0]);
      var rest := Feed(cap, first.residue, data[1..]);
      Cut(first.segments + rest.segments, rest.residue)
  }

  /** What printf's %s shows of a segment: up to its first NUL. */
  function UpToNul(s: seq<byte>): (t: seq<byte>)
    ensures t <= s && NulFree(t) && (|t| < |s| ==> s[|t|] == NUL)
  {
    if s == [] || s[0] == NUL then [] else [s[0]] + UpToNul(s[1..])
  }

  /** A line without the line ending characters at its end. */
  function TrimEnd(s: seq<byte>): (t: seq<byte>)
    ensures t <= s && (t != [] ==> t[|t| - 1] != LF && t[|t| - 1] != CR)
    ensures forall i | |t| <= i < |s| :: s[i] == LF || s[i] == CR
  {
    if s != [] && (s[|s| - 1] == LF || s[|s| - 1] == CR) then TrimEnd(s[..|s| - 1]) else s
  }

  function Render(segment: seq<byte>): Message {
    if segment != [] && segment[|segment| - 1] == LF then FullLine(UpToNul(TrimEnd(segment)))
    else PartialLine(UpToNul(segment))
  }

  function Messages(segments: seq<seq<byte>>): (m: seq<Message>)
    ensures |m| == |segments| && forall i | 0 <= i < |m| :: m[i] == Render(segments[i])
  {
    seq(|segments|, i requires 0 <= i < |segments| => Render(segments[i]))
  }

  // ---------------------------------------------------------------- what the cuts are

  predicate IsSegment(cap: nat, s: seq<byte>) {
    0 < |s| <= cap && LF !in s[..|s| - 1] && (s[|s| - 1] == LF || |s| == cap)
  }

  predicate IsResidue(cap: nat, r: seq<byte>) {
    |r| < cap && LF !in r
  }

  /** Nothing is lost: every segment is a line or a full buffer, and the segments followed by the
      residue are the stream. */
  lemma {:induction false} FeedCutsTheStream(cap: nat, r: seq<byte>, data: seq<byte>)
    requires IsResidue(cap, r)
    ensures var c := Feed(cap, r, data);
            && IsResidue(cap, c.residue) && (forall i | 0 <= i < |c.segments| :: IsSegment(cap, c.segments[i]))
            && Concat(c.segments) + c.residue == r + data
    decreases |data|
  {
    hide Feed;
    FeedUnfolds(cap, r, []);
    if data == [] {
      assert r + data == r;
    } else {
      var first := FeedByte(cap, r, data[0]);
      var rest := Feed(cap, first.residue, data[1..]);
      FeedUnfolds(cap, r, data);
      assert (r + [data[0]])[..|r|] == r;
      FeedCutsTheStream(cap, first.residue, data[1..]);
      ConcatOfBoth(first.segments, rest.segments);
      ConcatOfOne(r + [data[0]]);
      Regroup(Concat(first.segments), Concat(rest.segments), rest.residue, first.residue, data[1..]);
      assert (r + [data[0]]) + data[1..] == r + data;
    }
  }

  lemma Regroup(a: seq<byte>, b: seq<byte>, c: seq<byte>, mid: seq<byte>, rest: seq<byte>)
    requires b + c == mid + rest
    ensures (a + b) + c == (a + mid) + rest
  {
    assert (a + b) + c == a + (b + c);
    assert a + (mid + rest) == (a + mid) + rest;
  }

  /** However the stream arrives, it is cut in the same places. */
  lemma {:induction false} FeedInTwoChunks(cap: nat, r: seq<byte>, a: seq<byte>, b: seq<byte>)
    ensures var c := Feed(cap, r, a);
            var d := Feed(cap, c.residue, b);
            Feed(cap, r, a + b) == Cut(c.segments + d.segments, d.residue)
    decreases |a|
  {
    hide FeedByte, Feed;
    FeedUnfolds(cap, r, a);
    FeedUnfolds(cap, r, a + b);
    if a == [] {
      assert a + b == b;
      assert [] + Feed(cap, r, b).segments == Feed(cap, r, b).segments;
    } else {
      assert (a + b)[1..] == a[1..] + b;
      var first := FeedByte(cap, r, a[0]);
      FeedInTwoChunks(cap, first.residue, a[1..], b);
      var c := Feed(cap, first.residue, a[1..]);
      var d := Feed(cap, c.residue, b);
      assert (first.segments + c.segments) + d.segments == first.segments + (c.segments + d.segments);
    }
  }

  /** The stream as it arrives in any number of calls. */
  function FeedChunks(cap: nat, r: seq<byte>, chunks: seq<seq<byte>>): Cut
    decreases |chunks|
  {
    if chunks == [] then Cut([], r)
    else
      var c := Feed(cap, r, chunks[0]);
      var d := FeedChunks(cap, c.residue, chunks[1..]);
      Cut(c.segments + d.segments, d.residue)
  }

  lemma {:induction false} FeedInAnyChunks(cap: nat, r: seq<byte>, chunks: seq<seq<byte>>)
    ensures FeedChunks(cap, r, chunks) == Feed(cap, r, Concat(chunks))
    decreases |chunks|
  {
    hide Feed;
    if chunks == [] {
      FeedUnfolds(cap, r, []);
    } else {
      FeedInTwoChunks(cap, r, chunks[0], Concat(chunks[1..]));
      FeedInAnyChunks(cap, Feed(cap, r, chunks[0]).residue, chunks[1..]);
    }
  }

  lemma FeedUnfolds(cap: nat, r: seq<byte>, data: seq<byte>)
    ensures Feed(cap, r, []) == Cut([], r)
    ensures data != [] ==>
      var first := FeedByte(cap, r, data[0]);
      var rest := Feed(cap, first.residue, data[1..]);
      Feed(cap, r, data) == Cut(first.segments + rest.segments, rest.residue)
  {
  }

  /** Bytes that end no segment only fill the buffer. */
  lemma {:induction false} FeedFills(cap: nat, r: seq<byte>, data: seq<byte>)
    requires LF !in data && |r| + |data| < cap
    ensures Feed(cap, r, data) == Cut([], r + data)
    decreases |data|
  {
    hide Feed;
    FeedUnfolds(cap, r, data);
    if data == [] {
      assert r + data == r;
    } else {
      assert data[0] != LF && FeedByte(cap, r, data[0]) == Cut([], r + [data[0]]);
      FeedFills(cap, r + [data[0]], data[1..]);
      assert (r + [data[0]]) + data[1..] == r + data;
    }
  }

  /** A segment at the front of the stream is the first one cut off. */
  lemma FeedSegment(cap: nat, s: seq<byte>, rest: seq<byte>)
    requires IsSegment(cap, s)
    ensures Feed(cap, [], s + rest) == Cut([s] + Feed(cap, [], rest).segments, Feed(cap, [], rest).residue)
  {
    hide Feed;
    var n := |s| - 1;
    assert s == s[..n] + [s[n]] && [] + s[..n] == s[..n];
    assert FeedByte(cap, s[..n], s[n]) == Cut([s], []);
    FeedFills(cap, [], s[..n]);
    FeedInTwoChunks(cap, [], s[..n], [s[n]] + rest);
    assert s[..n] + ([s[n]] + rest) == s + rest;
    assert ([s[n]] + rest)[1..] == rest;
    FeedUnfolds(cap, s[..n], [s[n]] + rest);
    var d := [s] + Feed(cap, [], rest).segments;
    assert [] + d == d;
  }

  /** There is only one way to cut a stream into segments and a residue. */
  lemma {:induction false} CutIsUnique(cap: nat, c: Cut)
    requires IsResidue(cap, c.residue) && forall i | 0 <= i < |c.segments| :: IsSegment(cap, c.segments[i])
    ensures Feed(cap, [], Concat(c.segments) + c.residue) == c
    decreases |c.segments|
  {
    hide IsSegment;
    if c.segments == [] {
      FeedFills(cap, [], c.residue);
      assert Concat(c.segments) + c.residue == [] + c.residue == c.residue;
    } else {
      var tail := Cut(c.segments[1..], c.residue);
      CutIsUnique(cap, tail);
      var rest := Concat(tail.segments) + c.residue;
      FeedSegment(cap, c.segments[0], rest);
      assert Concat(c.segments) + c.residue == c.segments[0] + rest;
      assert [c.segments[0]] + c.segments[1..] == c.segments;
    }
  }

  /** Starting with a residue is the same as having it in front of the stream. */
  lemma ResidueGoesFirst(cap: nat, r: seq<byte>, data: seq<byte>)
    requires IsResidue(cap, r)
    ensures Feed(cap, [], r + data) == Feed(cap, r, data)
  {
    FeedFills(cap, [], r);
    assert [] + r == r;
    FeedInTwoChunks(cap, [], r, data);
    assert [] + Feed(cap, r, data).segments == Feed(cap, r, data).segments;
  }

  // ---------------------------------------------------------------- what the log says

  /** What a proxy writes: a line and its end, or so much of one that the buffer is full. */
  datatype Part = Ended(body: seq<byte>, end: seq<byte>) | Overlong(text: seq<byte>) {
    function Raw(): seq<byte> {
      if Ended? then body + end else text
    }

    /** The message for it has no line end, and stops at a NUL. */
    function Meaning(): Message {
      if Ended? then FullLine(body[..Index(body, NUL)]) else PartialLine(text[..Index(text, NUL)])
    }

    /** A line ends in a newline, and any carriage returns before that. */
    predicate Fits(cap: nat) {
      if Ended? then
        && |body| + |end| <= cap && LF !in body && (body != [] ==> body[|body| - 1] != CR)
        && end != [] && end[|end| - 1] == LF && forall i | 0 <= i < |end| - 1 :: end[i] == CR
      else
        0 < |text| == cap && LF !in text
    }
  }

  lemma {:induction false} UpToNulIsIndex(s: seq<byte>)
    ensures UpToNul(s) == s[..Index(s, NUL)]
  {
    var t := UpToNul(s);
    assert NUL !in s[..|t|] by {
      assert s[..|t|] == t;
    }
    IndexIsUnique(s, NUL, |t|);
  }

  lemma PartIsSegment(cap: nat, p: Part)
    requires p.Fits(cap)
    ensures IsSegment(cap, p.Raw())
  {
    var s := p.Raw();
    if p.Ended? {
      var n := |p.body|;
      forall i | 0 <= i < |s| - 1
        ensures s[i] != LF
      {
        if i < n {
          assert s[i] == p.body[i];
        } else {
          assert s[i] == p.end[i - n] == CR;
        }
      }
    }
  }

  lemma LineIsTrimmed(body: seq<byte>, end: seq<byte>)
    requires body != [] ==> body[|body| - 1] != LF && body[|body| - 1] != CR
    requires forall i | 0 <= i < |end| :: end[i] == LF || end[i] == CR
    ensures TrimEnd(body + end) == body
  {
    hide TrimEnd;
    var s, n := body + end, |body|;
    assert forall i | n <= i < |s| :: s[i] == end[i - n];
    TrimIsUnique(s, n);
    assert s[..n] == body;
  }

  lemma PartIsRendered(cap: nat, p: Part)
    requires p.Fits(cap)
    ensures Render(p.Raw()) == p.Meaning()
  {
    hide TrimEnd, UpToNul, Index;
    match p
    case Ended(body, end) =>
      LastOfBoth(body, end);
      assert body != [] ==> body[|body| - 1] in body;
      LineIsTrimmed(body, end);
      UpToNulIsIndex(body);
    case Overlong(text) =>
      assert text[|text| - 1] in text;
      UpToNulIsIndex(text);
  }

  lemma LastOfBoth(a: seq<byte>, b: seq<byte>)
    requires b != []
    ensures (a + b)[|a + b| - 1] == b[|b| - 1]
  {
  }

  function Raws(parts: seq<Part>): seq<seq<byte>> {
    seq(|parts|, i requires 0 <= i < |parts| => parts[i].Raw())
  }

  /** However it arrives, for each line in the stream its text is logged, and for each full buffer
      what is in it, in order; what is left stays in the buffer. */
  lemma StreamIsLogged(cap: nat, parts: seq<Part>, left: seq<byte>, chunks: seq<seq<byte>>)
    requires (forall i | 0 <= i < |parts| :: parts[i].Fits(cap)) && IsResidue(cap, left)
    requires Concat(chunks) == Concat(Raws(parts)) + left
    ensures var c := FeedChunks(cap, [], chunks);
      && c.residue == left && |Messages(c.segments)| == |parts|
      && forall i | 0 <= i < |parts| :: Messages(c.segments)[i] == parts[i].Meaning()
  {
    hide IsSegment, Render, FeedChunks;
    forall i | 0 <= i < |parts|
      ensures IsSegment(cap, Raws(parts)[i]) && Render(Raws(parts)[i]) == parts[i].Meaning()
    {
      PartIsSegment(cap, parts[i]);
      PartIsRendered(cap, parts[i]);
    }
    CutIsUnique(cap, Cut(Raws(parts), left));
    FeedInAnyChunks(cap, [], chunks);
  }

  /** A line without a NUL is logged as it is. */
  lemma WholeLineIsLogged(body: seq<byte>, end: seq<byte>)
    requires NulFree(body)
    ensures Ended(body, end).Meaning() == FullLine(body)
  {
    assert body[..|body|] == body;
    IndexIsUnique(body, NUL, |body|);
  }

  // ---------------------------------------------------------------- log_proxy_stderr

  class ProxyStderrBuf {
    const buf: array<byte>
    var size: nat
    /** The messages passed to plug_log. */
    var log: seq<Message>

    constructor (capacity: nat)
      requires capacity > 0
      ensures Valid() && fresh(buf) && buf.Length == capacity && Residue() == [] && log == []
    {
      buf := new byte[capacity];
      size, log := 0, [];
    }

    ghost predicate Valid()
      reads this, buf
    {
      size <= buf.Length && IsResidue(buf.Length, buf[..size])
    }

    ghost function Residue(): seq<byte>
      requires size <= buf.Length
      reads this, buf
    {
      buf[..size]
    }

    /** Finds the first newline from `pos` on, or the end of what is in the buffer. */
    method FindNewline(pos: nat) returns (at: nat)
      requires pos <= size <= buf.Length
      ensures pos <= at <= size && LF !in buf[pos..at] && (at < size ==> buf[at] == LF)
    {
      at := pos;
      while at < size && buf[at] != LF
        invariant pos <= at <= size && LF !in buf[pos..at]
      {
        at := at + 1;
      }
    }

    method LogLine(pos: nat, nl: nat)
      requires pos <= nl < size <= buf.Length && buf[nl] == LF && LF !in buf[pos..nl]
      modifies this`log
      ensures log == old(log) + [Render(buf[pos..nl + 1])]
    {
      hide TrimEnd, UpToNul;
      var endpos := nl;
      while endpos > pos && (buf[endpos - 1] == LF || buf[endpos - 1] == CR)
        invariant pos <= endpos <= nl
        invariant forall i | endpos <= i <= nl :: buf[i] == LF || buf[i] == CR
      {
        endpos := endpos - 1;
      }
      TrimIsUnique(buf[pos..nl + 1], endpos - pos);
      assert buf[pos..nl + 1][..endpos - pos] == buf[pos..endpos];
      log := log + [FullLine(UpToNul(buf[pos..endpos]))];
    }

    /** Logs the lines in the buffer; what is left starts at `pos`. */
    method LogLines() returns (pos: nat)
      requires 0 < size <= buf.Length
      modifies this`log
      ensures pos <= size && LF !in buf[pos..size]
      ensures var c, d := Feed(buf.Length, [], buf[..size]), Feed(buf.Length, [], buf[pos..size]);
              old(log) + Messages(c.segments) == log + Messages(d.segments) && c.residue == d.residue
    {
      hide Feed, Render, Messages;
      ghost var c := Feed(buf.Length, [], buf[..size]);
      pos := 0;
      assert buf[0..size] == buf[..size];
      while pos < size
        invariant pos <= size
        invariant var d := Feed(buf.Length, [], buf[pos..size]);
                  old(log) + Messages(c.segments) == log + Messages(d.segments) && c.residue == d.residue
      {
        var nl := FindNewline(pos);
        if nl == size {
          return;
        }
        ghost var line, rest := buf[pos..nl + 1], buf[nl + 1..size];
        assert buf[pos..size] == line + rest;
        FeedLine(buf.Length, line, rest);
        CatAssoc(log, [Render(line)], Messages(Feed(buf.Length, [], rest).segments));
        LogLine(pos, nl);
        pos := nl + 1;
      }
    }

    method LogProxyStderr(data: seq<byte>)
      requires Valid()
      modifies this`size, this`log, buf
      ensures Valid()
      ensures var c := Feed(buf.Length, old(Residue()), data);
              Residue() == c.residue && log == old(log) + Messages(c.segments)
    {
      hide Feed, Messages;
      var at := 0;
      ghost var c := Feed(buf.Length, Residue(), data);
      assert data[0..] == data;
      while at < |data|
        invariant 0 <= at <= |data| && Valid()
        invariant var d := Feed(buf.Length, Residue(), data[at..]);
                  old(log) + Messages(c.segments) == log + Messages(d.segments) && c.residue == d.residue
      {
        var n := buf.Length - size;
        if n > |data| - at {
          n := |data| - at;
        }
        var piece := data[at..at + n];
        ghost var r, logged := Residue(), log;
        ghost var done := Messages(Feed(buf.Length, r, piece).segments);
        FeedOn(buf.Length, r, data, at, n);
        Fill(piece);
        Drain(r, piece);
        CatAssoc(logged, done, Messages(Feed(buf.Length, Residue(), data[at + n..]).segments));
        at := at + n;
      }
      assert data[at..] == [];
      FeedNothing(buf.Length, Residue());
      CatEmpty(log);
      CatEmpty(old(log) + Messages(c.segments));
    }

    /** Copies input behind the residue. */
    method Fill(piece: seq<byte>)
      requires size + |piece| <= buf.Length
      modifies this`size, buf
      ensures size == old(size) + |piece| && buf[..size] == old(buf[..size]) + piece
    {
      forall i | 0 <= i < |piece| {
        buf[size + i] := piece[i];
      }
      size := size + |piece|;
    }

    /** Outputs what the filled buffer allows and moves the rest to its front. */
    method Drain(ghost r: seq<byte>, ghost piece: seq<byte>)
      requires 0 < size <= buf.Length && buf[..size] == r + piece && IsResidue(buf.Length, r)
      modifies this`size, this`log, buf
      ensures Valid()
      ensures var c := Feed(buf.Length, r, piece);
              Residue() == c.residue && log == old(log) + Messages(c.segments)
    {
      hide Feed, Render, Messages, IsSegment;
      ResidueGoesFirst(buf.Length, r, piece);
      var pos := LogLines();
      ghost var rest := buf[pos..size];
      FeedFullBuffer(buf.Length, rest);
      if pos == 0 && size == buf.Length {
        assert rest == buf[..size];
        log := log + [PartialLine(UpToNul(buf[..size]))];
        pos, size := 0, 0;
        rest := [];
      }
      MoveDown(pos, rest);
    }

    method MoveDown(pos: nat, ghost rest: seq<byte>)
      requires pos <= size <= buf.Length && buf[pos..size] == rest
      modifies this`size, buf
      ensures size == |rest| && size <= buf.Length && buf[..size] == rest
    {
      var newsize := size - pos;
      forall i | 0 <= i < newsize {
        buf[i] := buf[pos + i];
      }
      size := newsize;
    }
  }

  lemma FeedOn(cap: nat, r: seq<byte>, data: seq<byte>, at: nat, n: nat)
    requires at + n <= |data|
    ensures var d, c := Feed(cap, r, data[at..]), Feed(cap, r, data[at..at + n]);
            var e := Feed(cap, c.residue, data[at + n..]);
            d.residue == e.residue && Messages(d.segments) == Messages(c.segments) + Messages(e.segments)
  {
    hide Feed, Messages;
    assert data[at..] == data[at..at + n] + data[at + n..];
    FeedInTwoChunks(cap, r, data[at..at + n], data[at + n..]);
    var c := Feed(cap, r, data[at..at + n]);
    MessagesOfBoth(c.segments, Feed(cap, c.residue, data[at + n..]).segments);
  }

  /** A line at the front of the buffer is the first message. */
  lemma FeedLine(cap: nat, line: seq<byte>, rest: seq<byte>)
    requires 0 < |line| <= cap && line[|line| - 1] == LF && LF !in line[..|line| - 1]
    ensures var c, d := Feed(cap, [], line + rest), Feed(cap, [], rest);
            c.residue == d.residue && Messages(c.segments) == [Render(line)] + Messages(d.segments)
  {
    hide Feed, Render, IsSegment, Messages;
    LineIsSegment(cap, line);
    FeedSegment(cap, line, rest);
    MessagesOfBoth([line], Feed(cap, [], rest).segments);
    MessageOfOne(line);
  }

  lemma MessageOfOne(s: seq<byte>)
    ensures Messages([s]) == [Render(s)]
  {
    hide Render;
  }

  lemma FeedFullBuffer(cap: nat, s: seq<byte>)
    requires |s| <= cap && LF !in s && 0 < cap
    ensures var c := Feed(cap, [], s);
            if |s| == cap then c.residue == [] && Messages(c.segments) == [PartialLine(UpToNul(s))]
            else c.residue == s && Messages(c.segments) == []
  {
    hide Feed, Messages, IsSegment;
    FeedNothing(cap, []);
    if |s| == cap {
      FullBufferIsSegment(cap, s);
      FeedSegment(cap, s, []);
      assert s + [] == s;
    } else {
      FeedFills(cap, [], s);
      assert [] + s == s;
    }
  }

  lemma TrimIsUnique(s: seq<byte>, k: nat)
    requires k <= |s| && (forall i | k <= i < |s| :: s[i] == LF || s[i] == CR)
    requires k > 0 ==> s[k - 1] != LF && s[k - 1] != CR
    ensures TrimEnd(s) == s[..k]
  {
    hide TrimEnd;
    var t := TrimEnd(s);
    assert |t| <= k;
    assert t != [] ==> t[|t| - 1] == s[|t| - 1];
  }

  lemma MessagesOfBoth(s: seq<seq<byte>>, t: seq<seq<byte>>)
    ensures Messages(s + t) == Messages(s) + Messages(t)
  {
  }

  lemma FeedNothing(cap: nat, r: seq<byte>)
    ensures Feed(cap, r, []) == Cut([], r) && Messages([]) == []
  {
  }

  lemma LineIsSegment(cap: nat, s: seq<byte>)
    requires 0 < |s| <= cap && s[|s| - 1] == LF && LF !in s[..|s| - 1]
    ensures IsSegment(cap, s)
  {
  }

  lemma FullBufferIsSegment(cap: nat, s: seq<byte>)
    requires 0 < |s| == cap && LF !in s
    ensures IsSegment(cap, s) && Messages([s]) == [PartialLine(UpToNul(s))]
  {
  }
}
