/** The queue of top-level callbacks (callback.c): a linked list with head, tail and current
    pointers, idempotent callbacks, deletion by context and notification of the front end. */
module CallbackQueue {
  import opened Wrappers

  /** A callback that is queued at most once at a time. */
  class IdempotentCallback {
    var queued: bool
    const fn: nat
    const ctx: object?

    constructor (fn: nat, ctx: object?)
      ensures this.fn == fn && this.ctx == ctx && !queued
    {
      this.fn, this.ctx, queued := fn, ctx, false;
    }
  }

  /** A function and its context. `run_idempotent_callback` is the only function whose context
      is an IdempotentCallback. */
  datatype Call = UserCall(fn: nat, ctx: object?) | IdempotentCall(ic: IdempotentCallback)

  /** Whether deleting the callbacks of a context takes this call out. */
  predicate Concerns(call: Call, ctx: object?) {
    match call
    case UserCall(_, c) => c == ctx
    case IdempotentCall(ic) => ic == ctx || ic.ctx == ctx
  }

  // ---------------------------------------------------------------- the abstract queue

  /** A queued call and the number it was given when it was queued. */
  datatype Entry = Entry(ticket: nat, call: Call)

  datatype State = State(
    queue: seq<Entry>,
    curr: Option<Entry>,              // the callback being run
    ran: seq<nat>,                    // tickets of all callbacks started so far, in order
    deleted: set<nat>,                // tickets taken out by a deletion
    issued: nat,                      // tickets given out so far
    flagged: set<IdempotentCallback>, // those whose `queued` flag is set
    armed: bool,                      // a notifier is installed
    notified: nat)                    // how often it has been called
  {
    predicate Pending() {
      curr.Some? || queue != []
    }

    predicate Holds(ic: IdempotentCallback) {
      exists i :: 0 <= i < |queue| && queue[i].call == IdempotentCall(ic)
    }
  }

  const Initial := State([], None, [], {}, 0, {}, false, 0)

  datatype Op =
    | Arm(on: bool)
    | Queue(fn: nat, ctx: object?)
    | QueueIdempotent(ic: IdempotentCallback)
    | Delete(ctx: object?)
    | BeginRun
    | EndRun

  function Push(s: State, call: Call): State {
    s.(queue := s.queue + [Entry(s.issued, call)],
       issued := s.issued + 1,
       notified := s.notified + if s.armed && !s.Pending() then 1 else 0)
  }

  function Kept(q: seq<Entry>, ctx: object?): seq<Entry> {
    if q == [] then []
    else
      var n := |q| - 1;
      Kept(q[..n], ctx) + if Concerns(q[n].call, ctx) then [] else [q[n]]
  }

  function Tickets(q: seq<Entry>): seq<nat> {
    seq(|q|, i requires 0 <= i < |q| => q[i].ticket)
  }

  function Dropped(q: seq<Entry>, ctx: object?): set<nat> {
    set i | 0 <= i < |q| && Concerns(q[i].call, ctx) :: q[i].ticket
  }

  /** Callbacks are run one at a time; a nested run is not modelled. */
  predicate Enabled(s: State, op: Op) {
    match op
    case BeginRun => s.curr.None?
    case EndRun => s.curr.Some?
    case _ => true
  }

  function Step(s: State, op: Op): State {
    match op
    case Arm(on) => s.(armed := on)
    case Queue(fn, ctx) => Push(s, UserCall(fn, ctx))
    case QueueIdempotent(ic) =>
      if ic in s.flagged then s else Push(s.(flagged := s.flagged + {ic}), IdempotentCall(ic))
    case Delete(ctx) => s.(queue := Kept(s.queue, ctx), deleted := s.deleted + Dropped(s.queue, ctx))
    case BeginRun =>
      if s.queue == [] then s
      else
        var e := s.queue[0];
        s.(queue := s.queue[1..], curr := Some(e), ran := s.ran + [e.ticket],
           flagged := if e.call.IdempotentCall? then s.flagged - {e.call.ic} else s.flagged)
    case EndRun => s.(curr := None)
  }

  predicate Run(s: State, ops: seq<Op>, t: State)
    decreases |ops|
  {
    if ops == [] then s == t
    else Enabled(s, ops[0]) && Run(Step(s, ops[0]), ops[1..], t)
  }

  // ---------------------------------------------------------------- what every run keeps

  predicate Increasing(ts: seq<nat>) {
    forall i, j | 0 <= i < j < |ts| :: ts[i] < ts[j]
  }

  /** Callbacks start in the order they were queued, and every one queued has been started, is
      still waiting or was deleted, and no two of these. */
  predicate FirstInFirstOut(s: State) {
    && Increasing(s.ran + Tickets(s.queue))
    && (forall t | t in s.ran + Tickets(s.queue) :: t < s.issued && t !in s.deleted)
    && (forall t | t in s.deleted :: t < s.issued)
    && (forall t: nat | t < s.issued :: t in s.ran + Tickets(s.queue) || t in s.deleted)
  }

  predicate Distinct(q: seq<Entry>) {
    forall i, j | 0 <= i < j < |q| && q[i].call.IdempotentCall? :: q[i].call != q[j].call
  }

  /** An idempotent callback waits at most once, and only while its flag is set. */
  predicate QueuedOnce(s: State) {
    && Distinct(s.queue)
    && (forall i | 0 <= i < |s.queue| && s.queue[i].call.IdempotentCall? :: s.queue[i].call.ic in s.flagged)
  }

  predicate Inv(s: State) {
    FirstInFirstOut(s) && QueuedOnce(s)
  }

  lemma IncreasingAppend(ts: seq<nat>, x: nat)
    requires Increasing(ts) && forall i | 0 <= i < |ts| :: ts[i] < x
    ensures Increasing(ts + [x])
  {
  }

  lemma PushKeepsOrder(s: State, call: Call)
    requires FirstInFirstOut(s)
    ensures FirstInFirstOut(Push(s, call))
  {
    var t := Push(s, call);
    var all := s.ran + Tickets(s.queue);
    forall i | 0 <= i < |all|
      ensures all[i] < s.issued
    {
      assert all[i] in all;
    }
    IncreasingAppend(all, s.issued);
    assert t.ran + Tickets(t.queue) == (s.ran + Tickets(s.queue)) + [s.issued];
  }

  /** What a deletion leaves is a subsequence without the concerned calls. */
  lemma {:induction false} KeptIsFilter(q: seq<Entry>, ctx: object?)
    ensures forall i | 0 <= i < |Kept(q, ctx)| :: Kept(q, ctx)[i] in q && !Concerns(Kept(q, ctx)[i].call, ctx)
    ensures forall i | 0 <= i < |q| && !Concerns(q[i].call, ctx) :: q[i] in Kept(q, ctx)
    decreases |q|
  {
    if q != [] {
      var n := |q| - 1;
      KeptIsFilter(q[..n], ctx);
      var k := Kept(q[..n], ctx);
      assert q == q[..n] + [q[n]];
      forall i | 0 <= i < |k|
        ensures k[i] in q
      {
        assert k[i] in q[..n];
      }
      forall i | 0 <= i < n && !Concerns(q[i].call, ctx)
        ensures q[i] in Kept(q, ctx)
      {
        assert q[..n][i] in k;
      }
    }
  }

  /** Whatever holds between any two waiting calls in order still does after a deletion: used
      with ascending tickets it says that the order is kept. */
  lemma {:induction false} KeptIsInOrder(ran: seq<nat>, q: seq<Entry>, ctx: object?)
    requires Increasing(ran + Tickets(q))
    ensures Increasing(ran + Tickets(Kept(q, ctx)))
    decreases |q|
  {
    if q != [] {
      var n := |q| - 1;
      var k := Kept(q[..n], ctx);
      assert ran + Tickets(q) == (ran + Tickets(q[..n])) + [q[n].ticket];
      forall i, j | 0 <= i < j < |ran + Tickets(q[..n])|
        ensures (ran + Tickets(q[..n]))[i] < (ran + Tickets(q[..n]))[j]
      {
        assert (ran + Tickets(q))[i] < (ran + Tickets(q))[j];
      }
      KeptIsInOrder(ran, q[..n], ctx);
      if !Concerns(q[n].call, ctx) {
        assert Kept(q, ctx) == k + [q[n]];
        assert ran + Tickets(k + [q[n]]) == (ran + Tickets(k)) + [q[n].ticket];
        KeptIsFilter(q[..n], ctx);
        forall i | 0 <= i < |ran + Tickets(k)|
          ensures (ran + Tickets(k))[i] < q[n].ticket
        {
          BelowLast(ran, q, k, i);
        }
        IncreasingAppend(ran + Tickets(k), q[n].ticket);
      } else {
        assert Kept(q, ctx) == k;
      }
    }
  }

  lemma BelowLast(ran: seq<nat>, q: seq<Entry>, k: seq<Entry>, i: nat)
    requires q != [] && Increasing(ran + Tickets(q)) && i < |ran + Tickets(k)|
    requires forall l | 0 <= l < |k| :: k[l] in q[..|q| - 1]
    ensures (ran + Tickets(k))[i] < q[|q| - 1].ticket
  {
    var all, n := ran + Tickets(q), |q| - 1;
    assert all[|ran| + n] == q[n].ticket;
    if i < |ran| {
      assert all[i] < all[|ran| + n];
    } else {
      assert k[i - |ran|] in k && k[i - |ran|] in q[..n];
      var j :| 0 <= j < n && q[j] == k[i - |ran|];
      assert all[|ran| + j] < all[|ran| + n];
    }
  }

  lemma InTickets(q: seq<Entry>, t: nat)
    ensures t in Tickets(q) <==> exists i :: 0 <= i < |q| && q[i].ticket == t
  {
    if t in Tickets(q) {
      var i :| 0 <= i < |Tickets(q)| && Tickets(q)[i] == t;
      assert q[i].ticket == t;
    }
    if i :| 0 <= i < |q| && q[i].ticket == t {
      assert Tickets(q)[i] == t;
    }
  }

  /** After a deletion a ticket is waiting exactly if it was and its call is not concerned. */
  lemma KeptTickets(s: State, ctx: object?, t: nat)
    requires FirstInFirstOut(s)
    ensures t in Tickets(Kept(s.queue, ctx)) <==> t in Tickets(s.queue) && t !in Dropped(s.queue, ctx)
  {
    var k := Kept(s.queue, ctx);
    KeptIsFilter(s.queue, ctx);
    InTickets(s.queue, t);
    InTickets(k, t);
    if t in Tickets(k) {
      var i :| 0 <= i < |k| && k[i].ticket == t;
      assert k[i] in s.queue;
      var j :| 0 <= j < |s.queue| && s.queue[j] == k[i];
      forall l | 0 <= l < |s.queue| && s.queue[l].ticket == t
        ensures !Concerns(s.queue[l].call, ctx)
      {
        TicketsDiffer(s, j, l);
      }
    }
    if t in Tickets(s.queue) && t !in Dropped(s.queue, ctx) {
      var i :| 0 <= i < |s.queue| && s.queue[i].ticket == t;
      assert s.queue[i] in k;
    }
  }

  lemma TicketsDiffer(s: State, i: nat, j: nat)
    requires FirstInFirstOut(s) && i < |s.queue| && j < |s.queue| && s.queue[i].ticket == s.queue[j].ticket
    ensures i == j
  {
    var all := s.ran + Tickets(s.queue);
    assert all[|s.ran| + i] == s.queue[i].ticket && all[|s.ran| + j] == s.queue[j].ticket;
  }

  lemma DeleteKeepsOrder(s: State, ctx: object?)
    requires FirstInFirstOut(s)
    ensures FirstInFirstOut(Step(s, Delete(ctx)))
  {
    var t := Step(s, Delete(ctx));
    KeptIsInOrder(s.ran, s.queue, ctx);
    forall n: nat
      ensures n in t.ran + Tickets(t.queue) ==> n in s.ran + Tickets(s.queue) && n !in t.deleted
      ensures n in s.ran + Tickets(s.queue) ==> n in t.ran + Tickets(t.queue) || n in t.deleted
    {
      KeptTickets(s, ctx, n);
      DroppedAreWaiting(s, ctx, n);
    }
    forall n | n in t.deleted
      ensures n < t.issued
    {
      DroppedAreWaiting(s, ctx, n);
    }
  }

  lemma DroppedAreWaiting(s: State, ctx: object?, n: nat)
    requires FirstInFirstOut(s)
    ensures n in Dropped(s.queue, ctx) ==> n in Tickets(s.queue) && n !in s.ran && n < s.issued
  {
    if n in Dropped(s.queue, ctx) {
      var i :| 0 <= i < |s.queue| && s.queue[i].ticket == n;
      InTickets(s.queue, n);
      var all := s.ran + Tickets(s.queue);
      assert all[|s.ran| + i] == n;
      assert n in all;
      forall j | 0 <= j < |s.ran|
        ensures s.ran[j] != n
      {
        assert all[j] < all[|s.ran| + i];
      }
    }
  }

  lemma {:induction false} KeptIsDistinct(q: seq<Entry>, ctx: object?)
    requires Distinct(q)
    ensures Distinct(Kept(q, ctx))
    decreases |q|
  {
    if q != [] {
      var n := |q| - 1;
      var k := Kept(q[..n], ctx);
      KeptIsDistinct(q[..n], ctx);
      KeptIsFilter(q[..n], ctx);
      forall i | 0 <= i < |k| && k[i].call.IdempotentCall?
        ensures k[i].call != q[n].call
      {
        assert k[i] in q[..n];
        var j :| 0 <= j < n && q[j] == k[i];
        assert q[j].call != q[n].call;
      }
      assert Distinct(k + [q[n]]);
      assert Kept(q, ctx) == k || Kept(q, ctx) == k + [q[n]];
    }
  }

  lemma DeleteKeepsOnce(s: State, ctx: object?)
    requires QueuedOnce(s)
    ensures QueuedOnce(Step(s, Delete(ctx)))
  {
    var k := Kept(s.queue, ctx);
    KeptIsDistinct(s.queue, ctx);
    KeptIsFilter(s.queue, ctx);
    forall i | 0 <= i < |k| && k[i].call.IdempotentCall?
      ensures k[i].call.ic in s.flagged
    {
      assert k[i] in k && k[i] in s.queue;
    }
  }

  lemma BeginKeepsOrder(s: State)
    requires FirstInFirstOut(s) && s.queue != []
    ensures FirstInFirstOut(Step(s, BeginRun))
  {
    var t := Step(s, BeginRun);
    assert t.ran + Tickets(t.queue) == s.ran + Tickets(s.queue);
  }

  lemma StepKeepsInv(s: State, op: Op)
    requires Inv(s) && Enabled(s, op)
    ensures Inv(Step(s, op))
  {
    match op
    case Arm(_) =>
    case Queue(fn, ctx) => PushKeepsOrder(s, UserCall(fn, ctx));
    case QueueIdempotent(ic) =>
      if ic !in s.flagged {
        PushKeepsOrder(s.(flagged := s.flagged + {ic}), IdempotentCall(ic));
      }
    case Delete(ctx) =>
      DeleteKeepsOrder(s, ctx);
      DeleteKeepsOnce(s, ctx);
    case BeginRun =>
      if s.queue != [] {
        BeginKeepsOrder(s);
      }
    case EndRun =>
  }

  /** Every run keeps callbacks first in, first out, each at most once. */
  lemma {:induction false} RunsKeepInv(s: State, ops: seq<Op>, t: State)
    requires Inv(s) && Run(s, ops, t)
    ensures Inv(t)
    decreases |ops|
  {
    if ops != [] {
      StepKeepsInv(s, ops[0]);
      hide Inv, Step;
      RunsKeepInv(Step(s, ops[0]), ops[1..], t);
    }
  }

  /** Whatever is done from the start, callbacks start in the order they were queued, and when
      nothing is waiting exactly those never deleted have been started. */
  lemma FromStartInOrder(ops: seq<Op>, t: State)
    requires Run(Initial, ops, t)
    ensures Inv(t) && Increasing(t.ran)
    ensures t.queue == [] ==> forall n: nat :: n in t.ran <==> n < t.issued && n !in t.deleted
  {
    hide Run;
    RunsKeepInv(Initial, ops, t);
    RanInOrder(t);
    if t.queue == [] {
      DrainedMeansAllRan(t);
    }
  }

  lemma RanInOrder(s: State)
    requires Inv(s)
    ensures Increasing(s.ran)
  {
    var all := s.ran + Tickets(s.queue);
    forall i, j | 0 <= i < j < |s.ran|
      ensures s.ran[i] < s.ran[j]
    {
      assert all[i] < all[j];
    }
  }

  /** When nothing is waiting, exactly the callbacks never deleted have been run. */
  lemma DrainedMeansAllRan(s: State)
    requires Inv(s) && s.queue == []
    ensures forall t: nat :: t in s.ran <==> t < s.issued && t !in s.deleted
  {
    assert s.ran + Tickets(s.queue) == s.ran;
  }

  /** The notifier is called exactly when pending turns from false to true. */
  lemma NotifiedWhenPendingStarts(s: State, op: Op)
    requires Enabled(s, op)
    ensures Step(s, op).notified ==
            s.notified + if s.armed && !s.Pending() && Step(s, op).Pending() then 1 else 0
  {
    if op.Delete? && s.queue == [] {
      assert Kept(s.queue, op.ctx) == [];
    }
  }

  // ---------------------------------------------------------------- flags left set

  /** The flag is set although the callback is not waiting. */
  predicate Stuck(s: State, ic: IdempotentCallback) {
    ic in s.flagged && !s.Holds(ic)
  }

  /** Queueing an idempotent callback leaves it waiting unless it is stuck. */
  lemma QueueIdempotentWorksUnlessStuck(s: State, ic: IdempotentCallback)
    ensures Step(s, QueueIdempotent(ic)).Holds(ic) <==> !Stuck(s, ic)
  {
    var t := Step(s, QueueIdempotent(ic));
    if ic !in s.flagged {
      assert t.queue[|s.queue|].call == IdempotentCall(ic);
    }
  }

  /** A callback gets stuck exactly by a deletion while it waits; nothing unsticks it. */
  lemma StuckExactlyByDelete(s: State, op: Op, ic: IdempotentCallback)
    requires Inv(s) && Enabled(s, op)
    ensures Stuck(Step(s, op), ic) <==>
            Stuck(s, ic) || (op.Delete? && s.Holds(ic) && Concerns(IdempotentCall(ic), op.ctx))
  {
    var t := Step(s, op);
    if op.Delete? {
      KeptIsFilter(s.queue, op.ctx);
      HoldsAfterDelete(s, op.ctx, ic);
    } else if op.BeginRun? && s.queue != [] {
      HoldsAfterBegin(s, ic);
    } else if op.Queue? || op.QueueIdempotent? {
      HoldsAfterPush(s, op, ic);
    }
  }

  lemma QueuedFromStart(ic: IdempotentCallback)
    ensures var s := Step(Initial, QueueIdempotent(ic)); s.queue == [Entry(0, IdempotentCall(ic))] && ic in s.flagged
  {
  }

  lemma DeletedAlone(s: State, ic: IdempotentCallback)
    requires s.queue == [Entry(0, IdempotentCall(ic))] && ic in s.flagged
    ensures var t := Step(s, Delete(ic.ctx)); t.queue == [] && Stuck(t, ic)
  {
    assert Concerns(s.queue[0].call, ic.ctx) && s.queue[..0] == [];
    assert Kept(s.queue, ic.ctx) == Kept(s.queue[..0], ic.ctx) + [];
    assert Kept([], ic.ctx) == [];
  }

  lemma RunOfTwo(s: State, a: Op, b: Op)
    requires Enabled(s, a) && Enabled(Step(s, a), b)
    ensures Run(s, [a, b], Step(Step(s, a), b))
  {
    hide Step, Enabled;
    assert [a, b][1..] == [b] && [b][1..] == [];
    assert Run(Step(Step(s, a), b), [], Step(Step(s, a), b));
    assert Run(Step(s, a), [b], Step(Step(s, a), b));
  }

  /** It does happen: a callback queued and deleted with its context by a run from the start. */
  lemma StuckIsReached(ic: IdempotentCallback)
    ensures var t := Step(Step(Initial, QueueIdempotent(ic)), Delete(ic.ctx));
      Run(Initial, [QueueIdempotent(ic), Delete(ic.ctx)], t) && t.queue == [] && Stuck(t, ic)
  {
    hide Step, Run, Stuck;
    QueuedFromStart(ic);
    DeletedAlone(Step(Initial, QueueIdempotent(ic)), ic);
    RunOfTwo(Initial, QueueIdempotent(ic), Delete(ic.ctx));
  }

  lemma HoldsAfterDelete(s: State, ctx: object?, ic: IdempotentCallback)
    requires Inv(s)
    ensures Step(s, Delete(ctx)).Holds(ic) <==> s.Holds(ic) && !Concerns(IdempotentCall(ic), ctx)
    ensures s.Holds(ic) ==> ic in s.flagged
  {
    var t := Step(s, Delete(ctx));
    KeptIsFilter(s.queue, ctx);
    if i :| 0 <= i < |t.queue| && t.queue[i].call == IdempotentCall(ic) {
      assert t.queue[i] in s.queue;
    }
    if i :| 0 <= i < |s.queue| && s.queue[i].call == IdempotentCall(ic) {
      if !Concerns(IdempotentCall(ic), ctx) {
        assert s.queue[i] in t.queue;
      }
    }
  }

  lemma HoldsAfterBegin(s: State, ic: IdempotentCallback)
    requires Inv(s) && s.queue != []
    ensures Stuck(Step(s, BeginRun), ic) <==> Stuck(s, ic)
  {
    var t := Step(s, BeginRun);
    if i :| 0 <= i < |t.queue| && t.queue[i].call == IdempotentCall(ic) {
      assert s.queue[i + 1] == t.queue[i];
    }
    if i :| 0 <= i < |s.queue| && s.queue[i].call == IdempotentCall(ic) {
      if i > 0 {
        assert t.queue[i - 1] == s.queue[i];
      }
    }
  }

  lemma HoldsAfterPush(s: State, op: Op, ic: IdempotentCallback)
    requires Inv(s) && (op.Queue? || op.QueueIdempotent?)
    ensures Stuck(Step(s, op), ic) <==> Stuck(s, ic)
  {
    var t := Step(s, op);
    if i :| 0 <= i < |s.queue| && s.queue[i].call == IdempotentCall(ic) {
      assert t.queue[i] == s.queue[i];
    }
    if t.queue != s.queue {
      assert t.queue[|s.queue|] ==
             Entry(s.issued, if op.Queue? then UserCall(op.fn, op.ctx) else IdempotentCall(op.ic));
    }
  }

  /** So a deletion can lose an idempotent callback for good. */
  lemma {:induction false} StuckForGood(s: State, ops: seq<Op>, t: State, ic: IdempotentCallback)
    requires Inv(s) && Run(s, ops, t) && Stuck(s, ic)
    ensures Stuck(t, ic)
    decreases |ops|
  {
    if ops != [] {
      StepKeepsInv(s, ops[0]);
      StuckExactlyByDelete(s, ops[0], ic);
      hide Inv, Step, Stuck;
      StuckForGood(Step(s, ops[0]), ops[1..], t, ic);
    }
  }

  /** The state after some operations. */
  function After(s: State, ops: seq<Op>): State
    decreases |ops|
  {
    if ops == [] then s else After(Step(s, ops[0]), ops[1..])
  }

  lemma {:induction false} RunEndsAfter(s: State, ops: seq<Op>, t: State)
    requires Run(s, ops, t)
    ensures t == After(s, ops)
    decreases |ops|
  {
    if ops != [] {
      RunEndsAfter(Step(s, ops[0]), ops[1..], t);
    }
  }

  /** The k-th operation deletes the callback while it waits. */
  predicate DeletedWaiting(s: State, ops: seq<Op>, k: nat, ic: IdempotentCallback)
    requires k < |ops|
  {
    ops[k].Delete? && After(s, ops[..k]).Holds(ic) && Concerns(IdempotentCall(ic), ops[k].ctx)
  }

  lemma LaterDeletion(s: State, ops: seq<Op>, k: nat, ic: IdempotentCallback)
    requires k < |ops| && k > 0
    ensures DeletedWaiting(s, ops, k, ic) == DeletedWaiting(Step(s, ops[0]), ops[1..], k - 1, ic)
  {
    assert ops[..k][0] == ops[0] && ops[..k][1..] == ops[1..][..k - 1];
  }

  lemma FirstDeletion(s: State, ops: seq<Op>, ic: IdempotentCallback)
    requires ops != [] && Inv(s) && Enabled(s, ops[0]) && !Stuck(s, ic)
    ensures DeletedWaiting(s, ops, 0, ic) <==> Stuck(Step(s, ops[0]), ic)
  {
    hide Step, Stuck, Inv;
    StuckExactlyByDelete(s, ops[0], ic);
    assert ops[..0] == [];
  }

  /** Over a whole run a callback gets stuck if and only if some operation of the run deletes it
      while it waits; otherwise it can be queued again. */
  lemma {:induction false} StuckOverRunExactly(s: State, ops: seq<Op>, t: State, ic: IdempotentCallback)
    requires Inv(s) && Run(s, ops, t) && !Stuck(s, ic)
    ensures Stuck(t, ic) <==> exists k :: 0 <= k < |ops| && DeletedWaiting(s, ops, k, ic)
    decreases |ops|
  {
    if ops != [] {
      var u := Step(s, ops[0]);
      StepKeepsInv(s, ops[0]);
      hide Inv, Step, Stuck, DeletedWaiting, Run;
      RunTail(s, ops, t);
      FirstDeletion(s, ops, ic);
      if Stuck(u, ic) {
        StuckForGood(u, ops[1..], t, ic);
      } else {
        StuckOverRunExactly(u, ops[1..], t, ic);
        if k :| 0 <= k < |ops[1..]| && DeletedWaiting(u, ops[1..], k, ic) {
          LaterDeletion(s, ops, k + 1, ic);
          assert DeletedWaiting(s, ops, k + 1, ic);
        }
        if k :| 0 <= k < |ops| && DeletedWaiting(s, ops, k, ic) {
          LaterDeletion(s, ops, k, ic);
          assert DeletedWaiting(u, ops[1..], k - 1, ic);
        }
      }
    }
  }

  lemma RunTail(s: State, ops: seq<Op>, t: State)
    requires ops != [] && Run(s, ops, t)
    ensures Enabled(s, ops[0]) && Run(Step(s, ops[0]), ops[1..], t)
  {
  }

  // ---------------------------------------------------------------- what a deletion is for

  /** The objects that running a call hands on: its context, and for an idempotent callback that
      itself and the context it was made with. */
  function Uses(call: Call): set<object?> {
    match call
    case UserCall(_, c) => {c}
    case IdempotentCall(ic) => {ic, ic.ctx}
  }

  /** A call waits after a deletion if and only if it did before and does not use the context. */
  lemma WaitsAfterDelete(s: State, ctx: object?, fn: nat, c: object?, ic: IdempotentCallback, ticket: nat)
    ensures var t := Step(s, Delete(ctx));
      && (Entry(ticket, UserCall(fn, c)) in t.queue <==> Entry(ticket, UserCall(fn, c)) in s.queue && c != ctx)
      && (Entry(ticket, IdempotentCall(ic)) in t.queue <==>
          Entry(ticket, IdempotentCall(ic)) in s.queue && ic != ctx && ic.ctx != ctx)
  {
    WaitsUnlessUsed(s.queue, ctx, Entry(ticket, UserCall(fn, c)));
    WaitsUnlessUsed(s.queue, ctx, Entry(ticket, IdempotentCall(ic)));
  }

  lemma WaitsUnlessUsed(q: seq<Entry>, ctx: object?, e: Entry)
    ensures e in Kept(q, ctx) <==> e in q && ctx !in Uses(e.call)
  {
    KeptIsFilter(q, ctx);
  }

  predicate Clear(q: seq<Entry>, ctx: object?) {
    forall i | 0 <= i < |q| :: ctx !in Uses(q[i].call)
  }

  predicate QueuesFor(op: Op, ctx: object?) {
    match op
    case Queue(_, c) => c == ctx
    case QueueIdempotent(ic) => ic == ctx || ic.ctx == ctx
    case _ => false
  }

  lemma DeleteClears(q: seq<Entry>, ctx: object?)
    ensures Clear(Kept(q, ctx), ctx)
  {
    var k := Kept(q, ctx);
    forall i | 0 <= i < |k|
      ensures ctx !in Uses(k[i].call)
    {
      WaitsUnlessUsed(q, ctx, k[i]);
    }
  }

  lemma StepKeepsClear(s: State, op: Op, ctx: object?)
    requires Clear(s.queue, ctx) && !QueuesFor(op, ctx)
    ensures Clear(Step(s, op).queue, ctx)
  {
    if op.Delete? {
      var k := Kept(s.queue, op.ctx);
      KeptIsFilter(s.queue, op.ctx);
      forall i | 0 <= i < |k|
        ensures ctx !in Uses(k[i].call)
      {
        assert k[i] in s.queue;
      }
    }
  }

  lemma {:induction false} RunKeepsClear(s: State, ops: seq<Op>, ctx: object?)
    requires Clear(s.queue, ctx) && forall i | 0 <= i < |ops| :: !QueuesFor(ops[i], ctx)
    ensures Clear(After(s, ops).queue, ctx)
    decreases |ops|
  {
    hide Clear, Step, QueuesFor;
    if ops != [] {
      StepKeepsClear(s, ops[0], ctx);
      RunKeepsClear(Step(s, ops[0]), ops[1..], ctx);
    }
  }

  /** Once the callbacks of a context are deleted, none is ever started that uses it, whatever is
      done, as long as none is queued for it again. So the context may be freed. */
  lemma DeletedNeverStarts(s: State, ctx: object?, ops: seq<Op>, k: nat)
    requires k < |ops| && ops[k] == BeginRun
    requires forall i | 0 <= i < k :: !QueuesFor(ops[i], ctx)
    ensures var u := After(Step(s, Delete(ctx)), ops[..k]);
      u.queue != [] ==>
        var started := Step(u, ops[k]).curr;
        started.Some? && ctx !in Uses(started.value.call)
  {
    DeleteClears(s.queue, ctx);
    RunKeepsClear(Step(s, Delete(ctx)), ops[..k], ctx);
  }

  // ---------------------------------------------------------------- running all, and the notifier

  /** Running `n` callbacks one after the other. */
  function Rounds(n: nat): seq<Op> {
    if n == 0 then [] else [BeginRun, EndRun] + Rounds(n - 1)
  }

  lemma OneRound(s: State, n: nat)
    requires s.curr.None? && s.queue != [] && n > 0
    ensures var t := Step(Step(s, BeginRun), EndRun);
      && t.curr.None? && t.queue == s.queue[1..] && t.ran == s.ran + [s.queue[0].ticket]
      && After(s, Rounds(n)) == After(t, Rounds(n - 1))
      && (Run(t, Rounds(n - 1), After(t, Rounds(n - 1))) ==> Run(s, Rounds(n), After(s, Rounds(n))))
  {
    var t := Step(Step(s, BeginRun), EndRun);
    var ops := Rounds(n);
    assert ops[0] == BeginRun && ops[1..] == [EndRun] + Rounds(n - 1);
    assert ops[1..][1..] == Rounds(n - 1);
    hide Rounds;
    assert After(s, ops) == After(Step(s, BeginRun), ops[1..]);
    assert After(Step(s, BeginRun), ops[1..]) == After(t, Rounds(n - 1));
  }

  /** As many rounds as callbacks wait run them all, in order, and then nothing is pending. */
  lemma {:induction false} RoundsRunAll(s: State)
    requires s.curr.None?
    ensures var t := After(s, Rounds(|s.queue|));
      Run(s, Rounds(|s.queue|), t) && !t.Pending() && t.ran == s.ran + Tickets(s.queue)
    decreases |s.queue|
  {
    hide Step, Enabled;
    if s.queue == [] {
      assert Rounds(0) == [];
    } else {
      var t := Step(Step(s, BeginRun), EndRun);
      OneRound(s, |s.queue|);
      RoundsRunAll(t);
      assert s.ran + Tickets(s.queue) == (s.ran + [s.queue[0].ticket]) + Tickets(s.queue[1..]);
    }
  }

  /** Whether the last request about notifications in a run, if there is any, asked for them. */
  function LastRequest(ops: seq<Op>, before: bool): bool {
    if ops == [] then before
    else LastRequest(ops[1..], if ops[0].Arm? then ops[0].on else before)
  }

  /** Notifications are given exactly while the last request was for them. */
  lemma {:induction false} ArmedAsRequested(s: State, ops: seq<Op>)
    ensures After(s, ops).armed == LastRequest(ops, s.armed)
    decreases |ops|
  {
    if ops != [] {
      ArmedAsRequested(Step(s, ops[0]), ops[1..]);
    }
  }

  // ---------------------------------------------------------------- calls run as they were queued

  /** The calls that an operation takes into the queue. */
  function Accepted(s: State, op: Op): seq<Call> {
    match op
    case Queue(fn, ctx) => [UserCall(fn, ctx)]
    case QueueIdempotent(ic) => if ic in s.flagged then [] else [IdempotentCall(ic)]
    case _ => []
  }

  function AllAccepted(s: State, ops: seq<Op>): seq<Call>
    decreases |ops|
  {
    if ops == [] then [] else Accepted(s, ops[0]) + AllAccepted(Step(s, ops[0]), ops[1..])
  }

  /** Tickets are places in a list of calls, and what waits or is run under one is that call; the
      one being run is the last one started. */
  predicate TicketsName(s: State, calls: seq<Call>) {
    && s.issued == |calls|
    && (forall i | 0 <= i < |s.queue| :: s.queue[i].ticket < |calls| && s.queue[i].call == calls[s.queue[i].ticket])
    && (s.curr.Some? ==> s.curr.value.ticket < |calls| && s.curr.value.call == calls[s.curr.value.ticket])
    && (s.curr.Some? ==> s.ran != [] && s.ran[|s.ran| - 1] == s.curr.value.ticket)
  }

  lemma StepKeepsNames(s: State, op: Op, calls: seq<Call>)
    requires TicketsName(s, calls)
    ensures TicketsName(Step(s, op), calls + Accepted(s, op))
  {
    if op.Delete? {
      var k := Kept(s.queue, op.ctx);
      KeptIsFilter(s.queue, op.ctx);
      forall i | 0 <= i < |k|
        ensures k[i].ticket < |calls| && k[i].call == calls[k[i].ticket]
      {
        assert k[i] in s.queue;
      }
    }
  }

  lemma {:induction false} RunKeepsNames(s: State, ops: seq<Op>, calls: seq<Call>)
    requires TicketsName(s, calls)
    ensures TicketsName(After(s, ops), calls + AllAccepted(s, ops))
    decreases |ops|
  {
    hide TicketsName, Step, Accepted;
    if ops == [] {
      assert calls + [] == calls;
    } else {
      var t := Step(s, ops[0]);
      StepKeepsNames(s, ops[0], calls);
      RunKeepsNames(t, ops[1..], calls + Accepted(s, ops[0]));
      assert (calls + Accepted(s, ops[0])) + AllAccepted(t, ops[1..])
          == calls + (Accepted(s, ops[0]) + AllAccepted(t, ops[1..]));
    }
  }

  /** From the start, the callback of the n-th ticket is the n-th that was taken into the queue:
      the function and context run are those that were queued. */
  lemma RunsWhatWasQueued(ops: seq<Op>)
    ensures TicketsName(After(Initial, ops), AllAccepted(Initial, ops))
  {
    RunKeepsNames(Initial, ops, []);
    assert [] + AllAccepted(Initial, ops) == AllAccepted(Initial, ops);
  }

  // ---------------------------------------------------------------- the linked list

  class Callback {
    var next: Callback?
    const call: Call

    constructor (call: Call)
      ensures this.call == call && next == null
    {
      this.call, next := call, null;
    }
  }

  ghost predicate NoTwins(nodes: seq<Callback>) {
    forall i, j | 0 <= i < j < |nodes| :: nodes[i] != nodes[j]
  }

  /** The nodes are linked in this order, none of them twice. */
  ghost predicate Chain(nodes: seq<Callback>)
    reads nodes
  {
    && NoTwins(nodes)
    && forall i | 0 <= i < |nodes| :: nodes[i].next == Successor(nodes, i)
  }

  ghost function Successor(nodes: seq<Callback>, i: nat): Callback? {
    if i + 1 < |nodes| then nodes[i + 1] else null
  }

  /** Nodes linked in order, but with the end still open. */
  ghost predicate Half(kept: seq<Callback>, head: Callback?, tail: Callback?)
    reads kept
  {
    && head == (if kept == [] then null else kept[0])
    && tail == (if kept == [] then null else kept[|kept| - 1])
    && forall i | 0 <= i < |kept| - 1 :: kept[i].next == kept[i + 1]
  }

  ghost function KeptNodes(nodes: seq<Callback>, ctx: object?): seq<Callback> {
    if nodes == [] then []
    else
      var n := |nodes| - 1;
      KeptNodes(nodes[..n], ctx) + if Concerns(nodes[n].call, ctx) then [] else [nodes[n]]
  }

  lemma KeptNodesStep(nodes: seq<Callback>, k: nat, ctx: object?)
    ensures KeptNodes([], ctx) == []
    ensures k < |nodes| ==>
      KeptNodes(nodes[..k + 1], ctx) ==
      KeptNodes(nodes[..k], ctx) + if Concerns(nodes[k].call, ctx) then [] else [nodes[k]]
  {
    if k < |nodes| {
      assert nodes[..k + 1][..k] == nodes[..k];
    }
  }

  lemma {:induction false} KeptNodesMatch(nodes: seq<Callback>, q: seq<Entry>, ctx: object?)
    requires SameCalls(nodes, q)
    ensures SameCalls(KeptNodes(nodes, ctx), Kept(q, ctx))
    decreases |nodes|
  {
    if nodes != [] {
      var n := |nodes| - 1;
      KeptNodesMatch(nodes[..n], q[..n], ctx);
    }
  }

  lemma KeptNodesAvoid(nodes: seq<Callback>, ctx: object?, cb: Callback)
    requires cb !in nodes
    ensures cb !in KeptNodes(nodes, ctx)
  {
    if cb in KeptNodes(nodes, ctx) {
      var i :| 0 <= i < |KeptNodes(nodes, ctx)| && KeptNodes(nodes, ctx)[i] == cb;
      var j := KeptNodesAreNodes(nodes, ctx, i);
    }
  }

  lemma {:induction false} KeptNodesAreNodes(nodes: seq<Callback>, ctx: object?, i: nat) returns (j: nat)
    requires i < |KeptNodes(nodes, ctx)|
    ensures j < |nodes| && nodes[j] == KeptNodes(nodes, ctx)[i]
    decreases |nodes|
  {
    var n := |nodes| - 1;
    if i < |KeptNodes(nodes[..n], ctx)| {
      j := KeptNodesAreNodes(nodes[..n], ctx, i);
    } else {
      j := n;
    }
  }

  /** The nodes kept so far are none of those still to come. */
  lemma KeptNodesAreApart(nodes: seq<Callback>, k: nat, ctx: object?)
    requires k < |nodes| && NoTwins(nodes)
    ensures NoTwins(KeptNodes(nodes[..k], ctx))
    ensures var kept := KeptNodes(nodes[..k], ctx);
            kept != [] ==> kept[|kept| - 1] in nodes[..k] && forall j | k <= j < |nodes| :: kept[|kept| - 1] != nodes[j]
  {
    var kept := KeptNodes(nodes[..k], ctx);
    KeptNodesHaveNoTwins(nodes[..k], ctx);
    if kept != [] {
      var l := KeptNodesAreNodes(nodes[..k], ctx, |kept| - 1);
      assert nodes[l] == kept[|kept| - 1];
    }
  }

  lemma {:induction false} KeptNodesHaveNoTwins(nodes: seq<Callback>, ctx: object?)
    requires NoTwins(nodes)
    ensures NoTwins(KeptNodes(nodes, ctx))
    decreases |nodes|
  {
    if nodes != [] {
      var n := |nodes| - 1;
      var kept := KeptNodes(nodes[..n], ctx);
      KeptNodesHaveNoTwins(nodes[..n], ctx);
      forall i | 0 <= i < |kept|
        ensures kept[i] != nodes[n]
      {
        var l := KeptNodesAreNodes(nodes[..n], ctx, i);
        assert nodes[l] != nodes[n];
      }
      assert NoTwins(kept + [nodes[n]]);
      assert KeptNodes(nodes, ctx) == kept || KeptNodes(nodes, ctx) == kept + [nodes[n]];
    }
  }

  ghost predicate SameCalls(nodes: seq<Callback>, q: seq<Entry>) {
    |nodes| == |q| && forall i | 0 <= i < |q| :: nodes[i].call == q[i].call
  }

  ghost predicate Known(q: seq<Entry>, ics: set<IdempotentCallback>) {
    forall i | 0 <= i < |q| && q[i].call.IdempotentCall? :: q[i].call.ic in ics
  }

  /** Of these callbacks exactly the flagged ones have their flag set. */
  ghost predicate Flags(flagged: set<IdempotentCallback>, ics: set<IdempotentCallback>)
    reads ics
  {
    flagged <= ics && forall ic | ic in ics :: ic.queued <==> ic in flagged
  }

  /** The nodes from `k` on are still linked as they were. */
  ghost predicate Rest(nodes: seq<Callback>, k: nat, head: Callback?)
    reads nodes
  {
    && k <= |nodes| && head == (if k < |nodes| then nodes[k] else null)
    && forall i | k <= i < |nodes| :: nodes[i].next == Successor(nodes, i)
  }

  lemma RestOfAll(all: seq<Callback>, head: Callback?)
    requires Chain(all) && head == if all == [] then null else all[0]
    ensures NoTwins(all) && Rest(all, 0, head) && Half([], null, null)
  {
  }

  lemma RestIsLeft(all: seq<Callback>, k: nat, head: Callback?)
    requires Rest(all, k, head)
    ensures k <= |all| && (head == null <==> k == |all|)
  {
  }

  lemma HalfHasEnds(kept: seq<Callback>, head: Callback?, tail: Callback?)
    requires Half(kept, head, tail)
    ensures head == if kept == [] then null else kept[0]
    ensures tail == if kept == [] then null else kept[|kept| - 1]
  {
  }

  class Callbacks {
    var cbcurr: Callback?
    var cbhead: Callback?
    var cbtail: Callback?
    var notifyFrontend: bool
    var notifications: nat
    ghost var nodes: seq<Callback>
    /** The idempotent callbacks that belong to this queue. */
    ghost var ics: set<IdempotentCallback>
    ghost var state: State

    ghost predicate Valid()
      reads this, nodes, ics
    {
      ListMatches() && FlagsMatch() && notifyFrontend == state.armed && notifications == state.notified && Inv(state)
    }

    /** The linked list and the current callback are those of the abstract state. */
    ghost predicate ListMatches()
      reads this, nodes
    {
      && Chain(nodes) && SameCalls(nodes, state.queue)
      && cbhead == (if nodes == [] then null else nodes[0])
      && cbtail == (if nodes == [] then null else nodes[|nodes| - 1])
      && (cbcurr == null <==> state.curr.None?)
      && (cbcurr != null ==> cbcurr !in nodes && cbcurr.call == state.curr.value.call)
    }

    ghost predicate FlagsMatch()
      reads this, ics
    {
      Flags(state.flagged, ics) && Known(state.queue, ics)
    }

    constructor ()
      ensures Valid() && state == Initial && nodes == [] && ics == {}
    {
      cbcurr, cbhead, cbtail, notifyFrontend, notifications := null, null, null, false, 0;
      nodes, ics, state := [], {}, Initial;
    }

    /** Makes an unqueued idempotent callback known to the queue. */
    ghost method Adopt(ic: IdempotentCallback)
      requires Valid() && (ic !in ics ==> !ic.queued)
      modifies this`ics
      ensures Valid() && ics == old(ics) + {ic}
    {
      ics := ics + {ic};
    }

    method RequestCallbackNotifications(on: bool)
      requires Valid()
      modifies this`notifyFrontend, this`state
      ensures Valid() && state == Step(old(state), Arm(on))
    {
      notifyFrontend := on;
      state := Step(state, Arm(on));
    }

    method Append(cb: Callback)
      requires Chain(nodes) && cb !in nodes
      requires cbhead == (if nodes == [] then null else nodes[0])
      requires cbtail == (if nodes == [] then null else nodes[|nodes| - 1])
      modifies this`cbhead, this`cbtail, this`nodes, nodes, cb
      ensures Chain(nodes) && nodes == old(nodes) + [cb]
      ensures cbhead == nodes[0] && cbtail == nodes[|nodes| - 1]
    {
      if cbtail != null {
        cbtail.next := cb;
      } else {
        cbhead := cb;
      }
      cbtail := cb;
      cb.next := null;
      nodes := nodes + [cb];
    }

    method Enqueue(call: Call)
      requires Valid() && Inv(Push(state, call))
      requires call.IdempotentCall? ==> call.ic in ics
      modifies this`cbhead, this`cbtail, this`notifications, this`nodes, this`state, nodes
      ensures Valid() && state == Push(old(state), call)
    {
      hide Inv, Chain, Known, SameCalls, Flags;
      var cb := new Callback(call);
      AppendMatches(nodes, state.queue, ics, state.issued, cb);
      assert cbcurr != null ==> cbcurr !in nodes + [cb];
      if notifyFrontend && cbhead == null && cbcurr == null {
        notifications := notifications + 1;
      }
      Append(cb);
      state := Push(state, call);
    }

    method QueueToplevelCallback(fn: nat, ctx: object?)
      requires Valid()
      modifies this`cbhead, this`cbtail, this`notifications, this`nodes, this`state, nodes
      ensures Valid() && state == Step(old(state), Queue(fn, ctx))
    {
      hide Inv;
      StepKeepsInv(state, Queue(fn, ctx));
      Enqueue(UserCall(fn, ctx));
    }

    method QueueIdempotentCallback(ic: IdempotentCallback)
      requires Valid() && ic in ics
      modifies this`cbhead, this`cbtail, this`notifications, this`nodes, this`state, nodes, ic
      ensures Valid() && state == Step(old(state), QueueIdempotent(ic)) && ic.queued
    {
      hide Inv;
      if ic.queued {
        return;
      }
      StepKeepsInv(state, QueueIdempotent(ic));
      FlagKeepsInv(state, ic);
      ic.queued := true;
      state := state.(flagged := state.flagged + {ic});
      Enqueue(IdempotentCall(ic));
    }

    /** Unlinks the waiting calls of a context, keeping the others in order. */
    method DeleteCallbacksForContext(ctx: object?)
      requires Valid()
      modifies this`cbhead, this`cbtail, this`nodes, this`state, nodes
      ensures Valid() && state == Step(old(state), Delete(ctx))
    {
      hide Inv, Chain, Kept, KeptNodes, Flags, SameCalls, Known;
      StepKeepsInv(state, Delete(ctx));
      KeptKnown(state.queue, ctx, ics);
      KeptNodesMatch(nodes, state.queue, ctx);
      if cbcurr != null {
        KeptNodesAvoid(nodes, ctx, cbcurr);
      }
      Filter(ctx);
      state := Step(state, Delete(ctx));
    }

    /** Hangs a kept node behind those kept before. */
    method Link(ghost kept: seq<Callback>, newhead: Callback?, newtail: Callback?, cb: Callback)
      returns (head: Callback?, tail: Callback?)
      requires Half(kept, newhead, newtail) && NoTwins(kept)
      modifies if newtail == null then {} else {newtail}
      ensures Half(kept + [cb], head, tail) && tail == cb
    {
      head := newhead;
      if newhead == null {
        head := cb;
      } else {
        newtail.next := cb;
      }
      tail := cb;
    }

    /** One turn of the loop of a deletion. */
    method FilterStep(ghost all: seq<Callback>, ghost k: nat, ctx: object?, newhead: Callback?, newtail: Callback?)
      returns (head: Callback?, tail: Callback?)
      requires NoTwins(all) && cbhead != null && Rest(all, k, cbhead)
      requires Half(KeptNodes(all[..k], ctx), newhead, newtail)
      modifies this`cbhead, all
      ensures Rest(all, k + 1, cbhead)
      ensures Half(KeptNodes(all[..k + 1], ctx), head, tail)
    {
      hide KeptNodes;
      head, tail := newhead, newtail;
      var cb := cbhead;
      cbhead := cbhead.next;
      KeptNodesStep(all, k, ctx);
      KeptNodesAreApart(all, k, ctx);
      assert newtail != null ==> newtail in all;
      if !Concerns(cb.call, ctx) {
        head, tail := Link(KeptNodes(all[..k], ctx), newhead, newtail, cb);
      }
    }

    method Filter(ctx: object?)
      requires Chain(nodes) && cbhead == if nodes == [] then null else nodes[0]
      modifies this`cbhead, this`cbtail, this`nodes, nodes
      ensures Chain(nodes) && nodes == KeptNodes(old(nodes), ctx)
      ensures cbhead == (if nodes == [] then null else nodes[0])
      ensures cbtail == (if nodes == [] then null else nodes[|nodes| - 1])
    {
      hide KeptNodes, Half, Rest, Chain;
      ghost var all := nodes;
      var newhead: Callback?, newtail: Callback? := null, null;
      ghost var k: nat := 0;
      KeptNodesStep(all, 0, ctx);
      assert all[..0] == [];
      RestOfAll(all, cbhead);
      while cbhead != null
        invariant k <= |all| && Rest(all, k, cbhead) && Half(KeptNodes(all[..k], ctx), newhead, newtail)
        decreases |all| - k
      {
        RestIsLeft(all, k, cbhead);
        newhead, newtail := FilterStep(all, k, ctx, newhead, newtail);
        k := k + 1;
        RestIsLeft(all, k, cbhead);
      }
      RestIsLeft(all, k, cbhead);
      assert all[..k] == all;
      KeptNodesHaveNoTwins(all, ctx);
      HalfHasEnds(KeptNodes(all, ctx), newhead, newtail);
      cbhead := newhead;
      cbtail := newtail;
      if newtail != null {
        ghost var l := KeptNodesAreNodes(all, ctx, |KeptNodes(all, ctx)| - 1);
      }
      Close(KeptNodes(all, ctx), newhead, newtail);
      nodes := KeptNodes(all, ctx);
    }

    /** Ends a list behind its last node. */
    method Close(ghost kept: seq<Callback>, ghost newhead: Callback?, newtail: Callback?)
      requires Half(kept, newhead, newtail) && NoTwins(kept)
      modifies if newtail == null then {} else {newtail}
      ensures Chain(kept)
    {
      if newtail != null {
        newtail.next := null;
      }
    }

    /** The first half of run_toplevel_callbacks: takes the head off the queue and starts it.
        What the callback then does is a sequence of the other operations. */
    method BeginRunning() returns (doneSomething: bool)
      requires Valid() && cbcurr == null
      modifies this`cbcurr, this`cbhead, this`cbtail, this`nodes, this`state, ics
      ensures Valid() && state == Step(old(state), BeginRun)
      ensures doneSomething <==> old(state).queue != []
      ensures doneSomething <==> cbcurr != null
    {
      hide Inv, Chain;
      StepKeepsInv(state, BeginRun);
      doneSomething := false;
      if cbhead != null {
        TakeHead();
        if cbcurr.call.IdempotentCall? {
          cbcurr.call.ic.queued := false;
        }
        doneSomething := true;
        state := Step(state, BeginRun);
      }
    }

    method TakeHead()
      requires Chain(nodes) && nodes != [] && cbhead == nodes[0] && cbtail == nodes[|nodes| - 1]
      modifies this`cbcurr, this`cbhead, this`cbtail, this`nodes
      ensures cbcurr == old(nodes)[0] && nodes == old(nodes)[1..] && Chain(nodes) && cbcurr !in nodes
      ensures cbhead == (if nodes == [] then null else nodes[0])
      ensures cbtail == (if nodes == [] then null else nodes[|nodes| - 1])
    {
      BehindHead(nodes);
      cbcurr := cbhead;
      cbhead := cbhead.next;
      if cbhead == null {
        cbtail := null;
      }
      nodes := nodes[1..];
    }

    /** The second half: the callback has returned. */
    method EndRunning()
      requires Valid() && cbcurr != null
      modifies this`cbcurr, this`state
      ensures Valid() && state == Step(old(state), EndRun)
    {
      hide Inv, Chain, SameCalls, Known, Flags;
      StepKeepsInv(state, EndRun);
      cbcurr := null;
      state := Step(state, EndRun);
    }

    method ToplevelCallbackPending() returns (pending: bool)
      requires Valid()
      ensures pending <==> state.Pending()
    {
      pending := cbcurr != null || cbhead != null;
    }
  }

  lemma AppendMatches(nodes: seq<Callback>, q: seq<Entry>, ics: set<IdempotentCallback>, ticket: nat, cb: Callback)
    requires SameCalls(nodes, q) && Known(q, ics) && (cb.call.IdempotentCall? ==> cb.call.ic in ics)
    ensures SameCalls(nodes + [cb], q + [Entry(ticket, cb.call)])
    ensures Known(q + [Entry(ticket, cb.call)], ics)
    ensures q == [] <==> nodes == []
  {
  }

  lemma BehindHead(nodes: seq<Callback>)
    requires nodes != [] && Chain(nodes)
    ensures Chain(nodes[1..]) && nodes[0] !in nodes[1..]
  {
  }

  lemma KeptKnown(q: seq<Entry>, ctx: object?, ics: set<IdempotentCallback>)
    requires Known(q, ics)
    ensures Known(Kept(q, ctx), ics)
  {
    KeptIsFilter(q, ctx);
  }

  /** Setting a flag first, as the source does, is allowed. */
  lemma FlagKeepsInv(s: State, ic: IdempotentCallback)
    requires Inv(s)
    ensures Inv(s.(flagged := s.flagged + {ic}))
  {
  }
}
