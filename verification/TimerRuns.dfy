/** Runs of the time events of one tick rate: any sequence of arming, disarming, rearming and clock
    ticks that other code interrupts between their critical sections (src/qf/qf_time.cpp). */
module TimerRuns {
  import opened Collections
  import opened TickScan
  import opened TimeEvents

  datatype Op = Call(c: Control) | Tick(m: Meantime)

  ghost predicate OpAllowed(op: Op, all: set<QTimeEvt>) {
    match op
    case Call(c) => Allowed(c, all)
    case Tick(m) => AllBetween(m, all)
  }

  ghost predicate OpsAllowed(ops: seq<Op>, all: set<QTimeEvt>) {
    forall i | 0 <= i < |ops| :: OpAllowed(ops[i], all)
  }

  /** Between the ticks. */
  ghost predicate IsStanding(s: Scan) {
    IsSound(s) && s.passed == s.posted == []
  }

  /** The lists and states after an operation. */
  ghost function AfterOp(s: Scan, op: Op): (r: Scan)
    requires IsStanding(s) && OpAllowed(op, s.states.Keys)
    ensures IsStanding(r) && r.states.Keys == s.states.Keys
  {
    match op
    case Call(c) => AfterCallIsSound(s, c); AfterCall(s, c)
    case Tick(m) => AtRestIsSound(Final(s, m)); AtRest(Final(s, m))
  }

  lemma AtRestIsSound(f: Scan)
    requires IsSound(f) && f.main == f.newer == []
    ensures IsSound(AtRest(f))
  {
    forall t | t in f.states && f.states[t].ctr > 0 ensures IsLinked(AtRest(f), t) {
      assert IsLinked(f, t);
    }
  }

  /** From `s` to `r` by an operation that posts `posted`. */
  ghost predicate IsStep(s: Scan, op: Op, posted: seq<QTimeEvt>, r: Scan) {
    && IsStanding(s) && OpAllowed(op, s.states.Keys) && r == AfterOp(s, op)
    && posted == if op.Tick? then Final(s, op.m).posted else []
  }

  ghost predicate IsStepAt(b: seq<Scan>, ops: seq<Op>, posted: seq<seq<QTimeEvt>>, i: nat)
    requires i < |ops| && i < |posted| && i + 1 < |b|
  {
    IsStep(b[i], ops[i], posted[i], b[i + 1])
  }

  /** The first `n` operations go through the lists and states `b` and post `posted`. */
  ghost predicate IsRun(b: seq<Scan>, ops: seq<Op>, posted: seq<seq<QTimeEvt>>, n: nat) {
    && n <= |ops| && |posted| == n && |b| == n + 1
    && forall i: nat | i < n :: IsStepAt(b, ops, posted, i)
  }

  // ------------------------------------------------------------ the code

  /** Runs the operations in order. */
  method Run(rate: TickRate, ops: seq<Op>) returns (posted: seq<seq<QTimeEvt>>, ghost b: seq<Scan>)
    requires rate.Valid() && OpsAllowed(ops, rate.all)
    modifies rate, rate.head, rate.all
    ensures rate.Valid() && IsRun(b, ops, posted, |ops|)
    ensures b[0] == old(Standing(rate)) && b[|ops|] == Standing(rate)
  {
    posted, b := [], [Standing(rate)];
    var i := 0;
    while i < |ops|
      invariant 0 <= i <= |ops| && rate.Valid()
      invariant IsRun(b, ops, posted, i) && b[0] == old(Standing(rate)) && b[i] == Standing(rate)
    {
      var now := RunOne(rate, ops[i]);
      LongerRun(b, ops, posted, i, now, Standing(rate));
      posted, b := posted + [now], b + [Standing(rate)];
      i := i + 1;
    }
  }

  lemma LongerRun(b: seq<Scan>, ops: seq<Op>, posted: seq<seq<QTimeEvt>>, n: nat, now: seq<QTimeEvt>, r: Scan)
    requires IsRun(b, ops, posted, n) && n < |ops| && IsStep(b[n], ops[n], now, r)
    ensures IsRun(b + [r], ops, posted + [now], n + 1)
  {
    forall i: nat | i < n + 1 ensures IsStepAt(b + [r], ops, posted + [now], i) {
      assert i < n ==> IsStepAt(b, ops, posted, i);
    }
  }

  method RunOne(rate: TickRate, op: Op) returns (posted: seq<QTimeEvt>)
    requires rate.Valid() && OpAllowed(op, rate.all)
    modifies rate, rate.head, rate.all
    ensures rate.Valid() && IsStep(old(Standing(rate)), op, posted, Standing(rate))
  {
    StandingIsSound(rate);
    match op {
      case Call(c) =>
        posted := [];
        Perform(rate, c);
      case Tick(m) =>
        posted := TickScan.Tick(rate, m);
    }
  }

  // ------------------------------------------------------------ due ticks

  /** The number of ticks from `p` up to before `q`. */
  function Ticks(ops: seq<Op>, p: nat, q: nat): nat
    requires p <= q <= |ops|
  {
    if p == q then 0 else Ticks(ops, p, q - 1) + (if ops[q - 1].Tick? then 1 else 0)
  }

  /** No call of the operation, or during it, is for `t`. */
  ghost predicate NotFor(t: QTimeEvt, op: Op) {
    match op
    case Call(c) => c.t != t
    case Tick(m) => Untouched(t, m)
  }

  /** None from `p` up to before `q` is for `t`. */
  ghost predicate LeftAlone(t: QTimeEvt, ops: seq<Op>, p: nat, q: nat)
    requires p <= q <= |ops|
  {
    forall i | p <= i < q :: NotFor(t, ops[i])
  }

  lemma {:induction false} OneOp(t: QTimeEvt, b: seq<Scan>, ops: seq<Op>, posted: seq<seq<QTimeEvt>>, i: nat)
    requires IsRun(b, ops, posted, |ops|) && i < |ops| && t in b[i].states && NotFor(t, ops[i])
    ensures t in b[i + 1].states
    ensures b[i + 1].states[t] == if ops[i].Tick? then Ticked(b[i].states[t]) else b[i].states[t]
    ensures ops[i].Tick? ==> multiset(posted[i])[t] == if Expires(b[i].states[t]) then 1 else 0
  {
    assert IsStepAt(b, ops, posted, i);
    if ops[i].Tick? {
      UntouchedIsCounted(t, b[i], ops[i].m);
    }
  }

  /** A time event that is left alone only changes with the ticks. */
  lemma {:induction false} OnlyTicksCount(t: QTimeEvt, b: seq<Scan>, ops: seq<Op>, posted: seq<seq<QTimeEvt>>,
                                          p: nat, q: nat)
    requires p <= q <= |ops| && IsRun(b, ops, posted, |ops|) && t in b[p].states && LeftAlone(t, ops, p, q)
    ensures t in b[q].states && b[q].states[t] == After(b[p].states[t], Ticks(ops, p, q))
  {
    if q > p {
      OnlyTicksCount(t, b, ops, posted, p, q - 1);
      OneOp(t, b, ops, posted, q - 1);
    }
  }

  /** The operation `q` posts `t`, once, exactly if it is the due tick for a time event that stood at
      `x` before the operation `p`. */
  ghost predicate PostedIffDue(t: QTimeEvt, x: Timing, ops: seq<Op>, posted: seq<seq<QTimeEvt>>, p: nat, q: nat)
    requires p <= q < |ops| && q < |posted|
  {
    multiset(posted[q])[t] == if x.ctr > 0 && Due(x.ctr, x.interval, Ticks(ops, p, q) + 1) then 1 else 0
  }

  /** In any run, a time event that stands at some number of ticks and is left alone from then on is
      posted by a tick, once, exactly if it is that one from there or, for a periodic time event, a
      multiple of the interval later; one that stands at zero is never posted. */
  lemma PostedWhenDue(t: QTimeEvt, x: Timing, b: seq<Scan>, ops: seq<Op>, posted: seq<seq<QTimeEvt>>,
                      p: nat, q: nat)
    requires IsRun(b, ops, posted, |ops|) && p <= q < |ops| && ops[q].Tick?
    requires t in b[p].states && b[p].states[t] == x && LeftAlone(t, ops, p, q + 1)
    ensures PostedIffDue(t, x, ops, posted, p, q)
  {
    OnlyTicksCount(t, b, ops, posted, p, q);
    OneOp(t, b, ops, posted, q);
    ExpiresWhenDue(x, Ticks(ops, p, q));
  }

  lemma ExpiresWhenDue(x: Timing, n: nat)
    ensures Expires(After(x, n)) <==> x.ctr > 0 && Due(x.ctr, x.interval, n + 1)
  {
    if x.ctr > 0 {
      PostedExactlyWhenDue(x.ctr, x.interval, n + 1);
    } else {
      DisarmedStays(x, n);
    }
  }

  lemma {:induction false} DisarmedStays(x: Timing, n: nat)
    requires x.ctr == 0
    ensures After(x, n) == x
  {
    if n > 0 {
      DisarmedStays(x, n - 1);
    }
  }

  /** In particular, after it was armed between the ticks. */
  lemma ArmedIsPostedWhenDue(t: QTimeEvt, nTicks: nat, interval: nat, b: seq<Scan>, ops: seq<Op>,
                             posted: seq<seq<QTimeEvt>>, p: nat, q: nat)
    requires IsRun(b, ops, posted, |ops|) && p < q < |ops| && ops[q].Tick?
    requires ops[p] == Call(Arm(t, nTicks, interval)) && t in b[p].states && b[p].states[t].ctr == 0
    requires LeftAlone(t, ops, p + 1, q + 1)
    ensures PostedIffDue(t, Timing(nTicks, interval), ops, posted, p + 1, q)
  {
    assert IsStepAt(b, ops, posted, p);
    PostedWhenDue(t, Timing(nTicks, interval), b, ops, posted, p + 1, q);
  }

  /** One that is disarmed between the ticks is not posted any more. */
  lemma DisarmedIsNotPosted(t: QTimeEvt, b: seq<Scan>, ops: seq<Op>, posted: seq<seq<QTimeEvt>>, p: nat, q: nat)
    requires IsRun(b, ops, posted, |ops|) && p < q < |ops| && ops[q].Tick?
    requires ops[p] == Call(Disarm(t)) && t in b[p].states && LeftAlone(t, ops, p + 1, q + 1)
    ensures multiset(posted[q])[t] == 0
  {
    assert IsStepAt(b, ops, posted, p);
    PostedWhenDue(t, b[p].states[t].(ctr := 0), b, ops, posted, p + 1, q);
  }

  /** One that is rearmed between the ticks, whether it was armed or not, is posted when it is due by the
      new number of ticks and the interval that it had before. */
  lemma RearmedIsPostedWhenDue(t: QTimeEvt, nTicks: nat, b: seq<Scan>, ops: seq<Op>,
                               posted: seq<seq<QTimeEvt>>, p: nat, q: nat)
    requires IsRun(b, ops, posted, |ops|) && p < q < |ops| && ops[q].Tick?
    requires ops[p] == Call(Rearm(t, nTicks)) && t in b[p].states && LeftAlone(t, ops, p + 1, q + 1)
    ensures PostedIffDue(t, Timing(nTicks, b[p].states[t].interval), ops, posted, p + 1, q)
  {
    assert IsStepAt(b, ops, posted, p);
    PostedWhenDue(t, Timing(nTicks, b[p].states[t].interval), b, ops, posted, p + 1, q);
  }

  /** A tick that starts at `s` is at `a` behind its n-th critical section, and leaves `t` alone from
      there. */
  ghost predicate IsLastTouch(t: QTimeEvt, s: Scan, op: Op, n: nat, a: Scan) {
    && op.Tick? && IsSound(s) && OpAllowed(op, s.states.Keys) && n <= |op.m|
    && a == AfterSections(s, op.m, n) && t in a.states && Untouched(t, op.m[n..])
  }

  lemma {:induction false} AfterTouch(t: QTimeEvt, s: Scan, op: Op, n: nat, a: Scan,
                                      posted: seq<QTimeEvt>, r: Scan)
    requires IsLastTouch(t, s, op, n, a) && IsStep(s, op, posted, r)
    ensures t in r.states && r.states[t] == if t in a.passed then a.states[t] else Ticked(a.states[t])
  {
    CountedUnlessPassed(t, s, op.m, n);
  }

  lemma {:induction false} TouchedAt(t: QTimeEvt, b: seq<Scan>, ops: seq<Op>, posted: seq<seq<QTimeEvt>>,
                                     p: nat, n: nat, a: Scan)
    requires IsRun(b, ops, posted, |ops|) && p < |ops| && IsLastTouch(t, b[p], ops[p], n, a)
    ensures t in a.states && t in b[p + 1].states
    ensures b[p + 1].states[t] == if t in a.passed then a.states[t] else Ticked(a.states[t])
  {
    assert IsStepAt(b, ops, posted, p);
    AfterTouch(t, b[p], ops[p], n, a, posted[p], b[p + 1]);
  }

  /** For a time event whose last call comes in the middle of a tick the due ticks are counted from what
      this call leaves, with that tick as the first exactly if its scan had not yet passed the time
      event. */
  lemma {:induction false} TouchedInTickIsPostedWhenDue(t: QTimeEvt, b: seq<Scan>, ops: seq<Op>,
      posted: seq<seq<QTimeEvt>>, p: nat, n: nat, a: Scan, q: nat)
    requires IsRun(b, ops, posted, |ops|) && p < q < |ops| && ops[q].Tick?
    requires IsLastTouch(t, b[p], ops[p], n, a) && LeftAlone(t, ops, p + 1, q + 1)
    ensures PostedIffDue(t, a.states[t], ops, posted, if t in a.passed then p + 1 else p, q)
  {
    TouchedAt(t, b, ops, posted, p, n, a);
    PostedAfterTouch(t, a.states[t], t in a.passed, b, ops, posted, p, q);
  }

  lemma {:induction false} PostedAfterTouch(t: QTimeEvt, x: Timing, passed: bool, b: seq<Scan>, ops: seq<Op>,
                                            posted: seq<seq<QTimeEvt>>, p: nat, q: nat)
    requires IsRun(b, ops, posted, |ops|) && p < q < |ops| && ops[p].Tick? && ops[q].Tick?
    requires t in b[p + 1].states && b[p + 1].states[t] == if passed then x else Ticked(x)
    requires LeftAlone(t, ops, p + 1, q + 1)
    ensures PostedIffDue(t, x, ops, posted, if passed then p + 1 else p, q)
  {
    if passed {
      PostedWhenDue(t, x, b, ops, posted, p + 1, q);
    } else {
      PostedWhenDue(t, Ticked(x), b, ops, posted, p + 1, q);
      WithFirstTick(t, x, ops, posted, p, q);
    }
  }

  lemma {:induction false} WithFirstTick(t: QTimeEvt, x: Timing, ops: seq<Op>, posted: seq<seq<QTimeEvt>>,
                                         p: nat, q: nat)
    requires p < q < |ops| && q < |posted| && ops[p].Tick?
    requires PostedIffDue(t, Ticked(x), ops, posted, p + 1, q)
    ensures PostedIffDue(t, x, ops, posted, p, q)
  {
    var k := Ticks(ops, p + 1, q);
    FirstTick(ops, p, q);
    TickFirst(x, k);
    ExpiresWhenDue(x, k + 1);
    ExpiresWhenDue(Ticked(x), k);
  }

  lemma {:induction false} FirstTick(ops: seq<Op>, p: nat, q: nat)
    requires p < q <= |ops| && ops[p].Tick?
    ensures Ticks(ops, p, q) == Ticks(ops, p + 1, q) + 1
  {
    if q > p + 1 {
      FirstTick(ops, p, q - 1);
    }
  }

  /** The last call of a tick for `t` is the k-th one behind its n-th critical section, and finds it at
      `x`. */
  ghost predicate IsCalledAt(t: QTimeEvt, s: Scan, op: Op, n: nat, k: nat, x: Timing) {
    && op.Tick? && IsLastCall(t, s, op.m, n, k)
    && t in AtCall(s, op.m, n, k).states && x == AtCall(s, op.m, n, k).states[t]
  }

  lemma {:induction false} CallLeaves(t: QTimeEvt, s: Scan, op: Op, n: nat, k: nat, x: Timing, a: Scan)
    requires IsCalledAt(t, s, op, n, k, x) && IsLastTouch(t, s, op, n + 1, a)
    ensures op.m[n][k].Disarm? ==> a.states[t] == Timing(0, x.interval)
    ensures op.m[n][k].Rearm? ==> a.states[t] == Timing(op.m[n][k].nTicks, x.interval)
  {
    LastCallInTick(t, s, op.m, n, k);
  }

  /** A time event whose last call disarms it in the middle of a tick is not posted by later ones. */
  lemma {:induction false} DisarmedInTickIsNotPosted(t: QTimeEvt, b: seq<Scan>, ops: seq<Op>,
      posted: seq<seq<QTimeEvt>>, p: nat, n: nat, k: nat, x: Timing, a: Scan, q: nat)
    requires IsRun(b, ops, posted, |ops|) && p < q < |ops| && ops[q].Tick?
    requires IsCalledAt(t, b[p], ops[p], n, k, x) && IsLastTouch(t, b[p], ops[p], n + 1, a)
    requires ops[p].m[n][k] == Disarm(t) && LeftAlone(t, ops, p + 1, q + 1)
    ensures multiset(posted[q])[t] == 0
  {
    CallLeaves(t, b[p], ops[p], n, k, x, a);
    TouchedInTickIsPostedWhenDue(t, b, ops, posted, p, n + 1, a, q);
  }

  /** One whose last call rearms it there is posted when it is due by the new number of ticks and its
      interval, counted with the tick under way exactly if its scan had not yet passed the time event. */
  lemma {:induction false} RearmedInTickIsPostedWhenDue(t: QTimeEvt, nTicks: nat, b: seq<Scan>, ops: seq<Op>,
      posted: seq<seq<QTimeEvt>>, p: nat, n: nat, k: nat, x: Timing, a: Scan, q: nat)
    requires IsRun(b, ops, posted, |ops|) && p < q < |ops| && ops[q].Tick?
    requires IsCalledAt(t, b[p], ops[p], n, k, x) && IsLastTouch(t, b[p], ops[p], n + 1, a)
    requires ops[p].m[n][k] == Rearm(t, nTicks) && LeftAlone(t, ops, p + 1, q + 1)
    ensures PostedIffDue(t, Timing(nTicks, x.interval), ops, posted, if t in a.passed then p + 1 else p, q)
  {
    CallLeaves(t, b[p], ops[p], n, k, x, a);
    TouchedInTickIsPostedWhenDue(t, b, ops, posted, p, n + 1, a, q);
  }

  lemma {:induction false} TickFirst(x: Timing, n: nat)
    ensures After(Ticked(x), n) == After(x, n + 1)
  {
    if n > 0 {
      TickFirst(x, n - 1);
    }
  }

  // ------------------------------------------------------------ is anything armed?

  /** One of the calls puts its time event into the list of new ones. */
  ghost predicate AnyLinks(s: Scan, cs: seq<Control>)
    requires AllAllowed(cs, s.states.Keys)
    decreases |cs|
  {
    cs != [] &&
    assert Allowed(cs[0], s.states.Keys);
    (Links(s, cs[0]) || AnyLinks(AfterCall(s, cs[0]), cs[1..]))
  }

  lemma {:induction false} NewerIfLinked(s: Scan, cs: seq<Control>)
    requires AllAllowed(cs, s.states.Keys)
    ensures AfterCalls(s, cs).newer == [] <==> s.newer == [] && !AnyLinks(s, cs)
    decreases |cs|
  {
    if cs != [] {
      assert Allowed(cs[0], s.states.Keys);
      NewerIfLinked(AfterCall(s, cs[0]), cs[1..]);
    }
  }

  /** The answer after some calls, if there were no new ones before them. */
  method AskAfterCalls(rate: TickRate, cs: seq<Control>, ghost s: Scan) returns (inactive: bool)
    requires IsAt(rate, s, rate.head) && s.passed == s.newer == [] && AllAllowed(cs, rate.all)
    modifies rate, rate.head, rate.all
    ensures rate.Valid() && AllAllowed(cs, s.states.Keys)
    ensures inactive <==> s.main != [] && AnyLinks(s, cs)
  {
    assert s.states.Keys == rate.all;
    NewerIfLinked(s, cs);
    PerformAll(rate, cs, s, rate.head);
    inactive := rate.NoTimeEvtsActiveX();
  }

  /** The answer after a tick that leaves `s` and calls behind it is yes exactly if the tick left a time
      event in the main list and one of the calls linked another. As long as none does, the answer is the
      documented one exactly if some time event is armed. */
  method AskAfterTick(rate: TickRate, m: Meantime, cs: seq<Control>)
    returns (inactive: bool, ghost s: Scan, ghost posted: seq<QTimeEvt>)
    requires rate.Valid() && AllBetween(m, rate.all) && AllAllowed(cs, rate.all)
    modifies rate, rate.head, rate.all
    ensures rate.Valid() && IsStep(old(Standing(rate)), Tick(m), posted, s) && AllAllowed(cs, s.states.Keys)
    ensures inactive <==> s.main != [] && AnyLinks(s, cs)
    ensures !AnyLinks(s, cs) ==> ((inactive <==> rate.NoneArmed()) <==> !rate.NoneArmed())
  {
    posted := RunOne(rate, Tick(m));
    s := Standing(rate);
    NoneNew(old(Standing(rate)), m, posted, s);
    inactive := AskAfterCalls(rate, cs, s);
  }

  lemma NoneNew(s: Scan, m: Meantime, posted: seq<QTimeEvt>, r: Scan)
    requires IsStep(s, Tick(m), posted, r)
    ensures r.passed == r.newer == []
  {}

  /** A rate whose only time event was armed, ticked and disarmed is not reported as inactive: it is
      still linked, so that one list is occupied and the other is not. */
  method DisarmedRateIsReportedActive(nTicks: nat) returns (rate: TickRate, inactive: bool)
    requires nTicks > 1
    ensures rate.Valid() && rate.main != [] && rate.newer == []
    ensures rate.NoneArmed() && !inactive
  {
    var t := new QTimeEvt();
    rate := new TickRate({t});
    ArmTickDisarm(rate, t, nTicks);
    inactive := rate.NoTimeEvtsActiveX();
  }

  method ArmTickDisarm(rate: TickRate, t: QTimeEvt, nTicks: nat)
    requires rate.Valid() && rate.all == {t} && t.ctr == 0 && nTicks > 1
    modifies rate, rate.head, t
    ensures rate.Valid() && rate.main != [] && rate.newer == [] && rate.NoneArmed()
  {
    rate.Arm(t, nTicks, 0);
    ghost var before := Standing(rate);
    var posted := RunOne(rate, Tick([]));
    ghost var s := Standing(rate);
    NoneNew(before, [], posted, s);
    StillArmed(t, before, posted, s);
    assert t.State() == s.states[t];
    var wasArmed := rate.Disarm(t);
  }

  lemma StillArmed(t: QTimeEvt, s: Scan, posted: seq<QTimeEvt>, r: Scan)
    requires IsStep(s, Tick([]), posted, r) && t in s.states && s.states[t].ctr > 1
    ensures t in r.states && r.states[t].ctr > 0 && t in r.main
  {
    UntouchedIsCounted(t, s, []);
    assert IsLinked(r, t);
  }
}
