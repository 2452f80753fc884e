/** A clock tick with other code between its critical sections (src/qf/qf_time.cpp). The lists and
    counters of a rate are described by values, on which the effect of a whole tick is computed. */
module TickScan {
  import opened Collections
  import opened TimeEvents

  /** What application code does with a time event. An armed time event is not armed again; the
      source asserts this, and here the call has no effect. */
  datatype Control =
    | Arm(t: QTimeEvt, nTicks: nat, interval: nat)
    | Disarm(t: QTimeEvt)
    | Rearm(t: QTimeEvt, nTicks: nat)

  type Timings = map<QTimeEvt, Timing>

  /** The call is for a time event of the rate, and not with zero ticks. */
  ghost predicate Allowed(c: Control, all: set<QTimeEvt>) {
    c.t in all && (c.Disarm? || c.nTicks > 0)
  }

  ghost predicate AllAllowed(cs: seq<Control>, all: set<QTimeEvt>) {
    forall c | c in cs :: Allowed(c, all)
  }

  /** What a call does to its time event. */
  function Controlled(x: Timing, c: Control): Timing {
    match c
    case Arm(_, n, interval) => if x.ctr == 0 then Timing(n, interval) else x
    case Disarm(_) => x.(ctr := 0)
    case Rearm(_, n) => x.(ctr := n)
  }

  /** The call loads the counter of its time event. */
  function Loads(x: Timing, c: Control): bool {
    c.Rearm? || (c.Arm? && x.ctr == 0)
  }

  // ------------------------------------------------------------ the state of a rate

  /** A scan under way: the time events that were counted and stay in the main list, those of the main
      list that are still to come, the new ones, all states, and what was posted. */
  datatype Scan = Scan(passed: seq<QTimeEvt>, main: seq<QTimeEvt>, newer: seq<QTimeEvt>,
                       states: Timings, posted: seq<QTimeEvt>)

  ghost predicate IsLinked(s: Scan, t: QTimeEvt) {
    t in s.passed || t in s.main || t in s.newer
  }

  /** The lists have nothing in common, and every armed time event is in one. */
  ghost predicate IsSound(s: Scan) {
    && Distinct(s.passed) && Distinct(s.main) && Distinct(s.newer)
    && (forall t | t in s.passed :: t in s.states && t !in s.main && t !in s.newer)
    && (forall t | t in s.main :: t in s.states && t !in s.newer)
    && (forall t | t in s.newer :: t in s.states)
    && forall t | t in s.states && s.states[t].ctr > 0 :: IsLinked(s, t)
  }

  /** Between the ticks: nothing was counted or posted yet. */
  ghost function Standing(rate: TickRate): Scan
    reads rate, rate.all
  {
    Scan([], rate.main, rate.newer, rate.States(), [])
  }

  /** The rate when the scan has ended. */
  function AtRest(s: Scan): Scan {
    Scan([], s.passed, [], s.states, [])
  }

  lemma StandingIsSound(rate: TickRate)
    requires rate.Valid()
    ensures IsSound(Standing(rate))
  {
    var s := Standing(rate);
    assert forall t | t in rate.main || t in rate.newer :: t in rate.main + rate.newer;
    forall t | t in s.states && s.states[t].ctr > 0 ensures IsLinked(s, t) {
      assert t in rate.all && t.linked;
    }
  }

  // ------------------------------------------------------------ calls

  /** A call puts its time event in front of the new ones if it is loaded and not linked. */
  ghost predicate Links(s: Scan, c: Control)
    requires c.t in s.states
  {
    Loads(s.states[c.t], c) && !IsLinked(s, c.t)
  }

  ghost function AfterCall(s: Scan, c: Control): (r: Scan)
    requires c.t in s.states
    ensures r.states.Keys == s.states.Keys
  {
    s.(states := s.states[c.t := Controlled(s.states[c.t], c)],
       newer := if Links(s, c) then [c.t] + s.newer else s.newer)
  }

  ghost function AfterCalls(s: Scan, cs: seq<Control>): (r: Scan)
    requires AllAllowed(cs, s.states.Keys)
    ensures r.states.Keys == s.states.Keys && r.passed == s.passed && r.main == s.main && r.posted == s.posted
    decreases |cs|
  {
    if cs == [] then s
    else
      assert Allowed(cs[0], s.states.Keys);
      AfterCalls(AfterCall(s, cs[0]), cs[1..])
  }

  lemma {:induction false} AfterCallIsSound(s: Scan, c: Control)
    requires IsSound(s) && c.t in s.states
    ensures IsSound(AfterCall(s, c))
  {
    var r := AfterCall(s, c);
    forall t | t in r.states && r.states[t].ctr > 0 ensures IsLinked(r, t) {
      assert t != c.t ==> IsLinked(s, t);
    }
  }

  lemma {:induction false} AfterCallsIsSound(s: Scan, cs: seq<Control>)
    requires IsSound(s) && AllAllowed(cs, s.states.Keys)
    ensures IsSound(AfterCalls(s, cs))
    decreases |cs|
  {
    if cs != [] {
      assert Allowed(cs[0], s.states.Keys);
      AfterCallIsSound(s, cs[0]);
      AfterCallsIsSound(AfterCall(s, cs[0]), cs[1..]);
    }
  }

  /** None of the calls is for `t`. */
  ghost predicate NoneFor(t: QTimeEvt, cs: seq<Control>) {
    forall c | c in cs :: c.t != t
  }

  lemma {:induction false} OthersStay(t: QTimeEvt, s: Scan, cs: seq<Control>)
    requires AllAllowed(cs, s.states.Keys) && t in s.states && NoneFor(t, cs)
    ensures AfterCalls(s, cs).states[t] == s.states[t]
    decreases |cs|
  {
    if cs != [] {
      assert Allowed(cs[0], s.states.Keys) && cs[0].t != t;
      OthersStay(t, AfterCall(s, cs[0]), cs[1..]);
    }
  }

  /** What the last of some calls for `t` leaves: an armed time event is not armed again, a disarmed one
      stands at zero, a rearmed one at the new number of ticks, both with the interval they had. */
  lemma {:induction false} LastCallDecides(t: QTimeEvt, s: Scan, cs: seq<Control>, k: nat)
    requires AllAllowed(cs, s.states.Keys) && t in s.states
    requires k < |cs| && cs[k].t == t && NoneFor(t, cs[k + 1..])
    ensures AllAllowed(cs[..k], s.states.Keys)
    ensures var x := AfterCalls(s, cs[..k]).states[t];
      AfterCalls(s, cs).states[t] == match cs[k]
        case Arm(_, nTicks, interval) => if x.ctr == 0 then Timing(nTicks, interval) else x
        case Disarm(_) => Timing(0, x.interval)
        case Rearm(_, nTicks) => Timing(nTicks, x.interval)
    decreases |cs|
  {
    assert Allowed(cs[0], s.states.Keys);
    if k == 0 {
      assert cs[..0] == [];
      OthersStay(t, AfterCall(s, cs[0]), cs[1..]);
    } else {
      assert cs[1..][k..] == cs[k + 1..] && cs[..k][0] == cs[0] && cs[..k][1..] == cs[1..][..k - 1];
      LastCallDecides(t, AfterCall(s, cs[0]), cs[1..], k - 1);
    }
  }

  // ------------------------------------------------------------ ticks

  /** At the end of the main list the new ones are appended. */
  function Normal(s: Scan): Scan {
    if s.main == [] then s.(main := s.newer, newer := []) else s
  }

  /** The first of the time events to come is counted; it stays in the main list if it is armed. */
  ghost function CountFirst(s: Scan): Scan
    requires s.main != [] && s.main[0] in s.states
  {
    var t := s.main[0];
    var x := Ticked(s.states[t]);
    s.(passed := s.passed + (if x.ctr > 0 then [t] else []), main := s.main[1..], states := s.states[t := x],
       posted := s.posted + (if Expires(s.states[t]) then [t] else []))
  }

  lemma {:induction false} NormalIsSound(s: Scan)
    requires IsSound(s)
    ensures IsSound(Normal(s))
  {
    forall t | t in s.states && s.states[t].ctr > 0 ensures IsLinked(Normal(s), t) {
      assert IsLinked(s, t);
    }
  }

  lemma {:induction false} CountFirstIsSound(s: Scan)
    requires IsSound(s) && s.main != []
    ensures IsSound(CountFirst(s))
  {
    var t, r := s.main[0], CountFirst(s);
    assert t in s.main && s.main == [t] + r.main;
    forall u | u in r.states && r.states[u].ctr > 0 ensures IsLinked(r, u) {
      assert u != t ==> IsLinked(s, u);
    }
  }

  /** The calls behind each of the critical sections of a tick; then no more follow. */
  type Meantime = seq<seq<Control>>

  ghost predicate AllBetween(m: Meantime, all: set<QTimeEvt>) {
    forall cs | cs in m :: AllAllowed(cs, all)
  }

  function Head(m: Meantime): seq<Control> {
    if m == [] then [] else m[0]
  }

  function Tail(m: Meantime): Meantime {
    if m == [] then [] else m[1..]
  }

  lemma CountedKeeps(s: Scan)
    requires IsSound(s) && Normal(s).main != []
    ensures var n := Normal(s);
      n.main[0] in n.main && n.main[0] in s.states && CountFirst(n).states.Keys == s.states.Keys
  {
    NormalIsSound(s);
    assert Normal(s).main[0] in Normal(s).main;
  }

  /** One critical section, which counts a time event, and the calls behind it. */
  ghost function Section(s: Scan, cs: seq<Control>): (r: Scan)
    requires IsSound(s) && Normal(s).main != [] && AllAllowed(cs, s.states.Keys)
    ensures IsSound(r) && r.states.Keys == s.states.Keys
  {
    CountedKeeps(s);
    NormalIsSound(s);
    CountFirstIsSound(Normal(s));
    AfterCallsIsSound(CountFirst(Normal(s)), cs);
    AfterCalls(CountFirst(Normal(s)), cs)
  }

  lemma HeadAndTail(m: Meantime, all: set<QTimeEvt>)
    requires AllBetween(m, all)
    ensures AllAllowed(Head(m), all) && AllBetween(Tail(m), all)
  {}

  /** The end of a tick that goes on from `s`. */
  ghost function Final(s: Scan, m: Meantime): (f: Scan)
    requires IsSound(s) && AllBetween(m, s.states.Keys)
    ensures IsSound(f) && f.states.Keys == s.states.Keys && f.main == f.newer == []
    decreases |m|, |s.main| + |s.newer|
  {
    if Normal(s).main == [] then s
    else
      HeadAndTail(m, s.states.Keys);
      Final(Section(s, Head(m)), Tail(m))
  }

  lemma AllowedAt(m: Meantime, n: nat, all: set<QTimeEvt>)
    requires AllBetween(m, all) && n < |m|
    ensures AllAllowed(m[n], all)
  {
    assert m[n] in m;
  }

  /** After the first `n` critical sections, or all if there are fewer. */
  ghost function AfterSections(s: Scan, m: Meantime, n: nat): (r: Scan)
    requires IsSound(s) && AllBetween(m, s.states.Keys) && n <= |m|
    ensures IsSound(r) && r.states.Keys == s.states.Keys
    decreases n
  {
    if n == 0 then s
    else
      var r := AfterSections(s, m, n - 1);
      AllowedAt(m, n - 1, s.states.Keys);
      if Normal(r).main == [] then r else Section(r, m[n - 1])
  }

  /** None of the calls is for `t`. */
  ghost predicate Untouched(t: QTimeEvt, m: Meantime) {
    forall cs | cs in m :: NoneFor(t, cs)
  }

  /** `f` is the end of a tick that was at `s`: `t` was counted since then exactly if it was not yet
      passed, and posted, once, exactly if it was due then. */
  ghost predicate IsCounted(t: QTimeEvt, s: Scan, f: Scan)
    requires t in s.states
  {
    && t in f.states && f.states[t] == (if t in s.passed then s.states[t] else Ticked(s.states[t]))
    && multiset(f.posted)[t] == multiset(s.posted)[t] + (if t !in s.passed && Expires(s.states[t]) then 1 else 0)
  }

  lemma {:induction false} SectionCounts(t: QTimeEvt, s: Scan, cs: seq<Control>, f: Scan)
    requires IsSound(s) && Normal(s).main != [] && AllAllowed(cs, s.states.Keys)
    requires t in s.states && NoneFor(t, cs)
    requires t in Section(s, cs).states && IsCounted(t, Section(s, cs), f)
    ensures IsCounted(t, s, f)
  {
    CountedKeeps(s);
    NormalIsSound(s);
    var n := Normal(s);
    OthersStay(t, CountFirst(n), cs);
  }

  /** A time event that is not touched any more is counted by the rest of a tick exactly if it was not
      yet passed. */
  lemma {:induction false} UntouchedIsCounted(t: QTimeEvt, s: Scan, m: Meantime)
    requires IsSound(s) && AllBetween(m, s.states.Keys) && t in s.states && Untouched(t, m)
    ensures IsCounted(t, s, Final(s, m))
    decreases |m|, |s.main| + |s.newer|
  {
    if Normal(s).main == [] {
      assert s.states[t].ctr > 0 ==> IsLinked(s, t);
    } else {
      HeadAndTail(m, s.states.Keys);
      UntouchedIsCounted(t, Section(s, Head(m)), Tail(m));
      SectionCounts(t, s, Head(m), Final(s, m));
    }
  }

  lemma {:induction false} Dropped(m: Meantime, n: nat, all: set<QTimeEvt>)
    requires AllBetween(m, all) && n <= |m|
    ensures AllBetween(m[n..], all)
    ensures n > 0 ==> Head(m[n - 1..]) == m[n - 1] && Tail(m[n - 1..]) == m[n..]
  {}

  /** The first `n` critical sections and the rest make the whole tick. */
  lemma {:induction false} AfterThenFinal(s: Scan, m: Meantime, n: nat)
    requires IsSound(s) && AllBetween(m, s.states.Keys) && n <= |m|
    requires AllBetween(m[n..], s.states.Keys)
    ensures Final(AfterSections(s, m, n), m[n..]) == Final(s, m)
    decreases n
  {
    if n == 0 {
      assert m[n..] == m;
    } else {
      Dropped(m, n - 1, s.states.Keys);
      Dropped(m, n, s.states.Keys);
      AfterThenFinal(s, m, n - 1);
      var r := AfterSections(s, m, n - 1);
      assert Final(r, m[n - 1..]) == Final(AfterSections(s, m, n), m[n..]);
    }
  }

  /** What a tick does to a time event that is not touched any more after `n` of its critical sections:
      it is counted from then on, once, exactly if it was not yet passed, that is if it was in no list or
      still to come. With `n` = 0, every time event that is not touched at all is counted once. */
  lemma CountedUnlessPassed(t: QTimeEvt, s: Scan, m: Meantime, n: nat)
    requires IsSound(s) && AllBetween(m, s.states.Keys) && n <= |m|
    requires t in s.states && Untouched(t, m[n..])
    ensures t in AfterSections(s, m, n).states && IsCounted(t, AfterSections(s, m, n), Final(s, m))
  {
    Dropped(m, n, s.states.Keys);
    AfterThenFinal(s, m, n);
    UntouchedIsCounted(t, AfterSections(s, m, n), m[n..]);
  }

  /** The state at the k-th call behind the n-th critical section of a tick. */
  ghost function AtCall(s: Scan, m: Meantime, n: nat, k: nat): (r: Scan)
    requires IsSound(s) && AllBetween(m, s.states.Keys) && n < |m| && k < |m[n]|
    requires Normal(AfterSections(s, m, n)).main != []
    ensures r.states.Keys == s.states.Keys
  {
    var r := AfterSections(s, m, n);
    CountedKeeps(r);
    assert AllAllowed(m[n][..k], s.states.Keys) by {
      assert m[n] in m && forall c | c in m[n][..k] :: c in m[n];
    }
    AfterCalls(CountFirst(Normal(r)), m[n][..k])
  }

  /** The last call of the tick for `t` is the k-th one behind the n-th critical section. */
  ghost predicate IsLastCall(t: QTimeEvt, s: Scan, m: Meantime, n: nat, k: nat) {
    && IsSound(s) && AllBetween(m, s.states.Keys) && t in s.states
    && n < |m| && k < |m[n]| && m[n][k].t == t && NoneFor(t, m[n][k + 1..]) && Untouched(t, m[n + 1..])
    && Normal(AfterSections(s, m, n)).main != []
  }

  /** What it leaves behind the critical section. */
  lemma {:induction false} LastCallInTick(t: QTimeEvt, s: Scan, m: Meantime, n: nat, k: nat)
    requires IsLastCall(t, s, m, n, k)
    ensures t in AfterSections(s, m, n + 1).states && t in AtCall(s, m, n, k).states
    ensures var x := AtCall(s, m, n, k).states[t];
      AfterSections(s, m, n + 1).states[t] == match m[n][k]
        case Arm(_, nTicks, interval) => if x.ctr == 0 then Timing(nTicks, interval) else x
        case Disarm(_) => Timing(0, x.interval)
        case Rearm(_, nTicks) => Timing(nTicks, x.interval)
  {
    var r := AfterSections(s, m, n);
    CountedKeeps(r);
    AllowedAt(m, n, s.states.Keys);
    LastCallDecides(t, CountFirst(Normal(r)), m[n], k);
  }

  /** A time event that is disarmed in the middle of a tick is not posted by it from then on, and stands
      at zero at its end. */
  lemma {:induction false} DisarmedInTick(t: QTimeEvt, s: Scan, m: Meantime, n: nat, k: nat)
    requires IsLastCall(t, s, m, n, k) && m[n][k] == Disarm(t)
    ensures Final(s, m).states[t].ctr == 0
    ensures multiset(Final(s, m).posted)[t] == multiset(AfterSections(s, m, n + 1).posted)[t]
  {
    LastCallInTick(t, s, m, n, k);
    CountedUnlessPassed(t, s, m, n + 1);
  }

  /** A tick with one call, behind its first critical section: the time event of the call is counted
      from then on. */
  lemma {:induction false} OneCall(s: Scan, c: Control, m: Meantime)
    requires IsSound(s) && Normal(s).main != [] && Allowed(c, s.states.Keys) && m == [[c]]
    ensures AllBetween(m, s.states.Keys) && Normal(s).main[0] in s.states
    ensures var a := AfterCall(CountFirst(Normal(s)), c);
      c.t in a.states && IsCounted(c.t, a, Final(s, m))
  {
    assert AllAllowed(m[0], s.states.Keys);
    CountedKeeps(s);
    var n := CountFirst(Normal(s));
    assert AfterCalls(n, m[0]) == AfterCall(n, c) by {
      assert m[0][1..] == [];
    }
    assert AfterSections(s, m, 1) == AfterCall(n, c);
    CountedUnlessPassed(c.t, s, m, 1);
  }

  /** A time event that is armed for one tick between two critical sections is posted by the tick under
      way. */
  lemma ArmedInTickIsPosted(t: QTimeEvt, s: Scan, interval: nat, m: Meantime)
    requires IsSound(s) && Normal(s).main != [] && t in s.states && !IsLinked(s, t)
    requires m == [[Arm(t, 1, interval)]]
    ensures AllBetween(m, s.states.Keys)
    ensures multiset(Final(s, m).posted)[t] == multiset(s.posted)[t] + 1
  {
    OneCall(s, Arm(t, 1, interval), m);
    assert Normal(s).main[0] in Normal(s).main;
  }

  /** One that was already passed and is rearmed then keeps its counter. */
  lemma RearmedBehindScanIsNotCounted(t: QTimeEvt, s: Scan, nTicks: nat, m: Meantime)
    requires IsSound(s) && s.main != [] && s.main[0] == t && t in s.states && s.states[t].ctr > 1
    requires nTicks > 0 && m == [[Rearm(t, nTicks)]]
    ensures AllBetween(m, s.states.Keys)
    ensures Final(s, m).states[t].ctr == nTicks && multiset(Final(s, m).posted)[t] == multiset(s.posted)[t]
  {
    OneCall(s, Rearm(t, nTicks), m);
  }

  /** One that is posted and armed again for one tick before the scan goes on is posted twice. */
  lemma PostedTwiceInTick(t: QTimeEvt, s: Scan, m: Meantime)
    requires IsSound(s) && s.main != [] && s.main[0] == t && t in s.states && s.states[t] == Timing(1, 0)
    requires m == [[Arm(t, 1, 0)]]
    ensures AllBetween(m, s.states.Keys)
    ensures multiset(Final(s, m).posted)[t] == multiset(s.posted)[t] + 2
  {
    OneCall(s, Arm(t, 1, 0), m);
  }

  // ------------------------------------------------------------ ticks without interruption

  /** Those of a list that a tick posts, in order; `was` are the states before the tick. */
  ghost function Expiring(s: seq<QTimeEvt>, was: Timings): seq<QTimeEvt> {
    if s == [] then []
    else (if s[0] in was && Expires(was[s[0]]) then [s[0]] else []) + Expiring(s[1..], was)
  }

  lemma {:induction false} SameExpiring(s: seq<QTimeEvt>, was: Timings, now: Timings)
    requires forall t | t in s :: t in was && t in now && was[t] == now[t]
    ensures Expiring(s, was) == Expiring(s, now)
  {
    if s != [] {
      assert s[0] in s;
      SameExpiring(s[1..], was, now);
    }
  }

  ghost predicate AllArmed(s: seq<QTimeEvt>, states: Timings) {
    forall t | t in s :: t in states && states[t].ctr > 0
  }

  /** From `s` to `r`, the first of all that are to come was counted. */
  ghost predicate FirstCounted(t: QTimeEvt, s: Scan, r: Scan) {
    && t in s.states && s.main + s.newer == [t] + (r.main + r.newer) && t !in r.main + r.newer
    && r.states == s.states[t := Ticked(s.states[t])]
    && r.posted == s.posted + (if Expires(s.states[t]) then [t] else [])
    && r.passed == s.passed + (if r.states[t].ctr > 0 then [t] else []) && t !in s.passed
  }

  lemma {:induction false} SectionCountsFirst(s: Scan)
    requires IsSound(s) && Normal(s).main != []
    ensures FirstCounted(Normal(s).main[0], s, Section(s, []))
  {
    NormalIsSound(s);
    var n := Normal(s);
    var t := n.main[0];
    assert t in n.main && n.main == [t] + n.main[1..] && s.main + s.newer == n.main + n.newer;
  }

  lemma {:induction false} InOrder(t: QTimeEvt, s: Scan, r: Scan)
    requires FirstCounted(t, s, r) && forall u | u in r.main + r.newer :: u in s.states
    ensures s.posted + Expiring(s.main + s.newer, s.states) == r.posted + Expiring(r.main + r.newer, r.states)
    ensures AllArmed(s.passed, s.states) ==> AllArmed(r.passed, r.states)
  {
    var rest := r.main + r.newer;
    SameExpiring(rest, s.states, r.states);
    assert ([t] + rest)[1..] == rest;
  }

  /** A tick that is not interrupted posts those that expire in the order of the two lists, and leaves
      only armed ones linked. */
  lemma {:induction false} PostsInOrder(s: Scan, m: Meantime)
    requires IsSound(s) && AllArmed(s.passed, s.states) && m == []
    ensures Final(s, m).posted == s.posted + Expiring(s.main + s.newer, s.states)
    ensures AllArmed(Final(s, m).passed, Final(s, m).states)
    decreases |s.main| + |s.newer|
  {
    if Normal(s).main != [] {
      SectionCountsFirst(s);
      InOrder(Normal(s).main[0], s, Section(s, []));
      PostsInOrder(Section(s, []), m);
    }
  }

  // ------------------------------------------------------------ the code

  /** The scan is at `s`, with `prev` the last of those that were passed or the head. */
  ghost predicate IsAt(rate: TickRate, s: Scan, prev: QTimeEvt)
    reads rate, rate.head, rate.all
  {
    && rate.Valid() && rate.main == s.passed + s.main && rate.newer == s.newer && rate.States() == s.states
    && prev == ([rate.head] + rate.main)[|s.passed|]
  }

  /** Carries out a call. */
  method Perform(rate: TickRate, c: Control)
    requires rate.Valid() && Allowed(c, rate.all)
    modifies rate, rate.head, rate.all
    ensures rate.Valid() && Standing(rate) == AfterCall(old(Standing(rate)), c)
  {
    assert c.t.linked <==> c.t in rate.main + rate.newer;
    CallOne(rate, c);
  }

  method CallOne(rate: TickRate, c: Control)
    requires rate.Valid() && Allowed(c, rate.all)
    modifies rate`newer, rate.head`act, c.t
    ensures rate.Valid() && rate.States() == old(rate.States()[c.t := Controlled(c.t.State(), c)])
    ensures rate.newer == (if Loads(old(c.t.State()), c) && !old(c.t.linked) then [c.t] else []) + old(rate.newer)
  {
    Call(rate, c);
    assert rate.States() == old(rate.States())[c.t := c.t.State()];
  }

  method Call(rate: TickRate, c: Control)
    requires rate.Valid() && Allowed(c, rate.all)
    modifies rate`newer, rate.head`act, c.t
    ensures rate.Valid() && c.t.State() == Controlled(old(c.t.State()), c)
    ensures rate.newer == (if Loads(old(c.t.State()), c) && !old(c.t.linked) then [c.t] else []) + old(rate.newer)
  {
    match c {
      case Arm(t, n, interval) =>
        if t.ctr == 0 {
          rate.Arm(t, n, interval);
        }
      case Disarm(t) =>
        var wasArmed := rate.Disarm(t);
      case Rearm(t, n) =>
        var wasArmed := rate.Rearm(t, n);
    }
  }

  /** Carries out calls in a row, while a scan stands at `s` and `prev`. */
  method PerformAll(rate: TickRate, cs: seq<Control>, ghost s: Scan, prev: QTimeEvt)
    requires IsAt(rate, s, prev) && AllAllowed(cs, rate.all)
    modifies rate, rate.head, rate.all
    ensures AllAllowed(cs, s.states.Keys) && IsAt(rate, AfterCalls(s, cs), prev)
    decreases |cs|
  {
    if cs != [] {
      assert Allowed(cs[0], rate.all);
      PerformAt(rate, cs[0], s, prev);
      PerformAll(rate, cs[1..], AfterCall(s, cs[0]), prev);
    }
  }

  method PerformAt(rate: TickRate, c: Control, ghost s: Scan, prev: QTimeEvt)
    requires IsAt(rate, s, prev) && Allowed(c, rate.all)
    modifies rate, rate.head, rate.all
    ensures c.t in s.states && IsAt(rate, AfterCall(s, c), prev)
  {
    Perform(rate, c);
  }

  /** The next time event, if there is one. */
  method Next(rate: TickRate, prev: QTimeEvt, ghost s: Scan) returns (t: QTimeEvt?)
    requires IsAt(rate, s, prev)
    modifies rate, rate.head, rate.all
    ensures IsAt(rate, Normal(s), prev) && t == At(Normal(s).main, 0)
  {
    t := rate.FindNext(prev, |s.passed|);
  }

  method CountNext(rate: TickRate, prev: QTimeEvt, t: QTimeEvt, ghost s: Scan)
    returns (post: bool, next: QTimeEvt)
    requires IsAt(rate, s, prev) && s.main != [] && t == s.main[0]
    modifies rate, rate.head, rate.all
    ensures t in s.states && IsAt(rate, CountFirst(s), next)
    ensures post <==> Expires(s.states[t])
  {
    ghost var k := |s.passed|;
    assert rate.main[..k] == s.passed && rate.main[k + 1..] == s.main[1..];
    post, next := rate.Count(prev, t, k);
    assert t.State() == rate.States()[t];
  }

  /** One pass of the scan: the time event is counted and, behind the critical section, other code
      runs; then the scan goes on with the next one. */
  method Pass(rate: TickRate, prev: QTimeEvt, t: QTimeEvt, cs: seq<Control>, ghost s: Scan)
    returns (post: bool, next: QTimeEvt, following: QTimeEvt?)
    requires IsSound(s) && Normal(s).main != [] && IsAt(rate, Normal(s), prev) && t == Normal(s).main[0]
    requires AllAllowed(cs, rate.all)
    modifies rate, rate.head, rate.all
    ensures AllAllowed(cs, s.states.Keys) && t in s.states && (post <==> Expires(s.states[t]))
    ensures var r := Section(s, cs);
      IsAt(rate, Normal(r), next) && following == At(Normal(r).main, 0)
  {
    post, next := CountNext(rate, prev, t, Normal(s));
    PerformAll(rate, cs, CountFirst(Normal(s)), next);
    following := Next(rate, next, Section(s, cs));
  }

  /** A clock tick with calls behind its critical sections. */
  method Tick(rate: TickRate, m: Meantime) returns (posted: seq<QTimeEvt>)
    requires rate.Valid() && AllBetween(m, rate.all)
    modifies rate, rate.head, rate.all
    ensures rate.Valid() && IsSound(old(Standing(rate))) && AllBetween(m, old(Standing(rate)).states.Keys)
    ensures var f := Final(old(Standing(rate)), m);
      posted == f.posted && Standing(rate) == AtRest(f)
  {
    StandingIsSound(rate);
    ghost var start, s := Standing(rate), Standing(rate);
    posted := [];
    var ahead, prev := m, rate.head;
    var t := Next(rate, prev, s);
    while t != null
      invariant IsSound(s) && IsAt(rate, Normal(s), prev) && t == At(Normal(s).main, 0)
      invariant AllBetween(ahead, s.states.Keys) && Final(s, ahead) == Final(start, m)
      invariant posted == s.posted
      decreases |ahead|, |s.main| + |s.newer|
    {
      HeadAndTail(ahead, s.states.Keys);
      var post, next, following := Pass(rate, prev, t, Head(ahead), s);
      posted := if post then posted + [t] else posted;
      s := Section(s, Head(ahead));
      prev, t, ahead := next, following, Tail(ahead);
    }
  }
}
