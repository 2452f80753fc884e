/** Time events: armed with a number of clock ticks, linked into a list that only the clock tick
    changes, and posted when their counter runs out (src/qf/qf_time.cpp). */
module TimeEvents {
  import opened Collections
  import RingIndex

  // ------------------------------------------------------ a single time event

  /** The counter of a time event, 0 if it is not armed, and its interval, 0 for one shot. */
  datatype Timing = Timing(ctr: nat, interval: nat)

  /** What one tick does to it. */
  function Ticked(t: Timing): Timing {
    if t.ctr == 0 then t
    else if t.ctr == 1 then t.(ctr := t.interval)
    else t.(ctr := t.ctr - 1)
  }

  /** The tick posts it. */
  predicate Expires(t: Timing) {
    t.ctr == 1
  }

  function After(t: Timing, n: nat): Timing {
    if n == 0 then t else Ticked(After(t, n - 1))
  }

  /** The moments at which a time event armed with `nTicks` and `interval` is due. */
  predicate Due(nTicks: nat, interval: nat, j: nat) {
    j == nTicks || (interval > 0 && j > nTicks && (j - nTicks) % interval == 0)
  }

  /** An armed time event is posted by its nTicks-th tick, and from then on, if it is periodic, by
      every interval-th one, and by no other. */
  lemma PostedExactlyWhenDue(nTicks: nat, interval: nat, j: nat)
    requires nTicks > 0 && j > 0
    ensures Expires(After(Timing(nTicks, interval), j - 1)) <==> Due(nTicks, interval, j)
    ensures Due(nTicks, interval, j) <==> j == nTicks || (interval > 0 && j > nTicks && (j - nTicks) % interval == 0)
  {
    AfterInClosedForm(nTicks, interval, j - 1);
    if j > nTicks && interval > 0 {
      CountsDown(j - 1 - nTicks, interval);
    }
  }

  /** The counter after `n` ticks, in closed form. */
  function CounterAfter(nTicks: nat, interval: nat, n: nat): nat {
    if n < nTicks then nTicks - n
    else if interval == 0 then 0
    else interval - (n - nTicks) % interval
  }

  lemma {:induction false} AfterInClosedForm(nTicks: nat, interval: nat, n: nat)
    requires nTicks > 0
    ensures After(Timing(nTicks, interval), n) == Timing(CounterAfter(nTicks, interval, n), interval)
  {
    if n > 0 {
      AfterInClosedForm(nTicks, interval, n - 1);
      OneTickMore(nTicks, interval, n - 1);
    }
  }

  lemma OneTickMore(nTicks: nat, interval: nat, n: nat)
    requires nTicks > 0
    ensures Ticked(Timing(CounterAfter(nTicks, interval, n), interval))
            == Timing(CounterAfter(nTicks, interval, n + 1), interval)
  {
    if n >= nTicks && interval > 0 {
      CountsDown(n - nTicks, interval);
    }
  }

  lemma CountsDown(m: nat, interval: nat)
    requires interval > 0
    ensures (m + 1) % interval == if m % interval + 1 == interval then 0 else m % interval + 1
  {
    RingIndex.NextCell(m, interval);
  }

  // ------------------------------------------------------------- the lists

  /** The fields of a time event. In the head of a tick rate, `next` starts the main list and `act`
      the list of those that were armed since the last tick. */
  class QTimeEvt {
    var next: QTimeEvt?
    var act: QTimeEvt?
    var ctr: nat
    var interval: nat
    var linked: bool

    constructor ()
      ensures next == null && act == null && ctr == interval == 0 && !linked
    {
      next, act, ctr, interval, linked := null, null, 0, 0, false;
    }

    ghost function State(): Timing
      reads this
    {
      Timing(ctr, interval)
    }
  }

  ghost function At(s: seq<QTimeEvt>, i: nat): QTimeEvt? {
    if i < |s| then s[i] else null
  }

  /** Every element of `s` points to the next one. */
  ghost predicate IsChain(s: seq<QTimeEvt>)
    reads s
  {
    forall i: nat | i < |s| :: NextAt(s, i)
  }

  ghost predicate NextAt(s: seq<QTimeEvt>, i: nat)
    reads if i < |s| then {s[i]} else {}
    requires i < |s|
  {
    s[i].next == At(s, i + 1)
  }

  twostate lemma ChainKept(s: seq<QTimeEvt>)
    requires old(IsChain(s)) && forall t | t in s :: t.next == old(t.next)
    ensures IsChain(s)
  {
    forall i: nat | i < |s| ensures NextAt(s, i) {
      assert old(NextAt(s, i)) && s[i] in s;
    }
  }

  /** The time events of one tick rate. */
  class TickRate {
    const head: QTimeEvt
    ghost const all: set<QTimeEvt>     // the time events of this rate
    ghost var main: seq<QTimeEvt>      // the main list
    ghost var newer: seq<QTimeEvt>     // those armed since the last tick, newest first

    /** The two lists are chains without repetitions, the flags tell who is linked, and every armed
        time event is. */
    ghost predicate Valid()
      reads this, head, all
    {
      && head !in all && (forall t | t in main + newer :: t in all)
      && Distinct(main) && Distinct(newer) && (forall t | t in main :: t !in newer)
      && IsChain([head] + main) && IsChain(newer) && head.act == At(newer, 0)
      && forall t | t in all :: (t.linked <==> t in main + newer) && (t.ctr > 0 ==> t.linked)
    }

    constructor (all: set<QTimeEvt>)
      requires forall t | t in all :: !t.linked && t.ctr == 0
      ensures Valid() && main == newer == [] && this.all == all && fresh(head)
    {
      head := new QTimeEvt();
      this.all := all;
      main, newer := [], [];
    }

    /** Loads the counter and links the time event, unless it is still linked from before. */
    method Load(t: QTimeEvt, nTicks: nat)
      requires Valid() && t in all && nTicks > 0
      modifies this`newer, head`act, t`ctr, t`next, t`linked
      ensures Valid() && t.ctr == nTicks && main == old(main)
      ensures newer == if old(t.linked) then old(newer) else [t] + old(newer)
    {
      t.ctr := nTicks;
      if !t.linked {
        t.linked := true;
        t.next := head.act;
        head.act := t;
        ChainKept(newer);
        PushFront(t, newer);
        newer := [t] + newer;
      } else {
        ChainKept(newer);
      }
      ChainKept([head] + main);
    }

    method Arm(t: QTimeEvt, nTicks: nat, interval: nat)
      requires Valid() && t in all && t.ctr == 0 && nTicks > 0
      modifies this`newer, head`act, t
      ensures Valid() && main == old(main) && t.State() == Timing(nTicks, interval)
      ensures newer == if old(t.linked) then old(newer) else [t] + old(newer)
    {
      t.interval := interval;
      ChainKept(newer);
      ChainKept([head] + main);
      Load(t, nTicks);
    }

    /** Leaves the time event in its list; the next tick will take it out. */
    method Disarm(t: QTimeEvt) returns (wasArmed: bool)
      requires Valid() && t in all
      modifies t`ctr
      ensures Valid() && main == old(main) && t.ctr == 0
      ensures wasArmed <==> old(t.ctr) > 0
    {
      wasArmed := t.ctr != 0;
      if wasArmed {
        SetCtr(t, 0);
      }
    }

    method Rearm(t: QTimeEvt, nTicks: nat) returns (wasArmed: bool)
      requires Valid() && t in all && nTicks > 0
      modifies this`newer, head`act, t`ctr, t`next, t`linked
      ensures Valid() && main == old(main) && t.State() == Timing(nTicks, old(t.interval))
      ensures newer == if old(t.linked) then old(newer) else [t] + old(newer)
      ensures wasArmed <==> old(t.ctr) > 0
    {
      wasArmed := t.ctr != 0;
      Load(t, nTicks);
    }

    // ----------------------------------------------------------------- scanning the lists

    /** At the end of the main list the new time events are appended to it. */
    method Append(prev: QTimeEvt)
      requires Valid() && prev == ([head] + main)[|main|] && newer != []
      modifies this`main, this`newer, head`act, prev`next
      ensures Valid() && main == old(main) + old(newer) && newer == []
    {
      prev.next := head.act;
      head.act := null;
      ghost var front, back := [head] + main, newer;
      Joined(main, newer);
      main, newer := main + newer, [];
      ghost var now := [head] + main;
      assert now == front + back;
      forall i: nat | i < |now| ensures NextAt(now, i) {
        if i + 1 < |front| {
          assert old(NextAt(front, i)) && front[i] != prev;
        } else if i >= |front| {
          assert old(NextAt(back, i - |front|)) && back[i - |front|] in back;
        }
      }
    }

    /** Takes the time event behind `prev` out of the main list. */
    method Unlink(prev: QTimeEvt, t: QTimeEvt, ghost k: nat)
      requires Valid() && k < |main| && prev == ([head] + main)[k] && t == main[k] && t.ctr == 0
      modifies this`main, prev`next, t`linked
      ensures Valid() && main == old(main)[..k] + old(main)[k + 1..]
    {
      ghost var was := [head] + main;
      assert was[k + 1] == t;
      Shortened(main, k);
      prev.next := t.next;
      t.linked := false;
      main := main[..k] + main[k + 1..];
      ghost var now := [head] + main;
      forall i: nat | i < |now| ensures NextAt(now, i) {
        var at := if i <= k then i else i + 1;
        assert old(NextAt(was, at)) && now[i] == was[at];
        assert i == k ==> old(NextAt(was, k + 1));
      }
      ChainKept(newer);
    }

    ghost function States(): map<QTimeEvt, Timing>
      reads all
    {
      map t | t in all :: t.State()
    }

    lemma BehindPrev(k: nat)
      requires Valid() && k <= |main|
      ensures ([head] + main)[k].next == At(main, k)
    {
      assert NextAt([head] + main, k);
    }

    /** The time event behind `prev`, the k-th of the main list or, for k = 0, the head; at the end
        of the main list the one at the front of the other list, if there is one. */
    method FindNext(prev: QTimeEvt, ghost k: nat) returns (t: QTimeEvt?)
      requires Valid() && k <= |main| && prev == ([head] + main)[k]
      modifies this`main, this`newer, head`act, prev`next
      ensures Valid() && main == old(main) + if k == |old(main)| then old(newer) else []
      ensures newer == if k == |old(main)| then [] else old(newer)
      ensures prev == ([head] + main)[k] && t == At(main, k) && States() == old(States())
    {
      BehindPrev(k);
      t := prev.next;
      if t == null && head.act != null {
        Append(prev);
        t := prev.next;
        BehindPrev(k);
      }
    }

    /** What the scan does with a time event: it is taken out of the list if it is not armed any
        more, and otherwise counted down. */
    method CountDown(prev: QTimeEvt, t: QTimeEvt, ghost k: nat) returns (post: bool, next: QTimeEvt)
      requires Valid() && k < |main| && prev == ([head] + main)[k] && t == main[k]
      modifies this`main, prev`next, t`linked, t`ctr
      ensures Valid() && t.State() == Ticked(old(t.State()))
      ensures post <==> Expires(old(t.State()))
      ensures t.ctr > 0 ==> next == t && main == old(main)
      ensures t.ctr == 0 ==> next == prev && main == old(main)[..k] + old(main)[k + 1..]
    {
      post, next := false, prev;
      assert t in main + newer;
      if t.ctr == 0 {
        Unlink(prev, t, k);
      } else {
        SetCtr(t, t.ctr - 1);
        if t.ctr == 0 {
          post := true;
          if t.interval != 0 {
            SetCtr(t, t.interval);
            next := t;
          } else {
            Unlink(prev, t, k);
          }
        } else {
          next := t;
        }
      }
    }

    method Count(prev: QTimeEvt, t: QTimeEvt, ghost k: nat) returns (post: bool, next: QTimeEvt)
      requires Valid() && k < |main| && prev == ([head] + main)[k] && t == main[k]
      modifies this`main, prev`next, t`linked, t`ctr
      ensures Valid() && t in all && States() == old(States()[t := Ticked(t.State())])
      ensures post <==> Expires(old(t.State()))
      ensures main == old(main)[..k] + (if t.ctr > 0 then [t] else []) + old(main)[k + 1..]
      ensures next == ([head] + main)[if t.ctr > 0 then k + 1 else k]
    {
      ghost var was := main;
      assert t in main + newer;
      post, next := CountDown(prev, t, k);
      if t.ctr > 0 {
        assert was == was[..k] + [t] + was[k + 1..];
      } else {
        assert was[..k] + [] + was[k + 1..] == was[..k] + was[k + 1..];
        assert ([head] + main)[..k + 1] == ([head] + was)[..k + 1];
      }
    }

    method SetCtr(t: QTimeEvt, ctr: nat)
      requires Valid() && t in all && (ctr > 0 ==> t.linked)
      modifies t`ctr
      ensures Valid() && t.ctr == ctr
    {
      t.ctr := ctr;
      ChainKept(newer);
      ChainKept([head] + main);
    }

    /** What the documentation of the next method promises to report. */
    ghost predicate NoneArmed()
      reads all
    {
      forall t | t in all :: t.ctr == 0
    }

    ghost predicate SomeListEmpty()
      reads this
    {
      main == [] || newer == []
    }

    /** Answers yes exactly if there are time events in both lists. That is the documented answer
        exactly if some time event is armed and a list is empty, or none is and both are occupied,
        which happens if every linked time event was disarmed since the last tick. */
    method NoTimeEvtsActiveX() returns (inactive: bool)
      requires Valid()
      ensures inactive <==> main != [] && newer != []
      ensures (inactive <==> NoneArmed())
              <==> (!NoneArmed() && SomeListEmpty()) || (NoneArmed() && !SomeListEmpty())
    {
      BehindPrev(0);
      if head.next == null {
        inactive := false;
      } else if head.act == null {
        inactive := false;
      } else {
        inactive := true;
      }
    }

    /** If no time event is disarmed and still linked, the answer is the documented one exactly if
        one of the lists is empty and the other is not. */
    lemma RightIfLinkedAreArmed()
      requires Valid() && forall t | t in main + newer :: t.ctr > 0
      ensures (!NoneArmed() && SomeListEmpty()) || (NoneArmed() && !SomeListEmpty())
              <==> ((main == []) != (newer == []))
    {
      assert main != [] ==> main[0] in main + newer;
      assert newer != [] ==> newer[0] in main + newer;
    }
  }

  /** A tick rate at which no time event was ever armed is not reported as inactive. */
  method FreshRateIsReportedActive() returns (rate: TickRate, inactive: bool)
    ensures rate.Valid() && rate.main == rate.newer == []
    ensures rate.NoneArmed() && !inactive
  {
    var t := new QTimeEvt();
    rate := new TickRate({t});
    inactive := rate.NoTimeEvtsActiveX();
  }

  lemma PushFront(t: QTimeEvt, s: seq<QTimeEvt>)
    requires IsChain(s) && t.next == At(s, 0)
    ensures IsChain([t] + s)
  {
    var r := [t] + s;
    forall i: nat | i < |r| ensures NextAt(r, i) {
      assert i > 0 ==> NextAt(s, i - 1);
    }
  }

  /** Leaving out one element of a list without repetitions. */
  lemma Shortened(s: seq<QTimeEvt>, k: nat)
    requires Distinct(s) && k < |s|
    ensures var r := s[..k] + s[k + 1..];
      Distinct(r) && forall x :: x in r <==> x in s && x != s[k]
  {
    var r := s[..k] + s[k + 1..];
    forall i | 0 <= i < |r| ensures r[i] == s[if i < k then i else i + 1] {}
    forall x | x in s && x != s[k] ensures x in r {
      var i :| 0 <= i < |s| && s[i] == x;
      assert r[if i < k then i else i - 1] == x;
    }
  }
}
