/** Posting to active objects and multicasting to all subscribers of a signal
    (src/qf/qf_actq.cpp, post_, and src/qf/qf_ps.cpp, publish_). */
module Publish {
  import opened EventLife
  import opened EventQueue
  import opened EventManager
  import opened PrioritySet
  import opened Collections
  import MemPool

  /** A post to an active object; if more than `margin` free locations are not there, it fails, and
      the event loses a reference so that it does not leak. */
  method PostActive(me: QEQueue, e: QEvt, margin: nat, pools: seq<MemPool.QMPool>) returns (status: bool)
    requires me.Valid() && ValidPools(pools) && e.poolId <= |pools|
    requires margin == QF_NO_MARGIN ==> |me.Contents()| <= me.end
    requires e.poolId != 0 && IsLast(e.refCtr) ==>
      e.block in pools[e.poolId - 1].blocks && e.block !in pools[e.poolId - 1].free
    modifies me, me.ring, e, set p | p in pools, set p | p in pools :: p.links
    ensures me.Valid() && ValidPools(pools)
    ensures status <==> margin == QF_NO_MARGIN || |old(me.Contents())| + margin <= me.end
    ensures status ==> me.Contents() == old(me.Contents()) + [e]
    ensures status ==> e.refCtr == if e.poolId != 0 then Inc(old(e.refCtr)) else old(e.refCtr)
    ensures !status ==> me.Contents() == old(me.Contents())
    ensures !status && e.poolId != 0 && !IsLast(old(e.refCtr)) ==> e.refCtr == old(e.refCtr) - 1
    ensures !status && (e.poolId == 0 || IsLast(old(e.refCtr))) ==> e.refCtr == old(e.refCtr)
    ensures forall i | 0 <= i < |pools| :: (pools[i].free
      == (if !status && i + 1 == e.poolId && IsLast(old(e.refCtr)) then [e.block] else []) + old(pools[i].free))
  {
    status := me.Post(e, margin);
    if !status {
      Gc(e, pools);
    } else {
      assert forall i | 0 <= i < |pools| :: pools[i].free == old(pools[i].free);
    }
  }

  ghost predicate Apart(a: QEQueue, b: QEQueue) {
    a != b && a.ring != b.ring
  }

  /** A valid queue that holds `events`; `repr` are the objects that make up the queues. */
  ghost predicate Holds(q: QEQueue, repr: set<object>, events: seq<QEvt?>)
    reads repr
  {
    q in repr && q.ring in repr && q.Valid() && q.Contents() == events
  }

  ghost function Expected(before: seq<seq<QEvt?>>, e: QEvt, posted: seq<nat>, i: nat): seq<QEvt?>
    requires i < |before|
  {
    if i in posted then before[i] + [e] else before[i]
  }

  /** Each of the first `n` queues is as it was `before`, or, for the priorities in `posted`, has got
      the event at its end. */
  ghost predicate AllHold(queues: seq<QEQueue>, repr: set<object>, before: seq<seq<QEvt?>>,
                          e: QEvt, posted: seq<nat>, n: nat)
    reads repr
    requires n <= |queues| && |before| == |queues|
  {
    n == 0 ||
    (AllHold(queues, repr, before, e, posted, n - 1)
     && Holds(queues[n - 1], repr, Expected(before, e, posted, n - 1)))
  }

  /** The queues of the active objects, by priority, after the posts to `posted`. No two queues
      share anything. */
  ghost predicate Delivered(queues: seq<QEQueue>, repr: set<object>, before: seq<seq<QEvt?>>,
                            e: QEvt, posted: seq<nat>)
    reads repr
  {
    && (forall i, j | 0 <= i < |queues| && 0 <= j < |queues| && i != j :: Apart(queues[i], queues[j]))
    && |before| == |queues| && AllHold(queues, repr, before, e, posted, |queues|)
  }

  lemma {:induction false} EachHolds(queues: seq<QEQueue>, repr: set<object>, before: seq<seq<QEvt?>>,
                                     e: QEvt, posted: seq<nat>, n: nat, i: nat)
    requires i < n <= |queues| == |before| && AllHold(queues, repr, before, e, posted, n)
    ensures Holds(queues[i], repr, Expected(before, e, posted, i))
  {
    assert AllHold(queues, repr, before, e, posted, n - 1);
    if i == n - 1 {
      assert Holds(queues[i], repr, Expected(before, e, posted, i));
    } else {
      EachHolds(queues, repr, before, e, posted, n - 1, i);
    }
  }

  lemma {:induction false} HoldTogether(queues: seq<QEQueue>, repr: set<object>, before: seq<seq<QEvt?>>,
                                        e: QEvt, posted: seq<nat>, n: nat)
    requires n <= |queues| == |before|
    requires forall i | 0 <= i < n :: Holds(queues[i], repr, Expected(before, e, posted, i))
    ensures AllHold(queues, repr, before, e, posted, n)
  {
    if n > 0 {
      HoldTogether(queues, repr, before, e, posted, n - 1);
    }
  }

  /** What the queues hold then: those of `posted` have got the event at their ends, once, and the others
      nothing. */
  lemma DeliveredToAll(queues: seq<QEQueue>, repr: set<object>, before: seq<seq<QEvt?>>,
                       e: QEvt, posted: seq<nat>)
    requires Delivered(queues, repr, before, e, posted)
    ensures forall i | 0 <= i < |queues| ::
      (queues[i].Valid() && queues[i].Contents() == before[i] + if i in ToSet(posted) then [e] else [])
  {
    forall i | 0 <= i < |queues|
      ensures queues[i].Valid() && queues[i].Contents() == before[i] + if i in ToSet(posted) then [e] else []
    {
      EachHolds(queues, repr, before, e, posted, |queues|, i);
      assert before[i] + [] == before[i];
    }
  }

  /** The post to the subscriber with priority `p`. */
  method PostTo(queues: seq<QEQueue>, p: nat, e: QEvt, ghost repr: set<object>,
                ghost before: seq<seq<QEvt?>>, ghost posted: seq<nat>)
    requires Delivered(queues, repr, before, e, posted) && e !in repr
    requires p < |queues| && p !in posted && |before[p]| <= queues[p].end
    modifies repr, e
    ensures Delivered(queues, repr, before, e, posted + [p])
    ensures e.refCtr == if e.poolId != 0 then Inc(old(e.refCtr)) else old(e.refCtr)
  {
    forall i | 0 <= i < |queues| ensures Holds(queues[i], repr, Expected(before, e, posted, i)) {
      EachHolds(queues, repr, before, e, posted, |queues|, i);
    }
    PostToOne(queues, p, e, repr, before, posted);
    HoldTogether(queues, repr, before, e, posted + [p], |queues|);
  }

  method PostToOne(queues: seq<QEQueue>, p: nat, e: QEvt, ghost repr: set<object>,
                   ghost before: seq<seq<QEvt?>>, ghost posted: seq<nat>)
    requires |before| == |queues| && e !in repr
    requires forall i, j | 0 <= i < |queues| && 0 <= j < |queues| && i != j :: Apart(queues[i], queues[j])
    requires forall i | 0 <= i < |queues| :: Holds(queues[i], repr, Expected(before, e, posted, i))
    requires p < |queues| && p !in posted && |before[p]| <= queues[p].end
    modifies repr, e
    ensures forall i | 0 <= i < |queues| :: Holds(queues[i], repr, Expected(before, e, posted + [p], i))
    ensures e.refCtr == if e.poolId != 0 then Inc(old(e.refCtr)) else old(e.refCtr)
  {
    assert Holds(queues[p], repr, before[p]);
    var status := queues[p].Post(e, QF_NO_MARGIN);
    forall i | 0 <= i < |queues|
      ensures Holds(queues[i], repr, Expected(before, e, posted + [p], i))
    {
      if i != p {
        assert Apart(queues[i], queues[p]);
        assert old(Holds(queues[i], repr, Expected(before, e, posted, i)));
      }
    }
  }

  ghost predicate ValidBlock(e: QEvt, pools: seq<MemPool.QMPool>)
    reads pools
  {
    && e.poolId <= |pools|
    && (e.poolId != 0 ==> e.block in pools[e.poolId - 1].blocks && e.block !in pools[e.poolId - 1].free)
  }

  /** The counter of the event after `n` posts. */
  ghost function Counted(e: QEvt, was: counter, n: nat): nat {
    if e.poolId != 0 then was + n else was
  }

  /** Multicasts an event: every subscriber gets it once, the one with the highest priority first,
      and every post counts as a reference. An event without any reference in the end is recycled.
      `before` is what the queues hold at the beginning. */
  method PublishEvent(queues: seq<QEQueue>, subscribers: PSet64, e: QEvt, pools: seq<MemPool.QMPool>,
                      ghost repr: set<object>, ghost before: seq<seq<QEvt?>>)
    returns (ghost posted: seq<nat>)
    requires subscribers.Valid() && ValidPools(pools) && ValidBlock(e, pools)
    requires e !in repr && forall p | p in pools :: p !in repr && p.links !in repr
    requires Delivered(queues, repr, before, e, []) && HasRoom(queues, before, subscribers.Elements())
    requires e.poolId != 0 ==> e.refCtr + |subscribers.Elements()| < 255
    modifies repr, e, set p | p in pools, set p | p in pools :: p.links
    ensures ValidPools(pools) && Delivered(queues, repr, before, e, posted)
    ensures Decreasing(posted) && ToSet(posted) == old(subscribers.Elements())
    ensures |posted| == |old(subscribers.Elements())|
    ensures Counted(e, old(e.refCtr), |posted|) > 0 ==> e.refCtr == Counted(e, old(e.refCtr), |posted|)
    ensures forall i | 0 <= i < |pools| :: (pools[i].free
      == (if i + 1 == e.poolId && Counted(e, old(e.refCtr), |posted|) == 0 then [e.block] else [])
         + old(pools[i].free))
  {
    posted := Multicast(queues, subscribers, e, repr, before);
    Gc(e, pools);
  }

  /** All of publish_ but the last step: during the posts the event has one reference more. */
  method Multicast(queues: seq<QEQueue>, subscribers: PSet64, e: QEvt,
                   ghost repr: set<object>, ghost before: seq<seq<QEvt?>>)
    returns (ghost posted: seq<nat>)
    requires subscribers.Valid() && e !in repr
    requires Delivered(queues, repr, before, e, []) && HasRoom(queues, before, subscribers.Elements())
    requires e.poolId != 0 ==> e.refCtr + |subscribers.Elements()| < 255
    modifies repr, e
    ensures Delivered(queues, repr, before, e, posted)
    ensures Decreasing(posted) && ToSet(posted) == old(subscribers.Elements())
    ensures |posted| == |old(subscribers.Elements())|
    ensures e.refCtr == if e.poolId != 0 then old(e.refCtr) + 1 + |posted| else old(e.refCtr)
  {
    if e.poolId != 0 {
      e.refCtr := e.refCtr + 1;
    }
    var subscrList := new PSet64.Copy(subscribers);
    posted := PostToAll(queues, subscrList, e, repr, before, e.refCtr);
  }

  ghost predicate HasRoom(queues: seq<QEQueue>, before: seq<seq<QEvt?>>, all: set<nat>)
    requires |before| == |queues|
  {
    forall p | p in all :: p < |queues| && |before[p]| <= queues[p].end
  }

  /** The event has gone to the subscribers in `posted`, and each time its counter was raised; it
      was `c` at the beginning. */
  ghost predicate Underway(queues: seq<QEQueue>, e: QEvt, repr: set<object>, before: seq<seq<QEvt?>>,
                           c: counter, posted: seq<nat>)
    reads repr, e
  {
    e !in repr && Delivered(queues, repr, before, e, posted) && e.refCtr == Counted(e, c, |posted|)
  }

  /** The loop of publish_, on a copy of the subscriber list. `before` is what the queues held. */
  method PostToAll(queues: seq<QEQueue>, subscrList: PSet64, e: QEvt,
                   ghost repr: set<object>, ghost before: seq<seq<QEvt?>>, ghost c: counter)
    returns (ghost posted: seq<nat>)
    requires Underway(queues, e, repr, before, c, [])
    requires subscrList.Valid() && subscrList.bits !in repr
    requires HasRoom(queues, before, subscrList.Elements())
    requires e.poolId != 0 ==> c + |subscrList.Elements()| < 256
    modifies repr, e, subscrList.bits
    ensures Underway(queues, e, repr, before, c, posted)
    ensures Decreasing(posted) && ToSet(posted) == old(subscrList.Elements())
    ensures |posted| == |old(subscrList.Elements())|
  {
    ghost var all := subscrList.Elements();
    posted := [];
    var p := Highest(subscrList);
    while p != 0
      invariant Underway(queues, e, repr, before, c, posted)
      invariant IsRest(subscrList.Elements(), posted, all) && IsMaximum(p, subscrList.Elements())
      decreases |all| - |posted|
    {
      p, posted := Turn(queues, subscrList, p, e, repr, before, c, posted, all);
    }
    DecreasingIsDistinct(posted);
    DistinctCount(posted);
  }

  /** One turn of the loop: the subscriber is served and taken off the list. */
  method Turn(queues: seq<QEQueue>, subscrList: PSet64, p: nat, e: QEvt, ghost repr: set<object>,
              ghost before: seq<seq<QEvt?>>, ghost c: counter, ghost posted: seq<nat>, ghost all: set<nat>)
    returns (next: nat, ghost now: seq<nat>)
    requires Underway(queues, e, repr, before, c, posted)
    requires subscrList.Valid() && subscrList.bits !in repr && HasRoom(queues, before, all)
    requires IsRest(subscrList.Elements(), posted, all) && IsMaximum(p, subscrList.Elements()) && p != 0
    requires e.poolId != 0 ==> c + |all| < 256
    modifies repr, e, subscrList.bits
    ensures Underway(queues, e, repr, before, c, now)
    ensures IsRest(subscrList.Elements(), now, all) && IsMaximum(next, subscrList.Elements())
    ensures now == posted + [p] && |now| <= |all|
  {
    ghost var rest := subscrList.Elements();
    Remaining(posted, p, rest, all);
    now := posted + [p];
    Serve(queues, p, e, repr, before, c, posted);
    next := TakeOff(subscrList, p);
  }

  method Serve(queues: seq<QEQueue>, p: nat, e: QEvt, ghost repr: set<object>,
               ghost before: seq<seq<QEvt?>>, ghost c: counter, ghost posted: seq<nat>)
    requires Underway(queues, e, repr, before, c, posted) && p !in posted
    requires p < |queues| && |before[p]| <= queues[p].end
    requires e.poolId != 0 ==> c + |posted| < 255
    modifies repr, e
    ensures Underway(queues, e, repr, before, c, posted + [p])
  {
    OneMore(e, c, |posted|);
    PostTo(queues, p, e, repr, before, posted);
  }

  method TakeOff(subscrList: PSet64, p: nat) returns (next: nat)
    requires subscrList.Valid() && 1 <= p <= 64
    modifies subscrList.bits
    ensures subscrList.Elements() == old(subscrList.Elements()) - {p}
    ensures IsMaximum(next, subscrList.Elements())
  {
    subscrList.Remove(p);
    next := Highest(subscrList);
  }

  /** The highest subscriber left, or 0. */
  method Highest(subscrList: PSet64) returns (p: nat)
    requires subscrList.Valid()
    ensures IsMaximum(p, subscrList.Elements())
  {
    var any := subscrList.NotEmpty();
    if any {
      p := subscrList.FindMax();
    } else {
      p := 0;
    }
  }

  lemma OneMore(e: QEvt, was: counter, n: nat)
    requires e.poolId != 0 ==> was + n < 255
    ensures Counted(e, was, n) < 256
    ensures Counted(e, was, n + 1) == if e.poolId != 0 then Inc(Counted(e, was, n)) else was
  {}

  /** `rest` are those of `all` that have not been posted to; they all have a lower priority. */
  ghost predicate IsRest(rest: set<nat>, posted: seq<nat>, all: set<nat>) {
    && rest == all - ToSet(posted) && ToSet(posted) <= all && Decreasing(posted)
    && forall i, k | 0 <= i < |posted| && k in rest :: k < posted[i]
  }

  /** As long as a subscriber is left, the number of posts has not reached their number. */
  lemma Remaining(posted: seq<nat>, p: nat, rest: set<nat>, all: set<nat>)
    requires IsRest(rest, posted, all) && IsMaximum(p, rest) && p != 0
    ensures |posted| < |all| && p !in posted
    ensures ToSet(posted + [p]) == ToSet(posted) + {p}
    ensures IsRest(rest - {p}, posted + [p], all)
  {
    assert p !in ToSet(posted);
    DecreasingIsDistinct(posted);
    DistinctCount(posted);
    SubsetCount(ToSet(posted), all - {p});
    assert ToSet(posted + [p]) == ToSet(posted) + {p};
  }
}
