/** Event queues: a ring buffer with one extra location at the front, filled at either end and
    emptied at the front (include/qequeue.h, src/qf/qf_qeq.cpp, and the queues of active objects
    in src/qf/qf_actq.cpp), and the deferral of events from one queue to another
    (src/qf/qf_defer.cpp). */
module EventQueue {
  import opened Arithmetic
  import opened DownwardRing
  import opened EventLife

  const QF_NO_MARGIN := 0xFFFF

  /** An event. Events with pool number 0 are static and not counted. */
  class QEvt {
    const poolId: nat
    const block: nat  // the memory block of a dynamic event
    var refCtr: counter

    constructor (poolId: nat, block: nat)
      ensures this.poolId == poolId && this.block == block && refCtr == 0
    {
      this.poolId, this.block, refCtr := poolId, block, 0;
    }
  }

  // ------------------------------------------------------------- the queue

  class QEQueue {
    var frontEvt: QEvt?
    const ring: array<QEvt?>
    const end: nat
    var head: nat
    var tail: nat
    var nFree: nat
    var nMin: nat
    ghost var peak: nat  // the largest number of events ever waiting

    /** How many events wait in the ring. */
    ghost function Buffered(): int
      reads this
    {
      if frontEvt == null then 0 else end - nFree
    }

    /** The ring holds `n` events. */
    ghost predicate RingOk(n: int)
      reads this, ring
    {
      && 0 <= n <= end <= ring.Length
      && (end > 0 ==> tail < end && head == CellAt(tail, n, end))
      && null !in Ring(ring[..], tail, n, end)
    }

    ghost function InRing(n: nat): seq<QEvt?>
      reads this, ring
      requires RingOk(n)
    {
      Ring(ring[..], tail, n, end)
    }

    ghost predicate Valid()
      reads this, ring
    {
      && RingOk(Buffered())
      && (frontEvt == null <==> nFree == end + 1) && nFree <= end + 1
      && nMin <= nFree && nMin + peak == end + 1
    }

    /** The waiting events, the next one first. */
    ghost function Contents(): seq<QEvt?>
      reads this, ring
      requires Valid()
    {
      if frontEvt == null then [] else [frontEvt] + InRing(Buffered())
    }

    constructor (qSto: array<QEvt?>, qLen: nat)
      requires qLen <= qSto.Length
      ensures Valid() && Contents() == [] && ring == qSto && end == qLen && peak == 0
    {
      frontEvt, ring, end := null, qSto, qLen;
      head, tail := 0, 0;
      nFree, nMin, peak := qLen + 1, qLen + 1, 0;
    }

    /** Posts to the back of the queue, provided that more than `margin` locations are free. */
    method Post(e: QEvt, margin: nat) returns (status: bool)
      requires Valid()
      requires margin == QF_NO_MARGIN ==> |Contents()| <= end
      modifies this, ring, e`refCtr
      ensures Valid()
      ensures status <==> margin == QF_NO_MARGIN || |old(Contents())| + margin <= end
      ensures Contents() == if status then old(Contents()) + [e] else old(Contents())
      ensures e.refCtr == if status && e.poolId != 0 then Inc(old(e.refCtr)) else old(e.refCtr)
      ensures peak == Max(old(peak), |Contents()|)
    {
      assert |Contents()| == end + 1 - nFree;
      if (margin == QF_NO_MARGIN && nFree > 0) || nFree > margin {
        if e.poolId != 0 {
          e.refCtr := Inc(e.refCtr);
        }
        Append(e);
        status := true;
      } else {
        status := false;
      }
    }

    /** The event becomes the front one or goes into the ring. */
    method Append(e: QEvt)
      requires Valid() && |Contents()| <= end
      modifies this, ring
      ensures Valid() && Contents() == old(Contents()) + [e] && peak == Max(old(peak), |Contents()|)
    {
      TakeOne();
      if frontEvt == null {
        frontEvt := e;
      } else {
        PutAtHead(e, end - nFree - 1);
      }
    }

    /** Posts to the front of the queue, which must have room. */
    method PostLIFO(e: QEvt)
      requires Valid() && |Contents()| <= end
      modifies this, ring, e`refCtr
      ensures Valid() && Contents() == [e] + old(Contents())
      ensures e.refCtr == if e.poolId != 0 then Inc(old(e.refCtr)) else old(e.refCtr)
      ensures peak == Max(old(peak), |Contents()|)
    {
      if e.poolId != 0 {
        e.refCtr := Inc(e.refCtr);
      }
      Prepend(e);
    }

    /** The event becomes the front one; the former one goes into the ring. */
    method Prepend(e: QEvt)
      requires Valid() && |Contents()| <= end
      modifies this, ring
      ensures Valid() && Contents() == [e] + old(Contents()) && peak == Max(old(peak), |Contents()|)
    {
      TakeOne();
      var front := frontEvt;
      frontEvt := e;
      assert front == null ==> nFree == end;
      if front != null {
        PutAtTail(front, end - nFree - 1);
      }
    }

    method PutAtHead(e: QEvt, ghost n: nat)
      requires RingOk(n) && n < end
      modifies this`head, ring
      ensures RingOk(n + 1) && InRing(n + 1) == old(InRing(n)) + [e]
    {
      InsertAtHead(ring[..], tail, n, end, e);
      ghost var cells := ring[..];
      ring[head] := e;
      assert ring[..] == cells[head := e];
      if head == 0 {
        head := end;
      }
      head := head - 1;
    }

    method PutAtTail(e: QEvt, ghost n: nat)
      requires RingOk(n) && n < end
      modifies this`tail, ring
      ensures RingOk(n + 1) && InRing(n + 1) == [e] + old(InRing(n))
    {
      InsertAtTail(ring[..], tail, n, end, e);
      ghost var cells := ring[..];
      tail := tail + 1;
      if tail == end {
        tail := 0;
      }
      ring[tail] := e;
      assert ring[..] == cells[tail := e];
    }

    method TakeAtTail(ghost n: nat) returns (e: QEvt)
      requires RingOk(n) && n > 0
      modifies this`tail
      ensures RingOk(n - 1) && old(InRing(n)) == [e] + InRing(n - 1)
    {
      RemoveAtTail(ring[..], tail, n, end);
      ghost var was := InRing(n);
      assert was[0] == ring[tail] && was[0] in was;
      e := ring[tail];
      if tail == 0 {
        tail := end;
      }
      tail := tail - 1;
      assert was[1..] == Ring(ring[..], tail, n - 1, end);
    }

    /** The bookkeeping shared by the two: one location less is free. */
    method TakeOne()
      requires 0 < nFree <= end + 1 && nMin <= nFree && nMin + peak == end + 1
      modifies this`nFree, this`nMin, this`peak
      ensures nFree == old(nFree) - 1 && nMin <= nFree && nMin + peak == end + 1
      ensures peak == Max(old(peak), end + 1 - nFree)
    {
      nFree := nFree - 1;
      if nMin > nFree {
        nMin := nFree;
        peak := end + 1 - nFree;
      }
    }

    /** Takes the event at the front out of the queue; null if there is none. */
    method Get() returns (e: QEvt?)
      requires Valid()
      modifies this
      ensures Valid() && peak == old(peak)
      ensures old(Contents()) == [] ==> e == null && Contents() == []
      ensures old(Contents()) != [] ==> e == old(Contents())[0] && Contents() == old(Contents())[1..]
    {
      e := frontEvt;
      if e != null {
        nFree := nFree + 1;
        if nFree <= end {
          frontEvt := TakeAtTail(end - nFree + 1);
        } else {
          frontEvt := null;
        }
      }
    }

    /** The smallest number of free locations so far. */
    method GetMin() returns (n: nat)
      requires Valid()
      ensures n + peak == end + 1
    {
      n := nMin;
    }
  }
}
