/** Allocating, collecting and deferring dynamic events (src/qf/qf_dyn.cpp and
    src/qf/qf_defer.cpp), on the memory pools and event queues of the framework. */
module EventManager {
  import opened EventLife
  import opened EventQueue
  import opened MemPool

  /** The pools are separate objects, registered in the order of growing block sizes. */
  ghost predicate ValidPools(pools: seq<QMPool>)
    reads set p | p in pools, set p | p in pools :: p.links
  {
    && (forall i | 0 <= i < |pools| :: pools[i].Valid())
    && (forall i, j | 0 <= i < j < |pools| ::
          pools[i] != pools[j] && pools[i].links != pools[j].links && pools[i].blockSize < pools[j].blockSize)
  }

  /** The i-th pool is the first whose blocks are large enough. */
  ghost predicate IsBestFit(pools: seq<QMPool>, evtSize: nat, i: nat)
    requires i < |pools|
  {
    evtSize <= pools[i].blockSize && forall j | 0 <= j < i :: pools[j].blockSize < evtSize
  }

  /** Allocates an event from the pool with the smallest blocks that fit it. */
  method NewX(pools: seq<QMPool>, evtSize: nat, margin: nat) returns (e: QEvt?, idx: nat)
    requires ValidPools(pools)
    requires exists p | p in pools :: evtSize <= p.blockSize
    requires margin == QF_NO_MARGIN ==>
      forall i | 0 <= i < |pools| && IsBestFit(pools, evtSize, i) :: pools[i].free != []
    modifies set p | p in pools
    ensures ValidPools(pools) && idx < |pools| && IsBestFit(pools, evtSize, idx)
    ensures forall i | 0 <= i < |pools| && i != idx :: pools[i].free == old(pools[i].free)
    ensures e == null <==> |old(pools[idx].free)| <= (if margin == QF_NO_MARGIN then 0 else margin)
    ensures e == null ==> pools[idx].free == old(pools[idx].free)
    ensures e != null ==> fresh(e) && e.poolId == idx + 1 && e.refCtr == 0
    ensures e != null ==> old(pools[idx].free) == [e.block] + pools[idx].free
  {
    idx := 0;
    while idx < |pools| && pools[idx].blockSize < evtSize
      invariant 0 <= idx <= |pools|
      invariant forall i | 0 <= i < idx :: pools[i].blockSize < evtSize
    {
      idx := idx + 1;
    }
    assert idx < |pools| && IsBestFit(pools, evtSize, idx);
    var b := pools[idx].Get(if margin != QF_NO_MARGIN then margin else 0);
    e := null;
    if b != NULL {
      e := new QEvt(idx + 1, b);
    }
  }

  /** Gives up one reference to an event; the last one recycles it. This is the step that Collect
      describes, together with the return of the block. */
  method Gc(e: QEvt, pools: seq<QMPool>)
    requires ValidPools(pools) && e.poolId <= |pools|
    requires e.poolId != 0 && IsLast(e.refCtr) ==>
      e.block in pools[e.poolId - 1].blocks && e.block !in pools[e.poolId - 1].free
    modifies e, set p | p in pools, set p | p in pools :: p.links
    ensures ValidPools(pools)
    ensures e.refCtr == if e.poolId != 0 && !IsLast(old(e.refCtr)) then old(e.refCtr) - 1 else old(e.refCtr)
    ensures e.poolId != 0 ==> forall x: Standing | x.refCtr == old(e.refCtr) ::
      Collect(x).refCtr == e.refCtr && (Collect(x).dying > x.dying <==> IsLast(old(e.refCtr)))
    ensures forall i | 0 <= i < |pools| ::
      (pools[i].free
       == (if i + 1 == e.poolId && IsLast(old(e.refCtr)) then [e.block] else []) + old(pools[i].free))
  {
    if e.poolId != 0 {
      if e.refCtr > 1 {
        e.refCtr := e.refCtr - 1;
      } else {
        pools[e.poolId - 1].Put(e.block);
      }
    }
  }

  /** Moves the oldest event of a deferred queue to the front of an active object's queue. The
      event keeps its number of references. */
  method Recall(me: QEQueue, eq: QEQueue) returns (recalled: bool)
    requires me.Valid() && eq.Valid() && me != eq && me.ring != eq.ring
    requires |me.Contents()| <= me.end
    requires eq.frontEvt != null && eq.frontEvt.poolId != 0 ==> 1 <= eq.frontEvt.refCtr < 255
    modifies me, eq, me.ring, if eq.frontEvt == null then {} else {eq.frontEvt}
    ensures me.Valid() && eq.Valid()
    ensures recalled <==> old(eq.Contents()) != []
    ensures !recalled ==> me.Contents() == old(me.Contents()) && eq.Contents() == []
    ensures recalled ==> eq.Contents() == old(eq.Contents())[1..]
    ensures recalled ==> me.Contents() == [old(eq.Contents())[0]] + old(me.Contents())
    ensures recalled ==> old(eq.frontEvt) != null && old(eq.frontEvt).refCtr == old(eq.frontEvt.refCtr)
  {
    var e := eq.Get();
    if e != null {
      me.PostLIFO(e);
      if e.poolId != 0 {
        assert e.refCtr >= 2;
        e.refCtr := e.refCtr - 1;
      }
      recalled := true;
    } else {
      recalled := false;
    }
  }
}
