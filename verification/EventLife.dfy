/** The life of dynamic events: allocated from a pool, referenced from queues and by the threads
    that work on them, and recycled when the last reference goes (src/qf/qf_dyn.cpp,
    src/qf/qf_actq.cpp, src/qf/qf_ps.cpp, src/qf/qf_defer.cpp). Every step below is one critical
    section of the source, so a run is any interleaving of any number of threads. */
module EventLife {

  /** uint8_t, the width of the reference counter. */
  type counter = c: nat | c < 256

  function Inc(c: counter): counter {
    if c == 255 then 0 else c + 1
  }

  /** The test by which gc decides that it was given the last reference. */
  predicate IsLast(c: counter) {
    c <= 1
  }

  type Evt = nat

  /** Where one event of a pool is: its counter; whether its creator has yet to post it; how often
      it is on its way back to the pool (gc has decided, the block has not been returned) and how
      often in the free list; the references from all queues together; and the references held by
      threads, for events taken out of a queue, kept by newRef_ or being published. */
  datatype Standing = Standing(refCtr: counter, created: bool, dying: nat, free: nat, queued: nat, held: nat)

  type Sys = map<Evt, Standing>

  ghost function Refs(x: Standing): nat {
    x.queued + x.held
  }

  /** An event is in the free list, or on its way there, or in the hands of its creator - once and
      unreferenced - or else its counter is the number of references to it. */
  ghost predicate Sound(x: Standing) {
    if x.free == x.dying == 0 && !x.created then Refs(x) == x.refCtr > 0
    else x.free + x.dying + (if x.created then 1 else 0) == 1 && Refs(x) == 0
         && (x.created ==> x.refCtr == 0)
  }

  ghost predicate Inv(s: Sys) {
    forall e | e in s :: Sound(s[e])
  }

  ghost predicate Init(s: Sys) {
    forall e | e in s :: s[e] == Standing(s[e].refCtr, false, 0, 1, 0, 0)
  }

  // ------------------------------------------------------------------ steps

  datatype Kind =
    | New       // newX_
    | Post      // post_, postLIFO, post: the event goes into a queue
    | Hold      // newRef_, and the first half of publish_
    | Get       // get_: the reference moves from a queue to a thread
    | Release   // gc of a reference that a thread holds: its decision
    | FailPost  // post_ without room for the margin: the decision of its gc
    | Put       // the second half of gc: the block goes back to the pool

  datatype Move = Move(kind: Kind, e: Evt)

  /** A thread may work on an event that it created or that it holds. */
  ghost predicate Owned(x: Standing) {
    x.created || x.held > 0
  }

  ghost predicate Possible(x: Standing, k: Kind) {
    match k
    case New => x.free > 0
    case Post => Owned(x)
    case Hold => Owned(x)
    case Get => x.queued > 0
    case Release => x.held > 0
    case FailPost => Owned(x)
    case Put => x.dying > 0
  }

  /** The decision of gc: one reference less, or the event is given up. */
  ghost function Collect(x: Standing): Standing {
    if IsLast(x.refCtr) then x.(dying := x.dying + 1, created := false)
    else x.(refCtr := x.refCtr - 1, created := false)
  }

  ghost function Act(x: Standing, k: Kind): Standing
    requires Possible(x, k)
  {
    match k
    case New => x.(free := x.free - 1, created := true, refCtr := 0)
    case Post => x.(refCtr := Inc(x.refCtr), created := false, queued := x.queued + 1)
    case Hold => x.(refCtr := Inc(x.refCtr), created := false, held := x.held + 1)
    case Get => x.(queued := x.queued - 1, held := x.held + 1)
    case Release => Collect(x.(held := x.held - 1))
    case FailPost => Collect(x)
    case Put => x.(dying := x.dying - 1, free := x.free + 1)
  }

  ghost predicate Enabled(s: Sys, m: Move) {
    m.e in s && Possible(s[m.e], m.kind)
  }

  ghost function Do(s: Sys, m: Move): Sys
    requires Enabled(s, m)
  {
    s[m.e := Act(s[m.e], m.kind)]
  }

  // -------------------------------------------------------------- one step

  /** What a caller has to observe: the counter must not run over, and an event that is posted with
      a margin and does not fit must be one that nobody references yet. */
  ghost predicate Proper(s: Sys, m: Move)
    requires m.e in s
  {
    match m.kind
    case Post => Refs(s[m.e]) < 255
    case Hold => Refs(s[m.e]) < 255
    case FailPost => s[m.e].created
    case _ => true
  }

  lemma ActKeepsSoundIff(s: Sys, m: Move)
    requires Enabled(s, m) && Sound(s[m.e])
    ensures Sound(Act(s[m.e], m.kind)) <==> Proper(s, m)
  {}

  /** Exactly the proper steps keep the books right. Of the others, a post that fails for lack of
      margin is the surprising one: it gives up a reference even if the event is one that the
      caller holds and will release again. */
  lemma StepKeepsInvIff(s: Sys, m: Move)
    requires Inv(s) && Enabled(s, m)
    ensures Inv(Do(s, m)) <==> Proper(s, m)
  {
    ActKeepsSoundIff(s, m);
    assert Do(s, m)[m.e] == Act(s[m.e], m.kind);
  }

  // ------------------------------------------------------------ whole runs

  ghost predicate IsRun(run: seq<Sys>, moves: seq<Move>) {
    && |run| == |moves| + 1 && Init(run[0])
    && forall i | 0 <= i < |moves| :: Enabled(run[i], moves[i]) && run[i + 1] == Do(run[i], moves[i])
  }

  ghost predicate AlwaysProper(run: seq<Sys>, moves: seq<Move>)
    requires |moves| <= |run|
  {
    forall i | 0 <= i < |moves| :: moves[i].e in run[i] && Proper(run[i], moves[i])
  }

  /** The books are right at every moment of a run just if every step of it was proper. */
  lemma RunKeepsInvIff(run: seq<Sys>, moves: seq<Move>)
    requires IsRun(run, moves)
    ensures (forall i | 0 <= i < |run| :: Inv(run[i])) <==> AlwaysProper(run, moves)
  {
    if forall i | 0 <= i < |run| :: Inv(run[i]) {
      forall i | 0 <= i < |moves| ensures moves[i].e in run[i] && Proper(run[i], moves[i]) {
        assert Inv(run[i]) && Inv(run[i + 1]);
        StepKeepsInvIff(run[i], moves[i]);
      }
    }
    if AlwaysProper(run, moves) {
      forall i | 0 <= i < |run| ensures Inv(run[i]) {
        ProperRunKeepsInv(run, moves, i);
      }
    }
  }

  lemma {:induction false} ProperRunKeepsInv(run: seq<Sys>, moves: seq<Move>, i: nat)
    requires IsRun(run, moves) && i < |run| && AlwaysProper(run, moves[..i])
    ensures Inv(run[i])
  {
    if i > 0 {
      assert moves[..i][i - 1] == moves[i - 1];
      assert AlwaysProper(run, moves[..i - 1]) by {
        forall j | 0 <= j < i - 1 ensures moves[j].e in run[j] && Proper(run[j], moves[j]) {
          assert moves[..i][j] == moves[j];
        }
      }
      ProperRunKeepsInv(run, moves, i - 1);
      StepKeepsInvIff(run[i - 1], moves[i - 1]);
    }
  }

  /** In a run of proper steps no event is recycled while it is in a queue or in the hands of a
      thread, and none is recycled twice; and no event is lost: one that nobody references, has
      just created or is about to return is in the free list, once. */
  lemma NoDanglingNoLeak(run: seq<Sys>, moves: seq<Move>, i: nat, e: Evt)
    requires IsRun(run, moves) && i < |run| && AlwaysProper(run, moves[..i]) && e in run[i]
    ensures var x := run[i][e];
      && (Refs(x) > 0 ==> x.free == x.dying == 0 && x.refCtr == Refs(x))
      && x.free + x.dying <= 1
      && (Refs(x) == 0 && !x.created && x.dying == 0 ==> x.free == 1)
  {
    ProperRunKeepsInv(run, moves, i);
    assert Sound(run[i][e]);
  }

  /** The assertion in recall always holds: once a deferred event was put back into the queue of
      its active object, its counter is at least two. */
  lemma RecallFindsTwoReferences(run: seq<Sys>, moves: seq<Move>, i: nat, e: Evt)
    requires IsRun(run, moves) && i < |run| && AlwaysProper(run, moves[..i]) && e in run[i]
    requires run[i][e].held > 0 && run[i][e].queued > 0
    ensures run[i][e].refCtr >= 2
  {
    NoDanglingNoLeak(run, moves, i, e);
  }

  ghost predicate Leads(x: Standing, k: Kind, y: Standing) {
    Possible(x, k) && y == Act(x, k)
  }

  /** The standing of an event that is being processed and that nobody else references. */
  const PROCESSED := Standing(1, false, 0, 0, 0, 1)

  lemma OneReferenceHeld(x: Standing)
    ensures Sound(x) && x.held == 1 && x.queued == 0 <==> x == PROCESSED
  {}

  /** A reference that a thread takes is one more in its hands and in none of the queues, and giving it up
      leads back to where it was. */
  lemma {:induction false} HoldAndRelease(x: Standing) returns (y: Standing)
    requires Sound(x) && x.held > 0 && Refs(x) < 255
    ensures Leads(x, Hold, y) && Leads(y, Release, x)
    ensures y.held == x.held + 1 && y.queued == x.queued && y.refCtr == x.refCtr + 1
  {
    y := x.(refCtr := x.refCtr + 1, held := x.held + 1);
  }

  /** A post puts one more into a queue, taking the event out moves this reference to the thread, and
      giving it up leads back to where the event was. */
  lemma {:induction false} PostGetAndRelease(x: Standing) returns (y: Standing, z: Standing)
    requires Sound(x) && x.held > 0 && Refs(x) < 255
    ensures Leads(x, Post, y) && Leads(y, Get, z) && Leads(z, Release, x)
    ensures y.queued == x.queued + 1 && y.held == x.held && y.refCtr == x.refCtr + 1
    ensures z.queued == x.queued && z.held == x.held + 1 && z.refCtr == x.refCtr + 1
  {
    y := x.(refCtr := x.refCtr + 1, queued := x.queued + 1);
    z := x.(refCtr := x.refCtr + 1, held := x.held + 1);
  }

  /** The standing of a new event, which only its creator knows. */
  const CREATED := Standing(0, true, 0, 0, 0, 0)

  lemma NewEvent(x: Standing)
    ensures Sound(x) && x.created <==> x == CREATED
  {}

  /** Publishing a new event to nobody: the reference that protects it is the only one, and giving it up
      returns the event to its pool. */
  lemma PublishedToNobody() returns (x: Standing, y: Standing, z: Standing)
    ensures Leads(CREATED, Hold, x) && Leads(x, Release, y) && Leads(y, Put, z)
    ensures x == PROCESSED && y.dying == 1 && y.held == y.queued == 0
    ensures z.free == 1 && z.dying == z.held == z.queued == 0 && !z.created
  {
    x := Standing(1, false, 0, 0, 0, 1);
    y := Standing(1, false, 1, 0, 0, 0);
    z := Standing(1, false, 0, 1, 0, 0);
  }

  /** A post of a new event that fails for lack of margin returns it to its pool; one of an event that is
      referenced makes its counter one too low. */
  lemma {:induction false} FailedPost(x: Standing) returns (y: Standing)
    requires Sound(x) && Owned(x)
    ensures Leads(x, FailPost, y)
    ensures x.created ==> y.dying == 1 && Refs(y) == 0 && !y.created
    ensures x.refCtr > 1 ==> y.refCtr == x.refCtr - 1 && Refs(y) == Refs(x)
  {
    y := if x.created then x.(dying := x.dying + 1, created := false)
         else if x.refCtr > 1 then x.(refCtr := x.refCtr - 1)
         else x.(dying := x.dying + 1);
  }

  /** A post of such an event that fails is harmful: the event is recycled under the hands of its
      holder, and when the holder lets go of it, its block gets into the free list twice. */
  lemma FailedRepostRecyclesTwice() returns (a: Standing, b: Standing, c: Standing, d: Standing)
    ensures Leads(PROCESSED, FailPost, a) && Leads(a, Put, b)
    ensures b.free == 1 && b.held == 1
    ensures Leads(b, Release, c) && Leads(c, Put, d)
    ensures d.free == 2
  {
    a := Standing(1, false, 1, 0, 0, 1);
    b := Standing(1, false, 0, 1, 0, 1);
    c := Standing(1, false, 1, 1, 0, 0);
    d := Standing(1, false, 0, 2, 0, 0);
  }

  /** Every event of a pool gets there by being allocated, posted and taken out of the queue. */
  lemma EventInProcessing(x: Standing) returns (a: Standing, b: Standing)
    requires Sound(x) && x.free == 1
    ensures Leads(x, New, a) && Leads(a, Post, b) && Leads(b, Get, PROCESSED)
    ensures a == CREATED && b.queued == b.refCtr == 1 && b.held == 0
  {
    a := CREATED;
    b := Standing(1, false, 0, 0, 1, 0);
  }
}
