/** The lock-free receive ring under interleaving: one producer that runs rxPut for every byte
    that arrives, one consumer that runs the loop of rxParse, each step of either an atomic read
    or write of the shared buffer and indices (include/qs.h, rxPut; src/qs/qs_rx.cpp, rxParse). */
module QsInterleaving {
  import opened Arithmetic
  import opened QsFraming
  import opened QsReceive
  import QsResync

  /** Where the producer is. Testing: the call has begun. Writing: the tail was read and there was
      room. Publishing: the cell is written, the head is not. */
  datatype Producer = PIdle | Testing(b: byte) | Writing(b: byte) | Publishing(b: byte)

  /** Where the consumer is. Fetching: head and tail were found different. Advancing: the cell was
      read. Parsing: the tail was moved. */
  datatype Consumer = CIdle | Fetching | Advancing(b: byte) | Parsing(b: byte)

  /** A dropped byte: its position among those that arrived, and how many bytes were waiting. */
  datatype Drop = Drop(at: nat, waiting: nat)

  /** The shared state, the two program counters and the history: the bytes that arrived, those
      that were published, those that were consumed, and those that were dropped. */
  datatype State = State(
    cells: seq<byte>, end: nat, head: nat, tail: nat, rx: Decoder,
    p: Producer, c: Consumer,
    offered: seq<byte>, accepted: seq<byte>, consumed: seq<byte>, drops: seq<Drop>)

  ghost predicate Init(s: State) {
    && s.end < |s.cells| && s.end < QSCTR_RANGE && s.head == s.tail == 0
    && s.rx == START && s.p == PIdle && s.c == CIdle
    && s.offered == s.accepted == s.consumed == [] && s.drops == []
  }

  // ---------------------------------------------------------- producer steps

  ghost predicate Arrive(s: State, t: State, b: byte) {
    s.p == PIdle && t == s.(p := Testing(b), offered := s.offered + [b])
  }

  /** Reads the tail (the head is the producer's own) and decides. */
  ghost predicate ReadTail(s: State, t: State) {
    && s.p.Testing? && s.head <= s.end && s.tail <= s.end && s.offered != []
    && t == if LooksFull(s.head, s.tail, s.end)
            then s.(p := PIdle, drops := s.drops + [Drop(|s.offered| - 1, Occupied(s.head, s.tail, s.end))])
            else s.(p := Writing(s.p.b))
  }

  ghost predicate WriteCell(s: State, t: State) {
    && s.p.Writing? && s.head < |s.cells|
    && t == s.(p := Publishing(s.p.b), cells := s.cells[s.head := s.p.b])
  }

  ghost predicate WriteHead(s: State, t: State) {
    && s.p.Publishing?
    && t == s.(p := PIdle, head := Below(s.head, s.end), accepted := s.accepted + [s.p.b])
  }

  // ---------------------------------------------------------- consumer steps

  ghost predicate FindByte(s: State, t: State) {
    s.c == CIdle && s.head != s.tail && t == s.(c := Fetching)
  }

  ghost predicate ReadCell(s: State, t: State) {
    s.c == Fetching && s.tail < |s.cells| && t == s.(c := Advancing(s.cells[s.tail]))
  }

  ghost predicate WriteTail(s: State, t: State) {
    && s.c.Advancing?
    && t == s.(c := Parsing(s.c.b), tail := Below(s.tail, s.end), consumed := s.consumed + [s.c.b])
  }

  ghost predicate Parse(s: State, t: State) {
    s.c.Parsing? && t == s.(c := CIdle, rx := Step(s.rx, s.c.b))
  }

  ghost predicate Next(s: State, t: State) {
    || (exists b: byte :: Arrive(s, t, b))
    || ReadTail(s, t) || WriteCell(s, t) || WriteHead(s, t)
    || FindByte(s, t) || ReadCell(s, t) || WriteTail(s, t) || Parse(s, t)
  }

  // --------------------------------------------------------------- invariant

  ghost predicate InBounds(s: State) {
    s.end < |s.cells| && s.end < QSCTR_RANGE && s.head <= s.end && s.tail <= s.end
  }

  ghost function Unread(s: State): seq<byte>
    requires InBounds(s)
  {
    Waiting(s.cells, s.head, s.tail, s.end)
  }

  /** The byte whose call of rxPut is still under way. */
  ghost function Pending(p: Producer): seq<byte> {
    if p == PIdle then [] else [p.b]
  }

  /** The positions of the dropped bytes. */
  ghost function Dropped(drops: seq<Drop>): set<nat> {
    set d | d in drops :: d.at
  }

  /** `s` without the bytes at the positions in `gone`, in order. */
  ghost function Without(s: seq<byte>, gone: set<nat>): seq<byte> {
    if s == [] then []
    else
      var n := |s| - 1;
      Without(s[..n], gone) + (if n in gone then [] else [s[n]])
  }

  /** Positions behind the end do not matter. */
  lemma {:induction false} WithoutBehind(s: seq<byte>, gone: set<nat>, at: nat)
    requires at >= |s|
    ensures Without(s, gone + {at}) == Without(s, gone)
  {
    if s != [] {
      WithoutBehind(s[..|s| - 1], gone, at);
    }
  }

  lemma {:induction false} WithoutNone(s: seq<byte>)
    ensures Without(s, {}) == s
  {
    if s != [] {
      WithoutNone(s[..|s| - 1]);
    }
  }

  lemma OfferOne(s: seq<byte>, gone: set<nat>, b: byte)
    requires |s| !in gone
    ensures Without(s + [b], gone) == Without(s, gone) + [b]
    ensures Without(s + [b], gone + {|s|}) == Without(s, gone)
  {
    assert (s + [b])[..|s|] == s;
    WithoutBehind(s, gone, |s|);
  }

  /** The bytes the parser has been given: all consumed ones but the one in its hands. */
  ghost function Parsed(s: State): seq<byte>
    requires s.c.Parsing? ==> s.consumed != []
  {
    if s.c.Parsing? then s.consumed[..|s.consumed| - 1] else s.consumed
  }

  /** The byte in hand is the last that arrived, and was not dropped before it was tested. */
  ghost predicate LastPending(s: State)
    requires s.p.Testing?
  {
    s.offered != [] && s.offered[|s.offered| - 1] == s.p.b && |s.offered| - 1 !in Dropped(s.drops)
  }

  /** The ring and the consumer. */
  ghost predicate RingInv(s: State) {
    && InBounds(s)
    && s.accepted == s.consumed + Unread(s)
    && (s.p.Writing? || s.p.Publishing? ==> |Unread(s)| < s.end)
    && (s.p.Publishing? ==> s.cells[s.head] == s.p.b)
    && (s.c.Fetching? || s.c.Advancing? ==> Unread(s) != [])
    && (s.c.Advancing? ==> Unread(s)[0] == s.c.b)
    && (s.c.Parsing? ==> s.consumed != [] && s.consumed[|s.consumed| - 1] == s.c.b)
    && s.rx == Feed(START, Parsed(s))
  }

  /** What became of the bytes that arrived. */
  ghost predicate HistoryInv(s: State) {
    && (forall d | d in s.drops :: d.waiting == s.end && d.at < |s.offered|)
    && Without(s.offered, Dropped(s.drops)) == s.accepted + Pending(s.p)
    && |s.offered| == |s.accepted| + |s.drops| + |Pending(s.p)|
    && (s.p.Testing? ==> LastPending(s))
  }

  ghost predicate Inv(s: State) {
    RingInv(s) && HistoryInv(s)
  }

  lemma InitInv(s: State)
    requires Init(s)
    ensures Inv(s)
  {}

  lemma ProducerKeepsRing(s: State, t: State)
    requires RingInv(s)
    requires (exists b: byte :: Arrive(s, t, b)) || ReadTail(s, t) || WriteCell(s, t) || WriteHead(s, t)
    ensures RingInv(t)
  {
    if WriteCell(s, t) {
      PushCell(s.cells, s.head, s.tail, s.end, s.p.b);
    } else if WriteHead(s, t) {
      PushCell(s.cells, s.head, s.tail, s.end, s.p.b);
      assert s.cells[s.head := s.p.b] == s.cells;
    } else if ReadTail(s, t) {
      FullTestIsExact(s.head, s.tail, s.end);
    }
  }

  lemma ProducerKeepsInv(s: State, t: State)
    requires Inv(s)
    requires (exists b: byte :: Arrive(s, t, b)) || ReadTail(s, t) || WriteCell(s, t) || WriteHead(s, t)
    ensures Inv(t)
  {
    ProducerKeepsRing(s, t);
    FullTestIsExact(s.head, s.tail, s.end);
    if ReadTail(s, t) {
      TestKeepsHistory(s, t);
    } else {
      OthersKeepHistory(s, t);
    }
  }

  lemma OthersKeepHistory(s: State, t: State)
    requires HistoryInv(s)
    requires (exists b: byte :: Arrive(s, t, b)) || WriteCell(s, t) || WriteHead(s, t)
    ensures HistoryInv(t)
  {
    if WriteHead(s, t) {
      assert s.accepted + [s.p.b] + [] == s.accepted + [s.p.b];
    } else if b: byte :| Arrive(s, t, b) {
      ArriveKeepsHistory(s, t, b);
    }
  }

  lemma ArriveKeepsHistory(s: State, t: State, b: byte)
    requires HistoryInv(s) && Arrive(s, t, b)
    ensures HistoryInv(t)
  {
    assert |s.offered| !in Dropped(s.drops);
    OfferOne(s.offered, Dropped(s.drops), b);
    assert s.accepted + [] + [b] == s.accepted + [b];
  }

  lemma TestKeepsHistory(s: State, t: State)
    requires HistoryInv(s) && ReadTail(s, t)
    requires LooksFull(s.head, s.tail, s.end) ==> Occupied(s.head, s.tail, s.end) == s.end
    ensures HistoryInv(t)
  {
    if LooksFull(s.head, s.tail, s.end) {
      var n := |s.offered| - 1;
      assert s.offered == s.offered[..n] + [s.p.b];
      OfferOne(s.offered[..n], Dropped(s.drops), s.p.b);
      DropOne(s.drops, Drop(n, s.end));
      LastOff(Without(s.offered[..n], Dropped(s.drops)), s.accepted, s.p.b);
      assert s.accepted + [] == s.accepted;
    }
  }

  lemma DropOne(drops: seq<Drop>, d: Drop)
    ensures Dropped(drops + [d]) == Dropped(drops) + {d.at}
  {
    assert d in drops + [d];
  }

  lemma LastOff(a: seq<byte>, b: seq<byte>, x: byte)
    requires a + [x] == b + [x]
    ensures a == b
  {
    assert (a + [x])[..|a|] == a && (b + [x])[..|b|] == b;
  }

  lemma ConsumerKeepsInv(s: State, t: State)
    requires Inv(s)
    requires FindByte(s, t) || ReadCell(s, t) || WriteTail(s, t)
    ensures Inv(t)
  {
    ConsumerKeepsRing(s, t);
  }

  lemma ConsumerKeepsRing(s: State, t: State)
    requires RingInv(s)
    requires FindByte(s, t) || ReadCell(s, t) || WriteTail(s, t)
    ensures RingInv(t)
  {
    if !FindByte(s, t) {
      PopCell(s.cells, s.head, s.tail, s.end);
      assert WriteTail(s, t) ==> t.consumed[..|t.consumed| - 1] == s.consumed;
    }
  }

  lemma ParseKeepsInv(s: State, t: State)
    requires Inv(s) && Parse(s, t)
    ensures Inv(t)
  {
    var n := |s.consumed| - 1;
    assert s.consumed == s.consumed[..n] + [s.consumed[n]];
    FeedConcat(START, s.consumed[..n], [s.consumed[n]]);
    QsResync.FeedOne(Feed(START, Parsed(s)), s.c.b);
  }

  lemma NextKeepsInv(s: State, t: State)
    requires Inv(s) && Next(s, t)
    ensures Inv(t)
  {
    if Parse(s, t) {
      ParseKeepsInv(s, t);
    } else if FindByte(s, t) || ReadCell(s, t) || WriteTail(s, t) {
      ConsumerKeepsInv(s, t);
    } else {
      ProducerKeepsInv(s, t);
    }
  }

  // -------------------------------------------------------------- whole runs

  /** A finite run under any interleaving of the two sides. */
  ghost predicate IsRun(run: seq<State>) {
    && run != [] && Init(run[0])
    && forall i | 0 <= i < |run| - 1 :: Next(run[i], run[i + 1])
  }

  lemma {:induction false} RunKeepsInv(run: seq<State>, i: nat)
    requires IsRun(run) && i < |run|
    ensures Inv(run[i])
  {
    if i == 0 {
      InitInv(run[0]);
    } else {
      RunKeepsInv(run, i - 1);
      NextKeepsInv(run[i - 1], run[i]);
    }
  }

  /** At every moment of every run: the bytes consumed are a prefix of the bytes accepted, what is
      missing is waiting in the buffer, the decoder has seen exactly the consumed bytes, the bytes
      accepted are, in order, all that arrived but the dropped ones, and no byte was dropped unless
      `end` bytes were waiting when the tail was read. */
  lemma RunIsFifo(run: seq<State>, i: nat)
    requires IsRun(run) && i < |run|
    ensures var s := run[i];
      && InBounds(s) && s.consumed + Unread(s) == s.accepted
      && Without(s.offered, Dropped(s.drops)) == s.accepted + Pending(s.p)
      && |s.offered| == |s.accepted| + |s.drops| + |Pending(s.p)|
      && (!s.c.Parsing? ==> s.rx == Feed(START, s.consumed))
      && forall d | d in s.drops :: d.waiting == s.end
  {
    RunKeepsInv(run, i);
  }

  /** The producer never writes a cell that holds an unread byte, nor the one the consumer is
      about to read or has just read. */
  lemma NoUnreadCellIsOverwritten(run: seq<State>, i: nat)
    requires IsRun(run) && i + 1 < |run| && WriteCell(run[i], run[i + 1])
    ensures var s, t := run[i], run[i + 1];
      && InBounds(s) && InBounds(t) && Unread(t) == Unread(s)
      && forall j | 0 <= j < |Unread(s)| :: CellOf(s.tail, j, s.end) != s.head
  {
    RunKeepsInv(run, i);
    RunKeepsInv(run, i + 1);
    PushCell(run[i].cells, run[i].head, run[i].tail, run[i].end, run[i].p.b);
  }

  /** The byte the consumer takes out is the oldest unread one, even if the producer has moved on
      between the two halves of the removal. */
  lemma ConsumerTakesTheOldest(run: seq<State>, i: nat)
    requires IsRun(run) && i + 1 < |run| && WriteTail(run[i], run[i + 1])
    ensures var s, t := run[i], run[i + 1];
      InBounds(s) && InBounds(t) && Unread(s) == [s.c.b] + Unread(t)
  {
    RunKeepsInv(run, i);
    PopCell(run[i].cells, run[i].head, run[i].tail, run[i].end);
    RunKeepsInv(run, i + 1);
  }

  /** End to end: if the host sends a stream of records, none of its bytes is dropped and the
      parser has caught up, then under every interleaving the receiver has decoded exactly the
      records that were sent, all of them good. */
  lemma RecordsArrive(run: seq<State>, i: nat, bodies: seq<seq<byte>>)
    requires IsRun(run) && i < |run|
    requires run[i].offered == Stream(bodies) && run[i].drops == []
    requires run[i].p == PIdle && run[i].c == CIdle && run[i].head == run[i].tail
    ensures run[i].rx == START.(frames := GoodFrames(bodies))
  {
    RunKeepsInv(run, i);
    var s := run[i];
    assert Unread(s) == [] && s.consumed + [] == s.consumed && s.accepted + [] == s.accepted;
    assert Dropped(s.drops) == {};
    WithoutNone(s.offered);
    DecodeStream(START, bodies);
  }

  /** After bytes were lost the channel heals: whatever was accepted before, a stream of records
      that gets through is decoded in full but for its first record, which is joined with what was
      pending and comes out as it was sent exactly if nothing was. */
  lemma RecordsArriveAfterLoss(run: seq<State>, i: nat, before: seq<byte>, bodies: seq<seq<byte>>)
    requires IsRun(run) && i < |run| && bodies != []
    requires run[i].accepted == before + Stream(bodies)
    requires run[i].c == CIdle && run[i].head == run[i].tail
    ensures var d := Feed(START, before);
      var f := QsResync.JoinedFrame(d, bodies[0], 0);
      && run[i].rx == START.(frames := d.frames + [f] + GoodFrames(bodies[1..]))
      && (f == Frame(Sealed(bodies[0]), true) <==> QsResync.Fresh(d))
  {
    RunKeepsInv(run, i);
    var s := run[i];
    assert Unread(s) == [] && s.consumed + [] == s.consumed;
    FeedConcat(START, before, Stream(bodies));
    QsResync.SoundStays(START, before);
    QsResync.ResyncAtBoundary(Feed(START, before), bodies);
  }

  // ------------------------------------------------------------- what happens

  /** The test lets a byte through exactly if fewer than `end` bytes wait at that moment. */
  lemma TestAcceptsIff(s: State, t: State)
    requires Inv(s) && ReadTail(s, t)
    ensures if |Unread(s)| < s.end then t == s.(p := Writing(s.p.b))
            else t == s.(p := PIdle, drops := s.drops + [Drop(|s.offered| - 1, s.end)])
  {
    FullTestIsExact(s.head, s.tail, s.end);
  }

  /** With room, four steps of the producer put the byte behind all others and touch nothing else. */
  lemma {:induction false} PutByte(s: State, b: byte) returns (u: State, v: State, w: State, t: State)
    requires Inv(s) && s.p == PIdle && |Unread(s)| < s.end
    ensures Arrive(s, u, b) && ReadTail(u, v) && WriteCell(v, w) && WriteHead(w, t)
    ensures Inv(t) && t.p == PIdle && Unread(t) == Unread(s) + [b]
    ensures t.accepted == s.accepted + [b] && t.offered == s.offered + [b] && t.drops == s.drops
    ensures t.consumed == s.consumed && t.rx == s.rx && t.c == s.c && t.tail == s.tail && t.end == s.end
  {
    u := s.(p := Testing(b), offered := s.offered + [b]);
    assert Arrive(s, u, b);
    NextKeepsInv(s, u);
    v := u.(p := Writing(b));
    FullTestIsExact(u.head, u.tail, u.end);
    NextKeepsInv(u, v);
    w := v.(p := Publishing(b), cells := v.cells[v.head := b]);
    NextKeepsInv(v, w);
    t := w.(p := PIdle, head := Below(w.head, w.end), accepted := w.accepted + [b]);
    NextKeepsInv(w, t);
    PushCell(s.cells, s.head, s.tail, s.end, b);
  }

  /** Without room, two steps drop the byte; the ring stays as it is. */
  lemma {:induction false} DropByte(s: State, b: byte) returns (u: State, t: State)
    requires Inv(s) && s.p == PIdle && |Unread(s)| == s.end
    ensures Arrive(s, u, b) && ReadTail(u, t)
    ensures t == s.(offered := s.offered + [b], drops := s.drops + [Drop(|s.offered|, s.end)])
  {
    u := s.(p := Testing(b), offered := s.offered + [b]);
    FullTestIsExact(s.head, s.tail, s.end);
    t := u.(p := PIdle, drops := u.drops + [Drop(|s.offered|, s.end)]);
  }

  /** If a byte waits, four steps of the consumer take out and decode just the oldest one. */
  lemma {:induction false} TakeByte(s: State) returns (u: State, v: State, w: State, t: State)
    requires Inv(s) && s.c == CIdle && Unread(s) != []
    ensures FindByte(s, u) && ReadCell(u, v) && WriteTail(v, w) && Parse(w, t)
    ensures Inv(t) && t.c == CIdle && Unread(s) == [Unread(s)[0]] + Unread(t)
    ensures t.consumed == s.consumed + [Unread(s)[0]] && t.rx == Step(s.rx, Unread(s)[0])
    ensures t.accepted == s.accepted && t.offered == s.offered && t.drops == s.drops && t.p == s.p
    ensures t.cells == s.cells && t.head == s.head && t.end == s.end
  {
    PopCell(s.cells, s.head, s.tail, s.end);
    u := s.(c := Fetching);
    NextKeepsInv(s, u);
    v := u.(c := Advancing(u.cells[u.tail]));
    NextKeepsInv(u, v);
    w := v.(c := Parsing(v.c.b), tail := Below(v.tail, v.end), consumed := v.consumed + [v.c.b]);
    NextKeepsInv(v, w);
    t := w.(c := CIdle, rx := Step(w.rx, w.c.b));
    NextKeepsInv(w, t);
  }

  /** How many steps of its call the producer has still to make. */
  function StepsLeft(p: Producer): nat {
    match p
    case PIdle => 0
    case Testing(_) => 3
    case Writing(_) => 2
    case Publishing(_) => 1
  }

  /** Neither side ever waits for the other: wherever the consumer is, a call under way has a next step,
      which brings it nearer to its end, and the other way round. */
  lemma {:induction false} ProducerNeverBlocks(s: State) returns (t: State)
    requires Inv(s) && s.p != PIdle
    ensures ReadTail(s, t) || WriteCell(s, t) || WriteHead(s, t)
    ensures t.c == s.c && StepsLeft(t.p) < StepsLeft(s.p)
  {
    match s.p
    case Testing(b) =>
      t := if LooksFull(s.head, s.tail, s.end)
           then s.(p := PIdle, drops := s.drops + [Drop(|s.offered| - 1, Occupied(s.head, s.tail, s.end))])
           else s.(p := Writing(b));
    case Writing(b) => t := s.(p := Publishing(b), cells := s.cells[s.head := b]);
    case Publishing(b) => t := s.(p := PIdle, head := Below(s.head, s.end), accepted := s.accepted + [b]);
  }

  lemma {:induction false} ConsumerNeverBlocks(s: State) returns (t: State)
    requires Inv(s) && (s.c != CIdle || Unread(s) != [])
    ensures FindByte(s, t) || ReadCell(s, t) || WriteTail(s, t) || Parse(s, t)
    ensures t.p == s.p
    ensures match s.c
      case CIdle => t.c == Fetching
      case Fetching => t.c.Advancing?
      case Advancing(b) => t.c == Parsing(b)
      case Parsing(_) => t.c == CIdle
  {
    match s.c
    case CIdle => t := s.(c := Fetching);
    case Fetching => t := s.(c := Advancing(s.cells[s.tail]));
    case Advancing(b) => t := s.(c := Parsing(b), tail := Below(s.tail, s.end), consumed := s.consumed + [b]);
    case Parsing(b) => t := s.(c := CIdle, rx := Step(s.rx, b));
  }

  /** The run goes on with four more states. */
  lemma {:induction false} Continued(run: seq<State>, u: State, v: State, w: State, t: State)
    requires IsRun(run) && Next(run[|run| - 1], u) && Next(u, v) && Next(v, w) && Next(w, t)
    ensures IsRun(run + [u, v, w, t])
  {
    var all := run + [u, v, w, t];
    forall i | 0 <= i < |all| - 1 ensures Next(all[i], all[i + 1]) {
      if i < |run| - 1 {
        assert all[i] == run[i] && all[i + 1] == run[i + 1];
      }
    }
  }

  lemma {:induction false} RunPuts(run: seq<State>, b: byte) returns (longer: seq<State>)
    requires IsRun(run)
    requires var s := run[|run| - 1];
      s.p == PIdle && InBounds(s) && |Unread(s)| < s.end
    ensures IsRun(longer) && longer[0] == run[0]
    ensures var s, t := run[|run| - 1], longer[|longer| - 1];
      && InBounds(s) && InBounds(t) && t.p == PIdle && Unread(t) == Unread(s) + [b]
      && t.offered == s.offered + [b] && t.drops == s.drops && t.consumed == s.consumed
      && t.rx == s.rx && t.c == s.c && t.end == s.end
  {
    RunKeepsInv(run, |run| - 1);
    var s := run[|run| - 1];
    var u, v, w, t := PutByte(s, b);
    Continued(run, u, v, w, t);
    longer := run + [u, v, w, t];
  }

  lemma {:induction false} RunTakes(run: seq<State>) returns (longer: seq<State>)
    requires IsRun(run)
    requires var s := run[|run| - 1];
      s.c == CIdle && InBounds(s) && Unread(s) != []
    ensures IsRun(longer) && longer[0] == run[0]
    ensures var s, t := run[|run| - 1], longer[|longer| - 1];
      && InBounds(s) && InBounds(t) && t.c == CIdle && Unread(s) == [Unread(s)[0]] + Unread(t)
      && t.consumed == s.consumed + [Unread(s)[0]] && t.rx == Step(s.rx, Unread(s)[0])
      && t.offered == s.offered && t.drops == s.drops && t.p == s.p && t.end == s.end
  {
    RunKeepsInv(run, |run| - 1);
    var s := run[|run| - 1];
    var u, v, w, t := TakeByte(s);
    Continued(run, u, v, w, t);
    longer := run + [u, v, w, t];
  }

  /** Nothing is under way, and `bytes` have gone through without a loss. */
  ghost predicate HasDelivered(s: State, bytes: seq<byte>) {
    && s.offered == s.consumed == bytes && s.drops == [] && s.rx == Feed(START, bytes)
    && s.p == PIdle && s.c == CIdle && s.head == s.tail && InBounds(s)
  }

  /** From an empty ring with room for a byte, any bytes can be sent through without a loss. */
  lemma {:induction false} RunDelivers(s: State, bytes: seq<byte>) returns (run: seq<State>)
    requires Init(s) && s.end > 0
    ensures IsRun(run) && run[0] == s && HasDelivered(run[|run| - 1], bytes) && run[|run| - 1].end == s.end
    decreases |bytes|
  {
    if bytes == [] {
      run := [s];
    } else {
      var n := |bytes| - 1;
      var before := RunDelivers(s, bytes[..n]);
      var r := before[|before| - 1];
      assert Unread(r) == [];
      var between := RunPuts(before, bytes[n]);
      run := RunTakes(between);
      assert bytes == bytes[..n] + [bytes[n]];
      FeedConcat(START, bytes[..n], [bytes[n]]);
      QsResync.FeedOne(Feed(START, bytes[..n]), bytes[n]);
      var t := run[|run| - 1];
      assert [bytes[n]] == [bytes[n]] + Unread(t);
    }
  }
}
