/** What a host that decodes the trace output gets to see: the guarantees of QsTrace, QsFilter,
    QsRecord and QsResync put together. */
module QsHost {
  import opened Arithmetic
  import opened QsFraming
  import opened QsRecord
  import opened QsTrace
  import QsFilter
  import QsResync
  import QsSelection

  /** The macros leave the number and the strings of every record alone. */
  ghost predicate CleanCalls(calls: seq<Call>) {
    forall i | 0 <= i < |calls| :: !IsControl(calls[i].rec) && CleanTexts(ItemsOfAll(calls[i].fields))
  }

  lemma {:induction false} CleanCallsAreEncoded(seqNo: byte, calls: seq<Call>)
    requires CleanCalls(calls)
    ensures Produced(seqNo, calls) == Stream(Bodies(seqNo, calls))
    decreases |calls|
  {
    if calls != [] {
      var s: byte := (seqNo + 1) % 256;
      CleanRecordIsEncoded(s, calls[0].rec, ItemsOfAll(calls[0].fields));
      CleanCallsAreEncoded(s, calls[1..]);
      assert Bodies(seqNo, calls)[1..] == Bodies(s, calls[1..]);
    }
  }

  lemma {:induction false} SafeFilterAdmitsCleanCalls(filter: seq<bv8>, calls: seq<Call>)
    requires |filter| == QsFilter.SIZE && QsFilter.NoControlRecord(filter)
    requires forall c | c in calls :: CleanTexts(ItemsOfAll(c.fields))
    ensures CleanCalls(Admitted(filter, calls))
  {
    var r := Admitted(filter, calls);
    forall i | 0 <= i < |r| ensures !IsControl(r[i].rec) && CleanTexts(ItemsOfAll(r[i].fields)) {
      assert r[i] in r;
    }
  }

  /** With the records 0x7D to 0x7F switched off and no control byte in any string, the host
      reads exactly the records that pass the global and the local filter, in order, numbered
      consecutively, each with a good checksum. */
  lemma TraceDecodes(seqNo: byte, filter: seq<bv8>, calls: seq<Call>) returns (at: seq<nat>)
    requires |filter| == QsFilter.SIZE && QsFilter.NoControlRecord(filter)
    requires forall c | c in calls :: CleanTexts(ItemsOfAll(c.fields))
    ensures QsSelection.IsChoice(filter, calls, at) && Admitted(filter, calls) == QsSelection.Pick(calls, at)
    ensures Feed(START, Produced(seqNo, Admitted(filter, calls)))
            == START.(frames := GoodFrames(Bodies(seqNo, QsSelection.Pick(calls, at))))
  {
    at := QsSelection.AdmittedAreChosen(filter, calls);
    SafeFilterAdmitsCleanCalls(filter, calls);
    CleanCallsAreEncoded(seqNo, Admitted(filter, calls));
    DecodeStream(START, Bodies(seqNo, Admitted(filter, calls)));
  }

  /** If all macros name the object `o` in their local filter, the host reads, of the records that it
      would read without local filters, those about this object, in order. */
  lemma LocalFilterDecodes(seqNo: byte, filter: seq<bv8>, calls: seq<Call>, o: nat)
    requires |filter| == QsFilter.SIZE && QsFilter.NoControlRecord(filter) && o != 0
    requires forall c | c in calls :: CleanTexts(ItemsOfAll(c.fields))
    ensures var all := Admitted(filter, QsSelection.WithFilter(calls, 0));
      Feed(START, Produced(seqNo, Admitted(filter, QsSelection.WithFilter(calls, o))))
      == START.(frames := GoodFrames(Bodies(seqNo, QsSelection.About(all, o))))
  {
    var all := Admitted(filter, QsSelection.WithFilter(calls, 0));
    SameFields(calls, o);
    var at := TraceDecodes(seqNo, filter, QsSelection.WithFilter(calls, o));
    QsSelection.LocalFilterSelects(filter, calls, o);
    QsSelection.BodiesWithFilter(seqNo, QsSelection.About(all, o), o);
  }

  lemma {:induction false} SameFields(calls: seq<Call>, o: nat)
    requires forall c | c in calls :: CleanTexts(ItemsOfAll(c.fields))
    ensures forall c | c in QsSelection.WithFilter(calls, o) :: CleanTexts(ItemsOfAll(c.fields))
  {
    if calls != [] {
      assert calls[0] in calls;
      SameFields(calls[1..], o);
    }
  }

  /** The last `n` bytes of `w`, or all of them if there are fewer. */
  function Newest(w: seq<byte>, n: nat): seq<byte> {
    if |w| <= n then w else w[|w| - n..]
  }

  /** What the host is promised of a buffer of `size` bytes: it decodes to the records from `k` on,
      after a frame `lead` for the rest of the record before, if some of it is left; these records fit
      into the buffer as a whole, and with the one before them they would not. The lead frame is good
      only if what is missing of its record does not show in the checksum. */
  ghost predicate DecodesFrom(bytes: seq<byte>, bodies: seq<seq<byte>>, size: nat, k: nat, lead: seq<Frame>) {
    && k <= |bodies| && |Stream(bodies[k..])| <= |bytes|
    && Feed(START, bytes) == START.(frames := lead + GoodFrames(bodies[k..]))
    && |Stream(bodies[k..])| <= size && (k > 0 ==> |Stream(bodies[k - 1..])| > size)
    && QsResync.IsLead(START, lead, bodies, k, |bytes| - |Stream(bodies[k..])|)
  }

  /** The last-is-best policy: when a trace has overrun a buffer of `end` bytes, the host still
      recovers exactly the newest records that fit into the buffer as a whole, after at most one
      frame for the record that was cut. */
  lemma {:induction false} OverrunKeepsTheNewest(end: nat, bodies: seq<seq<byte>>, unread: seq<byte>)
    returns (k: nat, lead: seq<Frame>)
    requires unread == Newest(Stream(bodies), end)
    ensures DecodesFrom(unread, bodies, end, k, lead)
  {
    var c := if |Stream(bodies)| <= end then 0 else |Stream(bodies)| - end;
    assert Stream(bodies)[0..] == Stream(bodies);
    k, lead := QsResync.ResyncFromStart(bodies, c);
    FitsBehind(end, bodies, c, k);
    assert unread == Stream(bodies)[c..];
    assert |unread| - |Stream(bodies[k..])| == |Stream(bodies[..k])| - c;
  }

  /** An overrun that takes just the sequence number zero of a record makes the host see a good frame
      that was never sent, in front of the later records. */
  lemma OverrunMayForge(earlier: seq<seq<byte>>, rest: seq<byte>, later: seq<seq<byte>>, end: nat)
    requires rest != [] && !IsControl(rest[0]) && end + 1 == |Stream([[0] + rest] + later)|
    ensures Feed(START, Newest(Stream(earlier + ([[0] + rest] + later)), end))
            == START.(frames := GoodFrames([rest] + later))
  {
    var cut := [[0] + rest] + later;
    StreamConcat(earlier, cut);
    QsResync.CutBehindZero(rest);
    StreamCons([0] + rest, later);
    StreamCons(rest, later);
    LastBytes(Stream(earlier), Encode([0] + rest), Stream(later), end);
    DecodeStream(START, [rest] + later);
    assert [] + GoodFrames([rest] + later) == GoodFrames([rest] + later);
  }

  lemma StreamCons(body: seq<byte>, bodies: seq<seq<byte>>)
    ensures Stream([body] + bodies) == Encode(body) + Stream(bodies)
  {
    assert ([body] + bodies)[1..] == bodies;
  }

  lemma LastBytes(a: seq<byte>, b: seq<byte>, c: seq<byte>, n: nat)
    requires b != [] && n + 1 == |b + c|
    ensures Newest(a + (b + c), n) == b[1..] + c
  {}

  lemma FitsBehind(end: nat, bodies: seq<seq<byte>>, c: nat, k: nat)
    requires k <= |bodies| && c == (if |Stream(bodies)| <= end then 0 else |Stream(bodies)| - end)
    requires c <= |Stream(bodies[..k])| && (k > 0 ==> |Stream(bodies[..k - 1])| < c)
    ensures |Stream(bodies[k..])| <= end && (k > 0 ==> |Stream(bodies[k - 1..])| > end)
    ensures |Stream(bodies)| - c - |Stream(bodies[k..])| == |Stream(bodies[..k])| - c
  {
    SplitLengths(bodies, k);
    if k > 0 {
      SplitLengths(bodies, k - 1);
    }
  }

  lemma SplitLengths(bodies: seq<seq<byte>>, k: nat)
    requires k <= |bodies|
    ensures |Stream(bodies)| == |Stream(bodies[..k])| + |Stream(bodies[k..])|
  {
    assert bodies == bodies[..k] + bodies[k..];
    StreamConcat(bodies[..k], bodies[k..]);
  }

  /** Reading out byte by byte until the end-of-data value appears. */
  method Drain(qs: QsTrace) returns (bytes: seq<byte>)
    requires qs.Settled()
    modifies qs`tail, qs`used
    ensures qs.Settled() && bytes == old(qs.Unread()) && qs.Unread() == []
  {
    bytes := [];
    var b := qs.GetByte();
    ghost var rest := if old(qs.Unread()) == [] then [] else old(qs.Unread())[1..];
    while b != QS_EOD
      invariant qs.Settled() && qs.Unread() == rest
      invariant if b == QS_EOD then rest == [] && bytes == old(qs.Unread())
                else 0 <= b < 256 && bytes + [b] + rest == old(qs.Unread())
      decreases |rest|, b != QS_EOD
    {
      bytes := bytes + [b];
      b := qs.GetByte();
      rest := if rest == [] then [] else rest[1..];
    }
  }

  ghost predicate DecodesToNewest(bytes: seq<byte>, bodies: seq<seq<byte>>, size: nat) {
    exists k: nat, lead: seq<Frame> :: DecodesFrom(bytes, bodies, size, k, lead)
  }

  /** A whole session: a trace buffer is set up, a run of macros writes to it, and the host reads
      it out. What the host decodes are the newest records that fit into the buffer. */
  method Session(size: nat, filter: seq<bv8>, calls: seq<Call>) returns (bytes: seq<byte>)
    requires size > 8
    requires |filter| == QsFilter.SIZE && QsFilter.NoControlRecord(filter)
    requires forall c | c in calls :: Legal(c) && CleanTexts(ItemsOfAll(c.fields))
    ensures DecodesToNewest(bytes, Bodies(0, Admitted(filter, calls)), size)
  {
    bytes := TraceAndRead(size, filter, calls);
    SessionDecodes(size, filter, calls, bytes);
  }

  lemma SessionDecodes(size: nat, filter: seq<bv8>, calls: seq<Call>, bytes: seq<byte>)
    requires |filter| == QsFilter.SIZE && QsFilter.NoControlRecord(filter)
    requires forall c | c in calls :: CleanTexts(ItemsOfAll(c.fields))
    requires bytes == Newest(Produced(0, Admitted(filter, calls)), size)
    ensures DecodesToNewest(bytes, Bodies(0, Admitted(filter, calls)), size)
  {
    SafeFilterAdmitsCleanCalls(filter, calls);
    CleanCallsAreEncoded(0, Admitted(filter, calls));
    var bodies := Bodies(0, Admitted(filter, calls));
    var k, lead := OverrunKeepsTheNewest(size, bodies, bytes);
    assert DecodesFrom(bytes, bodies, size, k, lead);
  }

  lemma FromEmpty(wire: seq<byte>, w: seq<byte>, gone: int, size: nat)
    requires wire == [] + w && gone == Max(0, |wire| - size)
    ensures wire[gone..] == Newest(w, size)
  {}

  method TraceAndRead(size: nat, filter: seq<bv8>, calls: seq<Call>) returns (bytes: seq<byte>)
    requires size > 8 && |filter| == QsFilter.SIZE && forall c | c in calls :: Legal(c)
    ensures bytes == Newest(Produced(0, Admitted(filter, calls)), size)
  {
    var qs := new QsTrace(size);
    Trace(qs, filter, calls);
    FromEmpty(qs.wire, Produced(0, Admitted(filter, calls)), qs.Gone(), size);
    bytes := Drain(qs);
  }

  // -------------------------------------------------------- lost records show

  /** The sequence number `n` records after `s`. */
  function Later(s: byte, n: nat): byte {
    (s + n) % 256
  }

  /** The bodies of a trace carry the sequence numbers that follow the starting one. */
  lemma {:induction false} BodiesAreNumbered(seqNo: byte, calls: seq<Call>, i: nat)
    requires i < |calls|
    ensures |Bodies(seqNo, calls)| == |calls|
    ensures |Bodies(seqNo, calls)[i]| >= 2 && Bodies(seqNo, calls)[i][0] == Later(seqNo, i + 1)
    ensures Bodies(seqNo, calls)[i][1] == calls[i].rec
    decreases |calls|
  {
    var s: byte := (seqNo + 1) % 256;
    BodiesLength(seqNo, calls);
    if i > 0 {
      BodiesAreNumbered(s, calls[1..], i - 1);
      BodiesTail(seqNo, calls, i);
      LaterOnce(seqNo, i);
    }
  }

  lemma BodiesTail(seqNo: byte, calls: seq<Call>, i: nat)
    requires 0 < i < |calls| == |Bodies(seqNo, calls)|
    ensures |Bodies((seqNo + 1) % 256, calls[1..])| == |calls| - 1
    ensures Bodies(seqNo, calls)[i] == Bodies((seqNo + 1) % 256, calls[1..])[i - 1]
  {}

  lemma LaterOnce(s: byte, n: nat)
    ensures Later((s + 1) % 256, n) == Later(s, n + 1)
  {}

  lemma {:induction false} BodiesLength(seqNo: byte, calls: seq<Call>)
    ensures |Bodies(seqNo, calls)| == |calls|
    decreases |calls|
  {
    if calls != [] {
      BodiesLength((seqNo + 1) % 256, calls[1..]);
    }
  }

  /** If some records between two received ones, i < j, were lost, the second one does not carry
      the number the receiver expects - unless a multiple of 256 records is missing. */
  lemma {:induction false} GapShowsInSequenceNumber(seqNo: byte, calls: seq<Call>, i: nat, j: nat)
    requires i < j < |calls|
    ensures |Bodies(seqNo, calls)| == |calls|
    ensures |Bodies(seqNo, calls)[i]| > 0 && |Bodies(seqNo, calls)[j]| > 0
    ensures Bodies(seqNo, calls)[j][0] == Later(Bodies(seqNo, calls)[i][0], 1)
            <==> (j - i - 1) % 256 == 0
  {
    BodiesAreNumbered(seqNo, calls, i);
    BodiesAreNumbered(seqNo, calls, j);
    GapModulo(seqNo + i + 1, j - i - 1);
  }

  lemma GapModulo(a: nat, d: nat)
    ensures (a + 1 + d) % 256 == (a % 256 + 1) % 256 <==> d % 256 == 0
  {}
}
