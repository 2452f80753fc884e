/** Sessions in which the tracing macros and the read-out of the buffer alternate in any way, with
    overruns in between: what the host reads, and what it decodes from it. */
module QsSession {
  import opened Arithmetic
  import opened Collections
  import opened QsFraming
  import opened QsRecord
  import opened QsTrace
  import QsFilter
  import QsHost
  import QsResync
  import QsSelection
  import RingIndex

  /** One step of a session. */
  datatype Op = Macro(c: Call) | ReadByte | ReadBlock(limit: nat)

  ghost predicate Permitted(op: Op) {
    match op
    case Macro(c) => Legal(c) && CleanTexts(ItemsOfAll(c.fields))
    case ReadByte => true
    case ReadBlock(limit) => limit < 0x1_0000
  }

  /** The sequence number after the first `n` steps. */
  ghost function SeqAfter(filter: seq<bv8>, ops: seq<Op>, n: nat): byte
    requires |filter| == QsFilter.SIZE && n <= |ops|
  {
    if n == 0 then 0
    else if ops[n - 1].Macro? then NextSeq(filter, ops[n - 1].c, SeqAfter(filter, ops, n - 1))
    else SeqAfter(filter, ops, n - 1)
  }

  /** The bodies of the records that the first `n` steps produce. */
  ghost function SentAfter(filter: seq<bv8>, ops: seq<Op>, n: nat): seq<seq<byte>>
    requires |filter| == QsFilter.SIZE && n <= |ops|
  {
    if n == 0 then []
    else SentAfter(filter, ops, n - 1) + Sent(filter, ops[n - 1], SeqAfter(filter, ops, n - 1))
  }

  /** The share of a single step. */
  ghost function Sent(filter: seq<bv8>, op: Op, seqNo: byte): seq<seq<byte>>
    requires |filter| == QsFilter.SIZE
  {
    if op.Macro? && Admits(filter, op.c) then [Body((seqNo + 1) % 256, op.c.rec, ItemsOfAll(op.c.fields))] else []
  }

  lemma SentIsEmitted(filter: seq<bv8>, op: Op, seqNo: byte)
    requires |filter| == QsFilter.SIZE && QsFilter.NoControlRecord(filter) && op.Macro? && Permitted(op)
    ensures Stream(Sent(filter, op, seqNo)) == Emitted(filter, op.c, seqNo)
  {
    if Admits(filter, op.c) {
      CleanRecordIsEncoded((seqNo + 1) % 256, op.c.rec, ItemsOfAll(op.c.fields));
      QsResync.StreamOne(Body((seqNo + 1) % 256, op.c.rec, ItemsOfAll(op.c.fields)));
    }
  }

  /** A clean macro puts the encoded body of its record on the wire. */
  lemma {:induction false} SentOneMore(filter: seq<bv8>, ops: seq<Op>, n: nat)
    requires |filter| == QsFilter.SIZE && QsFilter.NoControlRecord(filter)
    requires n < |ops| && ops[n].Macro? && Permitted(ops[n])
    ensures Stream(SentAfter(filter, ops, n + 1))
            == Stream(SentAfter(filter, ops, n)) + Emitted(filter, ops[n].c, SeqAfter(filter, ops, n))
  {
    SentIsEmitted(filter, ops[n], SeqAfter(filter, ops, n));
    StreamConcat(SentAfter(filter, ops, n), Sent(filter, ops[n], SeqAfter(filter, ops, n)));
  }

  /** Reading sends nothing. */
  lemma SentNoMore(filter: seq<bv8>, ops: seq<Op>, n: nat)
    requires |filter| == QsFilter.SIZE && n < |ops| && !ops[n].Macro?
    ensures SentAfter(filter, ops, n + 1) == SentAfter(filter, ops, n)
    ensures SeqAfter(filter, ops, n + 1) == SeqAfter(filter, ops, n)
  {
    assert SentAfter(filter, ops, n) + [] == SentAfter(filter, ops, n);
  }

  /** The macros among the first `n` steps. */
  function Calls(ops: seq<Op>, n: nat): seq<Call>
    requires n <= |ops|
  {
    if n == 0 then [] else Calls(ops, n - 1) + (if ops[n - 1].Macro? then [ops[n - 1].c] else [])
  }

  /** What is sent are the numbered bodies of the admitted macros, as without reads in between. */
  lemma {:induction false} SentAreBodies(filter: seq<bv8>, ops: seq<Op>, n: nat)
    requires |filter| == QsFilter.SIZE && n <= |ops|
    ensures AreBodies(filter, Calls(ops, n), SentAfter(filter, ops, n), SeqAfter(filter, ops, n))
  {
    if n > 0 {
      SentAreBodies(filter, ops, n - 1);
      if ops[n - 1].Macro? {
        var s := SeqAfter(filter, ops, n - 1);
        assert ops[n - 1] == Macro(ops[n - 1].c);
        OneCallMore(filter, Calls(ops, n - 1), ops[n - 1].c, SentAfter(filter, ops, n - 1), s);
      } else {
        SentNoMore(filter, ops, n - 1);
        assert Calls(ops, n - 1) + [] == Calls(ops, n - 1);
      }
    }
  }

  /** These are the macros whose bit is set and that name no local filter or their own object. */
  lemma SentAreChosen(filter: seq<bv8>, ops: seq<Op>, n: nat) returns (at: seq<nat>)
    requires |filter| == QsFilter.SIZE && n <= |ops|
    ensures QsSelection.IsChoice(filter, Calls(ops, n), at)
    ensures SentAfter(filter, ops, n) == Bodies(0, QsSelection.Pick(Calls(ops, n), at))
  {
    SentAreBodies(filter, ops, n);
    at := QsSelection.AdmittedAreChosen(filter, Calls(ops, n));
  }

  /** `sent` are the numbered bodies of those of the calls that pass both filters, and `seqNo` is the
      last number. */
  ghost predicate AreBodies(filter: seq<bv8>, calls: seq<Call>, sent: seq<seq<byte>>, seqNo: byte)
    requires |filter| == QsFilter.SIZE
  {
    && sent == Bodies(0, Admitted(filter, calls))
    && seqNo == QsHost.Later(0, |Admitted(filter, calls)|)
  }

  lemma {:induction false} OneCallMore(filter: seq<bv8>, before: seq<Call>, c: Call, sent: seq<seq<byte>>, seqNo: byte)
    requires |filter| == QsFilter.SIZE && AreBodies(filter, before, sent, seqNo)
    ensures AreBodies(filter, before + [c], sent + Sent(filter, Macro(c), seqNo), NextSeq(filter, c, seqNo))
  {
    QsSelection.AdmittedSnoc(filter, before, c);
    if Admits(filter, c) {
      AdmittedOnTop(filter, Admitted(filter, before), c, seqNo);
    } else {
      var admitted := Admitted(filter, before);
      assert admitted + [] == admitted;
      Unchanged(sent);
    }
  }

  lemma Unchanged(s: seq<seq<byte>>)
    ensures s + [] == s
  {}

  lemma {:induction false} AdmittedOnTop(filter: seq<bv8>, admitted: seq<Call>, c: Call, seqNo: byte)
    requires |filter| == QsFilter.SIZE && Admits(filter, c) && seqNo == QsHost.Later(0, |admitted|)
    ensures Bodies(0, admitted + [c]) == Bodies(0, admitted) + Sent(filter, Macro(c), seqNo)
    ensures QsHost.Later(0, |admitted + [c]|) == NextSeq(filter, c, seqNo)
  {
    NextLater(|admitted|);
    BodiesSnoc(0, admitted, c);
  }

  lemma NextLater(n: nat)
    ensures (QsHost.Later(0, n) + 1) % 256 == QsHost.Later(0, n + 1)
  {}

  lemma {:induction false} BodiesSnoc(seqNo: byte, calls: seq<Call>, c: Call)
    ensures Bodies(seqNo, calls + [c])
            == Bodies(seqNo, calls) + [Body(QsHost.Later(seqNo, |calls| + 1), c.rec, ItemsOfAll(c.fields))]
    decreases |calls|
  {
    if calls == [] {
      assert calls + [c] == [c] && [c][1..] == [];
    } else {
      assert (calls + [c])[1..] == calls[1..] + [c];
      BodiesSnoc((seqNo + 1) % 256, calls[1..], c);
      QsHost.LaterOnce(seqNo, |calls|);
    }
  }

  /** The number of bytes sent by then. */
  ghost function LengthAfter(filter: seq<bv8>, ops: seq<Op>, n: nat): nat
    requires |filter| == QsFilter.SIZE && n <= |ops|
  {
    |Stream(SentAfter(filter, ops, n))|
  }

  /** The numbers of bytes sent before the first step and after each. */
  ghost function Lengths(filter: seq<bv8>, ops: seq<Op>): (r: seq<nat>)
    requires |filter| == QsFilter.SIZE
    ensures |r| == |ops| + 1
  {
    seq(|ops| + 1, n requires 0 <= n <= |ops| => LengthAfter(filter, ops, n))
  }

  // ------------------------------------------------------------- how much is read

  /** How many bytes there are from the cell of the next unread byte to the end of the buffer. */
  function ToEnd(size: nat, gone: nat): (r: nat)
    requires size > 0
    ensures 0 < r <= size
  {
    size - gone % size
  }

  /** How much a read takes of what is unread between `gone` and `sent`: one byte, or a block that ends
      at the latest at the end of the buffer. */
  function Taken(size: nat, op: Op, gone: nat, sent: nat): nat
    requires size > 0
  {
    if op.Macro? || gone >= sent then 0
    else match op
      case ReadByte => 1
      case ReadBlock(limit) => Min(sent - gone, Min(limit, ToEnd(size, gone)))
  }

  /** How many bytes have left the buffer after the first `n` steps, if `sent` are the numbers of bytes
      sent before the first step and after each: read, or lost by a macro that leaves more unread than
      fits. */
  function GoneAfter(size: nat, ops: seq<Op>, sent: seq<nat>, n: nat): nat
    requires size > 0 && n <= |ops| && |sent| == |ops| + 1
  {
    if n == 0 then 0
    else
      var gone := GoneAfter(size, ops, sent, n - 1);
      if ops[n - 1].Macro? then Max(gone, sent[n] - size) else gone + Taken(size, ops[n - 1], gone, sent[n - 1])
  }

  /** The step is a macro that leaves more unread than the buffer holds. */
  predicate Loses(size: nat, ops: seq<Op>, sent: seq<nat>, n: nat)
    requires size > 0 && n < |ops| && |sent| == |ops| + 1
  {
    ops[n].Macro? && sent[n + 1] - GoneAfter(size, ops, sent, n) > size
  }

  function Losses(size: nat, ops: seq<Op>, sent: seq<nat>, n: nat): nat
    requires size > 0 && n <= |ops| && |sent| == |ops| + 1
  {
    if n == 0 then 0
    else Losses(size, ops, sent, n - 1) + (if Loses(size, ops, sent, n - 1) then 1 else 0)
  }

  lemma {:induction false} NoLosses(size: nat, ops: seq<Op>, sent: seq<nat>, n: nat)
    requires size > 0 && n <= |ops| && |sent| == |ops| + 1
    ensures Losses(size, ops, sent, n) == 0 <==> forall i: nat | i < n :: !Loses(size, ops, sent, i)
  {
    if n > 0 {
      NoLosses(size, ops, sent, n - 1);
    }
  }

  /** What a read takes: a single byte if there is one; of a block, at least one byte if there is one and
      the limit allows it, never more than the limit, and all bytes if they are within the limit and do
      not go round the end of the buffer; if it takes less, it stops at the limit or at that end. */
  lemma ReadsTake(size: nat, op: Op, gone: nat, sent: nat)
    requires size > 0 && gone <= sent && !op.Macro?
    ensures var n := Taken(size, op, gone, sent);
      && n <= sent - gone && (op.ReadByte? && gone < sent ==> n == 1)
      && (op.ReadBlock? ==> n <= op.limit) && (op.ReadBlock? && gone < sent && op.limit > 0 ==> n > 0)
      && (op.ReadBlock? && sent - gone <= op.limit && gone % size + (sent - gone) <= size ==> n == sent - gone)
      && (op.ReadBlock? && n < sent - gone ==> n == op.limit || gone % size + n == size)
  {}

  /** Two blocks of the size of the buffer empty it, wherever they begin. */
  lemma TwoBlocksEmpty(size: nat, a: Op, b: Op, gone: nat, sent: nat)
    requires size > 0 && gone <= sent <= gone + size
    requires a.ReadBlock? && b.ReadBlock? && a.limit >= size && b.limit >= size
    ensures var first := Taken(size, a, gone, sent);
      first + Taken(size, b, gone + first, sent) == sent - gone
  {
    var first := Taken(size, a, gone, sent);
    if first == ToEnd(size, gone) {
      RingIndex.Advance(gone, first, size);
    }
  }

  /** The numbers of bytes sent: reads send nothing, and no record is longer than the buffer. */
  ghost predicate IsGrowing(size: nat, ops: seq<Op>, sent: seq<nat>) {
    && |sent| == |ops| + 1 && sent[0] == 0
    && forall i: nat | i < |ops| :: GrowsAt(size, ops, sent, i)
  }

  ghost predicate GrowsAt(size: nat, ops: seq<Op>, sent: seq<nat>, i: nat)
    requires i < |ops| && |sent| == |ops| + 1
  {
    sent[i] <= sent[i + 1] <= sent[i] + if ops[i].Macro? then size else 0
  }

  /** Behind every macro two blocks are asked for, each with room for the whole buffer. */
  ghost predicate IsPrompt(size: nat, ops: seq<Op>) {
    forall i: nat | i < |ops| && ops[i].Macro? :: PromptAt(size, ops, i)
  }

  ghost predicate PromptAt(size: nat, ops: seq<Op>, i: nat) {
    && i + 2 < |ops| && ops[i + 1].ReadBlock? && ops[i + 1].limit >= size
    && ops[i + 2].ReadBlock? && ops[i + 2].limit >= size
  }

  lemma NoMacroBefore(size: nat, ops: seq<Op>, i: nat)
    requires IsPrompt(size, ops) && i < |ops| && ops[i].Macro?
    ensures (i > 0 ==> !ops[i - 1].Macro?) && (i > 1 ==> !ops[i - 2].Macro?)
  {
    forall j: nat | j < i <= j + 2 ensures !ops[j].Macro? {
      assert ops[j].Macro? ==> PromptAt(size, ops, j);
    }
  }

  lemma {:induction false} EmptiedInTime(size: nat, ops: seq<Op>, sent: seq<nat>, n: nat)
    requires size > 0 && IsGrowing(size, ops, sent) && IsPrompt(size, ops) && n <= |ops|
    requires (n > 0 ==> !ops[n - 1].Macro?) && (n > 1 ==> !ops[n - 2].Macro?)
    ensures GoneAfter(size, ops, sent, n) == sent[n]
  {
    if n > 2 && ops[n - 3].Macro? {
      NoMacroBefore(size, ops, n - 3);
      EmptiedInTime(size, ops, sent, n - 3);
      assert PromptAt(size, ops, n - 3);
      EmptiedByTwo(size, ops, sent, n - 3);
    } else if n > 0 {
      EmptiedInTime(size, ops, sent, n - 1);
      assert GrowsAt(size, ops, sent, n - 1);
    }
  }

  lemma {:induction false} EmptiedByTwo(size: nat, ops: seq<Op>, sent: seq<nat>, i: nat)
    requires size > 0 && IsGrowing(size, ops, sent) && i < |ops| && ops[i].Macro? && PromptAt(size, ops, i)
    requires GoneAfter(size, ops, sent, i) == sent[i]
    ensures GoneAfter(size, ops, sent, i + 3) == sent[i + 3]
  {
    assert GrowsAt(size, ops, sent, i) && GrowsAt(size, ops, sent, i + 1) && GrowsAt(size, ops, sent, i + 2);
    assert GoneAfter(size, ops, sent, i + 1) == sent[i];
    TwoBlocksEmpty(size, ops[i + 1], ops[i + 2], sent[i], sent[i + 1]);
    assert GoneAfter(size, ops, sent, i + 2) == sent[i] + Taken(size, ops[i + 1], sent[i], sent[i + 1]);
  }

  /** If the blocks are read in this way, no record that fits into the buffer is ever overwritten. */
  lemma PromptReadsLoseNothing(size: nat, ops: seq<Op>, sent: seq<nat>, i: nat)
    requires size > 0 && IsGrowing(size, ops, sent) && IsPrompt(size, ops) && i < |ops|
    ensures !Loses(size, ops, sent, i)
  {
    if ops[i].Macro? {
      NoMacroBefore(size, ops, i);
      EmptiedInTime(size, ops, sent, i);
      assert GrowsAt(size, ops, sent, i);
    }
  }

  // ------------------------------------------------------------- what is read

  /** A stretch of the wire that was read without loss. It begins where an overrun left off that
      happened in the step before `after`. */
  datatype Stretch = Stretch(from: nat, to: nat, after: nat)

  ghost function Read(wire: seq<byte>, x: Stretch): seq<byte> {
    if x.from <= x.to <= |wire| then wire[x.from..x.to] else []
  }

  ghost function ReadAll(wire: seq<byte>, xs: seq<Stretch>): seq<byte> {
    if xs == [] then [] else ReadAll(wire, xs[..|xs| - 1]) + Read(wire, xs[|xs| - 1])
  }

  /** The stretches lie in order within the first `n` bytes of the wire, with a loss between any two.
      What was lost are bytes that did not fit into the buffer any more: a stretch begins `size` bytes
      before the end of what was `sent` at that time. */
  ghost predicate InOrder(xs: seq<Stretch>, n: nat, size: nat, sent: seq<nat>)
  {
    forall i: nat | i < |xs| :: InPlace(xs, i, n, size, sent)
  }

  ghost predicate InPlace(xs: seq<Stretch>, i: nat, n: nat, size: nat, sent: seq<nat>)
    requires i < |xs|
  {
    && xs[i].from <= xs[i].to <= n && xs[i].after < |sent|
    && if i == 0 then xs[i].from == 0
       else xs[i - 1].to < xs[i].from && xs[i].from + size == sent[xs[i].after]
  }

  lemma {:induction false} ReadAllLonger(wire: seq<byte>, more: seq<byte>, xs: seq<Stretch>,
                                         size: nat, sent: seq<nat>)
    requires InOrder(xs, |wire|, size, sent)
    ensures ReadAll(wire + more, xs) == ReadAll(wire, xs)
    ensures InOrder(xs, |wire + more|, size, sent)
  {
    forall i: nat | i < |xs| ensures InPlace(xs, i, |wire + more|, size, sent) {
      assert InPlace(xs, i, |wire|, size, sent);
    }
    if xs != [] {
      var n := |xs| - 1;
      var ys := xs[..n];
      forall i: nat | i < |ys| ensures InPlace(ys, i, |wire|, size, sent) {
        assert InPlace(xs, i, |wire|, size, sent);
      }
      ReadAllLonger(wire, more, ys, size, sent);
      assert InPlace(xs, n, |wire|, size, sent);
      assert Read(wire + more, xs[n]) == Read(wire, xs[n]);
    }
  }

  /** After `n` steps, `gone` bytes have left the buffer, and there was a loss between any two of `k`
      stretches. */
  ghost predicate IsCounted(size: nat, ops: seq<Op>, sent: seq<nat>, n: nat, gone: int, k: nat) {
    && size > 0 && n <= |ops| && |sent| == |ops| + 1
    && gone == GoneAfter(size, ops, sent, n) && k == 1 + Losses(size, ops, sent, n)
  }

  lemma MacroCounts(size: nat, ops: seq<Op>, sent: seq<nat>, n: nat, gone: int, now: int, k: nat)
    requires IsCounted(size, ops, sent, n, gone, k) && n < |ops| && ops[n].Macro?
    requires now == Max(gone, sent[n + 1] - size)
    ensures IsCounted(size, ops, sent, n + 1, now, if now == gone then k else k + 1)
  {}

  lemma ReadCounts(size: nat, ops: seq<Op>, sent: seq<nat>, n: nat, gone: nat, now: int, k: nat)
    requires IsCounted(size, ops, sent, n, gone, k) && n < |ops| && !ops[n].Macro?
    requires now == gone + Taken(size, ops[n], gone, sent[n])
    ensures IsCounted(size, ops, sent, n + 1, now, k)
  {}

  /** The state of a session after `n` steps: the last of the stretches is still going on. */
  ghost predicate Underway(qs: QsTrace, size: nat, filter: seq<bv8>, ops: seq<Op>, n: nat,
                           bytes: seq<byte>, xs: seq<Stretch>)
    reads qs, qs.buf
    requires |filter| == QsFilter.SIZE && n <= |ops|
  {
    && qs.Settled() && qs.end == size && qs.seqNo == SeqAfter(filter, ops, n)
    && qs.wire == Stream(SentAfter(filter, ops, n)) && IsCounted(size, ops, Lengths(filter, ops), n, qs.Gone(), |xs|)
    && IsReadUpTo(bytes, qs.Gone(), qs.wire, size, Lengths(filter, ops), xs)
  }

  /** `bytes` is what is on the wire in the stretches `xs`, the last of which ends at `to`. */
  ghost predicate IsReadUpTo(bytes: seq<byte>, to: int, wire: seq<byte>, size: nat, sent: seq<nat>, xs: seq<Stretch>)
  {
    && xs != [] && xs[|xs| - 1].to == to && InOrder(xs, |wire|, size, sent)
    && bytes == ReadAll(wire, xs)
  }

  /** Reading on without a loss. */
  lemma {:induction false} ReadOn(bytes: seq<byte>, more: seq<byte>, to: nat, wire: seq<byte>, size: nat,
                                  sent: seq<nat>, xs: seq<Stretch>)
    returns (ys: seq<Stretch>)
    requires IsReadUpTo(bytes, to, wire, size, sent, xs)
    requires to + |more| <= |wire| && wire[to..to + |more|] == more
    ensures IsReadUpTo(bytes + more, to + |more|, wire, size, sent, ys) && |ys| == |xs|
  {
    ys := Longer(xs, to + |more|);
    assert InOrder(ys, |wire|, size, sent) by {
      StretchTo(to + |more|, |wire|, size, sent, xs);
    }
    assert ReadAll(wire, ys) == bytes + more by {
      assert InPlace(xs, |xs| - 1, |wire|, size, sent);
      LongerReadAll(wire, xs, more);
    }
  }

  /** The last stretch reaches up to `to`. */
  ghost function Longer(xs: seq<Stretch>, to: nat): seq<Stretch>
    requires xs != []
  {
    xs[..|xs| - 1] + [xs[|xs| - 1].(to := to)]
  }

  lemma {:induction false} LongerReadAll(wire: seq<byte>, xs: seq<Stretch>, more: seq<byte>)
    requires xs != []
    requires var x := xs[|xs| - 1];
      x.from <= x.to && x.to + |more| <= |wire| && wire[x.to..x.to + |more|] == more
    ensures ReadAll(wire, Longer(xs, xs[|xs| - 1].to + |more|)) == ReadAll(wire, xs) + more
  {
    var n := |xs| - 1;
    LongerRead(wire, xs[n], more);
    ReadSnoc(wire, xs[..n], xs[n].(to := xs[n].to + |more|));
    Assoc(ReadAll(wire, xs[..n]), Read(wire, xs[n]), more);
  }

  lemma ReadSnoc(wire: seq<byte>, xs: seq<Stretch>, x: Stretch)
    ensures ReadAll(wire, xs + [x]) == ReadAll(wire, xs) + Read(wire, x)
  {
    assert (xs + [x])[..|xs|] == xs;
  }

  lemma LongerRead(wire: seq<byte>, x: Stretch, more: seq<byte>)
    requires x.from <= x.to && x.to + |more| <= |wire| && wire[x.to..x.to + |more|] == more
    ensures Read(wire, x.(to := x.to + |more|)) == Read(wire, x) + more
  {}

  lemma StretchTo(to: nat, n: nat, size: nat, sent: seq<nat>, xs: seq<Stretch>)
    requires xs != [] && InOrder(xs, n, size, sent)
    requires xs[|xs| - 1].to <= to <= n
    ensures InOrder(Longer(xs, to), n, size, sent)
  {
    var ys := Longer(xs, to);
    forall i: nat | i < |ys| ensures InPlace(ys, i, n, size, sent) {
      assert InPlace(xs, i, n, size, sent);
    }
  }

  /** A loss closes the current stretch and begins another. */
  lemma BeginStretch(bytes: seq<byte>, to: nat, wire: seq<byte>, size: nat, sent: seq<nat>,
                     xs: seq<Stretch>, x: Stretch)
    requires IsReadUpTo(bytes, to, wire, size, sent, xs)
    requires to < x.from == x.to <= |wire| && x.after < |sent|
    requires x.from + size == sent[x.after]
    ensures IsReadUpTo(bytes, x.to, wire, size, sent, xs + [x])
  {
    var ys := xs + [x];
    assert ys[..|xs|] == xs && Read(wire, x) == [];
    forall i: nat | i < |ys| ensures InPlace(ys, i, |wire|, size, sent) {
      assert i < |xs| ==> InPlace(xs, i, |wire|, size, sent);
    }
  }

  method PlayOne(qs: QsTrace, size: nat, filter: seq<bv8>, ops: seq<Op>, i: nat,
                 bytes: seq<byte>, ghost xs: seq<Stretch>)
    returns (now: seq<byte>, ghost ys: seq<Stretch>)
    requires |filter| == QsFilter.SIZE && QsFilter.NoControlRecord(filter)
    requires i < |ops| && Permitted(ops[i]) && Underway(qs, size, filter, ops, i, bytes, xs)
    modifies qs, qs.buf
    ensures qs.buf == old(qs.buf) && Underway(qs, size, filter, ops, i + 1, now, ys)
  {
    if ops[i].Macro? {
      now := bytes;
      ys := PlayMacro(qs, size, filter, ops, i, bytes, xs);
    } else {
      now, ys := ReadStep(qs, size, filter, ops, i, bytes, xs);
    }
  }

  method ReadStep(qs: QsTrace, size: nat, filter: seq<bv8>, ops: seq<Op>, i: nat,
                  bytes: seq<byte>, ghost xs: seq<Stretch>)
    returns (now: seq<byte>, ghost ys: seq<Stretch>)
    requires |filter| == QsFilter.SIZE && i < |ops| && !ops[i].Macro? && Permitted(ops[i])
    requires Underway(qs, size, filter, ops, i, bytes, xs)
    modifies qs`tail, qs`used
    ensures Underway(qs, size, filter, ops, i + 1, now, ys)
  {
    SentNoMore(filter, ops, i);
    ghost var gone := qs.Gone();
    var more := PlayRead(qs, ops[i]);
    ReadCounts(size, ops, Lengths(filter, ops), i, gone, qs.Gone(), |xs|);
    now := bytes + more;
    ys := ReadOn(bytes, more, old(qs.Gone()), qs.wire, size, Lengths(filter, ops), xs);
  }

  /** A read takes the next bytes, if there are any. */
  method PlayRead(qs: QsTrace, op: Op) returns (more: seq<byte>)
    requires qs.Settled() && Permitted(op) && !op.Macro?
    modifies qs`tail, qs`used
    ensures qs.Settled() && qs.Gone() == old(qs.Gone()) + |more| <= |qs.wire|
    ensures qs.wire[old(qs.Gone())..qs.Gone()] == more
    ensures |more| == Taken(qs.end, op, old(qs.Gone()), |qs.wire|)
  {
    ghost var unread := qs.Unread();
    if op.ReadByte? {
      var b := qs.GetByte();
      more := if b == QS_EOD then [] else [b];
    } else {
      more := PlayBlock(qs, op.limit);
    }
    assert unread == more + qs.Unread();
  }

  method PlayBlock(qs: QsTrace, limit: nat) returns (more: seq<byte>)
    requires qs.Settled() && limit < 0x1_0000
    modifies qs`tail, qs`used
    ensures qs.Settled() && old(qs.Unread()) == more + qs.Unread()
    ensures |more| == Taken(qs.end, ReadBlock(limit), old(qs.Gone()), |qs.wire|)
  {
    var p, n := qs.GetBlock(limit);
    more := qs.buf[p..p + n];
  }

  method PlayMacro(qs: QsTrace, size: nat, filter: seq<bv8>, ops: seq<Op>, i: nat,
                   ghost bytes: seq<byte>, ghost xs: seq<Stretch>)
    returns (ghost ys: seq<Stretch>)
    requires |filter| == QsFilter.SIZE && QsFilter.NoControlRecord(filter)
    requires i < |ops| && ops[i].Macro? && Permitted(ops[i])
    requires Underway(qs, size, filter, ops, i, bytes, xs)
    modifies qs, qs.buf
    ensures qs.buf == old(qs.buf) && Underway(qs, size, filter, ops, i + 1, bytes, ys)
  {
    SentOneMore(filter, ops, i);
    ghost var was, gone, more := qs.wire, qs.Gone(), Emitted(filter, ops[i].c, SeqAfter(filter, ops, i));
    TraceOne(qs, filter, ops[i].c);
    ys := GoOn(bytes, was, more, gone, qs.Gone(), size, ops, Lengths(filter, ops), i, xs);
  }

  /** The stretches after a macro that sends `more`: if it loses nothing, they stay; otherwise a new one
      begins. */
  lemma {:induction false} GoOn(bytes: seq<byte>, wire: seq<byte>, more: seq<byte>, gone: nat, now: nat, size: nat,
                                ops: seq<Op>, sent: seq<nat>, i: nat, xs: seq<Stretch>)
    returns (ys: seq<Stretch>)
    requires IsReadUpTo(bytes, gone, wire, size, sent, xs) && IsCounted(size, ops, sent, i, gone, |xs|)
    requires i < |ops| && ops[i].Macro? && sent[i + 1] == |wire + more| && now == Max(gone, |wire + more| - size)
    ensures IsReadUpTo(bytes, now, wire + more, size, sent, ys) && IsCounted(size, ops, sent, i + 1, now, |ys|)
  {
    ys := if now == gone then xs else xs + [Stretch(now, now, i + 1)];
    assert IsCounted(size, ops, sent, i + 1, now, |ys|) by {
      MacroCounts(size, ops, sent, i, gone, now, |xs|);
    }
    StretchOn(bytes, wire, more, gone, now, size, sent, i, xs);
  }

  lemma {:induction false} StretchOn(bytes: seq<byte>, wire: seq<byte>, more: seq<byte>, gone: nat, now: nat, size: nat,
                                     sent: seq<nat>, i: nat, xs: seq<Stretch>)
    requires IsReadUpTo(bytes, gone, wire, size, sent, xs) && i + 1 < |sent|
    requires sent[i + 1] == |wire + more| && now == Max(gone, |wire + more| - size)
    ensures IsReadUpTo(bytes, now, wire + more, size, sent, if now == gone then xs else xs + [Stretch(now, now, i + 1)])
  {
    ReadAllLonger(wire, more, xs, size, sent);
    if now != gone {
      BeginStretch(bytes, gone, wire + more, size, sent, xs, Stretch(now, now, i + 1));
    }
  }

  /** Plays a session and reads out what is left at the end. */
  method Play(size: nat, filter: seq<bv8>, ops: seq<Op>) returns (bytes: seq<byte>)
    requires size > 8 && |filter| == QsFilter.SIZE && QsFilter.NoControlRecord(filter)
    requires forall op | op in ops :: Permitted(op)
    ensures exists xs: seq<Stretch> :: IsReadOut(bytes, size, filter, ops, xs)
  {
    var qs;
    ghost var xs;
    qs, xs := Start(size, filter, ops);
    bytes := [];
    var i := 0;
    while i < |ops|
      invariant 0 <= i <= |ops| && fresh(qs) && fresh(qs.buf)
      invariant Underway(qs, size, filter, ops, i, bytes, xs)
    {
      assert ops[i] in ops;
      bytes, xs := PlayOne(qs, size, filter, ops, i, bytes, xs);
      i := i + 1;
    }
    bytes, xs := Finish(qs, size, filter, ops, bytes, xs);
  }

  method Start(size: nat, filter: seq<bv8>, ops: seq<Op>) returns (qs: QsTrace, ghost xs: seq<Stretch>)
    requires size > 8 && |filter| == QsFilter.SIZE
    ensures fresh(qs) && fresh(qs.buf) && Underway(qs, size, filter, ops, 0, [], xs)
  {
    qs := new QsTrace(size);
    xs := [Stretch(0, 0, 0)];
    NothingRead(size, Lengths(filter, ops));
  }

  lemma NothingRead(size: nat, sent: seq<nat>)
    requires sent != []
    ensures IsReadUpTo([], 0, [], size, sent, [Stretch(0, 0, 0)])
  {
    var xs := [Stretch(0, 0, 0)];
    assert xs[..0] == [] && Read([], xs[0]) == [];
  }

  /** Reads out the rest. */
  method Finish(qs: QsTrace, size: nat, filter: seq<bv8>, ops: seq<Op>, bytes: seq<byte>, ghost xs: seq<Stretch>)
    returns (all: seq<byte>, ghost ys: seq<Stretch>)
    requires |filter| == QsFilter.SIZE && Underway(qs, size, filter, ops, |ops|, bytes, xs)
    modifies qs
    ensures IsReadOut(all, size, filter, ops, ys)
  {
    ghost var wire, at := qs.wire, qs.Gone();
    var last := ReadRest(qs);
    ys := ReadOn(bytes, last, at, wire, size, Lengths(filter, ops), xs);
    all := bytes + last;
  }

  method ReadRest(qs: QsTrace) returns (last: seq<byte>)
    requires qs.Settled()
    modifies qs`tail, qs`used
    ensures old(qs.Gone()) + |last| == |old(qs.wire)|
    ensures old(qs.wire)[old(qs.Gone())..old(qs.Gone()) + |last|] == last
  {
    last := QsHost.Drain(qs);
  }

  /** What the host has read of a session that ended with an empty buffer. */
  ghost predicate IsReadOut(bytes: seq<byte>, size: nat, filter: seq<bv8>, ops: seq<Op>, xs: seq<Stretch>)
    requires |filter| == QsFilter.SIZE
  {
    var wire := Stream(SentAfter(filter, ops, |ops|));
    && IsReadUpTo(bytes, |wire|, wire, size, Lengths(filter, ops), xs)
    && size > 0 && |xs| == 1 + Losses(size, ops, Lengths(filter, ops), |ops|)
  }

  // ---------------------------------------------------------- what is decoded

  /** The last record boundary at or before offset `b`. */
  lemma {:induction false} LastBoundary(bodies: seq<seq<byte>>, b: nat) returns (m: nat)
    requires b <= |Stream(bodies)|
    ensures m <= |bodies| && |Stream(bodies[..m])| <= b
    ensures m < |bodies| ==> b < |Stream(bodies[..m + 1])|
    decreases |bodies|
  {
    if b == |Stream(bodies)| {
      m := |bodies|;
      assert bodies[..m] == bodies;
    } else {
      var n := |bodies| - 1;
      var shorter := bodies[..n];
      assert bodies == shorter + [bodies[n]];
      StreamConcat(shorter, [bodies[n]]);
      if b < |Stream(shorter)| {
        m := LastBoundary(shorter, b);
        assert shorter[..n] == shorter;
        assert shorter[..m] == bodies[..m] && shorter[..m + 1] == bodies[..m + 1];
      } else {
        m := n;
        assert bodies[..n + 1] == bodies;
      }
    }
  }

  /** A record that is not complete yields no frame. */
  lemma {:induction false} IncompleteRecord(d: Decoder, bodies: seq<seq<byte>>, q: seq<byte>)
    requires q <= Stream(bodies) && (bodies != [] ==> |q| < |Encode(bodies[0])|)
    ensures Feed(d, q).frames == d.frames
  {
    if bodies != [] {
      var w := Escape(Sealed(bodies[0]));
      EscapeIsStuffed(Sealed(bodies[0]));
      StuffedHasNoFrame(w);
      assert q == Stream(bodies)[..|q|] == w[..|q|];
    }
    QsResync.NoFrameByte(d, q);
  }

  lemma LongerPrefix(bodies: seq<seq<byte>>, i: nat, j: nat)
    requires i <= j <= |bodies|
    ensures |Stream(bodies[..i])| <= |Stream(bodies[..j])|
  {
    assert bodies[..j] == bodies[..i] + bodies[i..j];
    StreamConcat(bodies[..i], bodies[i..j]);
  }

  /** The first record that begins at or behind offset `a`. */
  ghost predicate IsFirst(bodies: seq<seq<byte>>, a: nat, k: nat) {
    k <= |bodies| && a <= |Stream(bodies[..k])| && (k > 0 ==> |Stream(bodies[..k - 1])| < a)
  }

  /** The first record that does not end at or before offset `b`. */
  ghost predicate IsLast(bodies: seq<seq<byte>>, b: nat, m: nat) {
    m <= |bodies| && |Stream(bodies[..m])| <= b && (m < |bodies| ==> b < |Stream(bodies[..m + 1])|)
  }

  /** What a decoder makes of the stretch from `a` to `b` of the wire: with `k` the first record that
      begins in it and `m` the first that does not end in it, the records between and what is left of
      the one before are decoded as IsResync says, and the rest of the stretch adds no frame. */
  ghost predicate IsDecoded(d: Decoder, bodies: seq<seq<byte>>, a: nat, b: nat,
                            k: nat, m: nat, lead: seq<Frame>, e: Decoder)
    requires a <= b <= |Stream(bodies)|
  {
    && IsFirst(bodies, a, k) && IsLast(bodies, b, m)
    && (k <= m ==> QsResync.IsResync(d, bodies[..m], k, |Stream(bodies[..k])| - a, lead, e))
    && Feed(d, Stream(bodies)[a..b]).frames == if k <= m then e.frames else d.frames
  }

  /** Every stretch is decoded in this way, whatever the decoder held before. */
  lemma {:induction false} StretchDecodes(d: Decoder, bodies: seq<seq<byte>>, a: nat, b: nat)
    returns (k: nat, m: nat, lead: seq<Frame>, e: Decoder)
    requires a <= b <= |Stream(bodies)| && QsResync.Sound(d)
    ensures IsDecoded(d, bodies, a, b, k, m, lead, e)
  {
    m := LastBoundary(bodies, b);
    if a <= |Stream(bodies[..m])| {
      k, lead, e := UpToBoundary(d, bodies, m, a, b);
    } else {
      k := NoBoundary(d, bodies, m, a, b);
      lead, e := [], d;
    }
  }

  lemma {:induction false} NoBoundary(d: Decoder, bodies: seq<seq<byte>>, m: nat, a: nat, b: nat) returns (k: nat)
    requires a <= b <= |Stream(bodies)| && IsLast(bodies, b, m) && |Stream(bodies[..m])| < a
    ensures IsDecoded(d, bodies, a, b, k, m, [], d)
  {
    k := FirstBoundary(bodies, a, m);
    WithinRecord(d, bodies, m, a, b);
  }

  lemma {:induction false} UpToBoundary(d: Decoder, bodies: seq<seq<byte>>, m: nat, a: nat, b: nat)
    returns (k: nat, lead: seq<Frame>, e: Decoder)
    requires a <= b <= |Stream(bodies)| && IsLast(bodies, b, m) && a <= |Stream(bodies[..m])|
    requires QsResync.Sound(d)
    ensures IsDecoded(d, bodies, a, b, k, m, lead, e)
  {
    k, lead := QsResync.ResyncFromAnywhere(d, bodies[..m], a);
    e := Feed(d, Stream(bodies[..m])[a..]);
    SamePrefixes(bodies, m, k);
    BehindBoundary(d, bodies, m, a, b);
  }

  /** A piece of a single record that does not reach its end adds no frame. */
  lemma {:induction false} WithinRecord(d: Decoder, bodies: seq<seq<byte>>, m: nat, a: nat, b: nat)
    requires m < |bodies| && |Stream(bodies[..m])| <= a <= b < |Stream(bodies[..m + 1])|
    requires b <= |Stream(bodies)|
    ensures Feed(d, Stream(bodies)[a..b]).frames == d.frames
  {
    var front, w := Stream(bodies[..m]), Escape(Sealed(bodies[m]));
    assert bodies == bodies[..m] + bodies[m..] && bodies[m..][0] == bodies[m];
    StreamConcat(bodies[..m], bodies[m..]);
    QsResync.PrefixLength(bodies, m + 1);
    SliceWithin(front, w, [QS_FRAME], Stream(bodies[m..][1..]), a, b);
    EscapeIsStuffed(Sealed(bodies[m]));
    StuffedHasNoFrame(w);
    QsResync.NoFrameByte(d, w[a - |front|..b - |front|]);
  }

  lemma SliceWithin(p: seq<byte>, q: seq<byte>, r: seq<byte>, s: seq<byte>, a: nat, b: nat)
    requires |p| <= a <= b <= |p| + |q|
    ensures (p + (q + r + s))[a..b] == q[a - |p|..b - |p|]
  {}

  /** Behind the end of the records up to `m` no record up to `m` begins. */
  lemma {:induction false} FirstBoundary(bodies: seq<seq<byte>>, a: nat, m: nat) returns (k: nat)
    requires m <= |bodies| && |Stream(bodies[..m])| < a <= |Stream(bodies)|
    ensures m < k <= |bodies| && a <= |Stream(bodies[..k])| && |Stream(bodies[..k - 1])| < a
  {
    var t;
    k, t := QsResync.SplitAtCut(bodies, a);
    QsResync.PrefixLength(bodies, k);
    if k <= m {
      LongerPrefix(bodies, k, m);
    }
  }

  lemma SamePrefixes(bodies: seq<seq<byte>>, m: nat, k: nat)
    requires k <= m <= |bodies|
    ensures bodies[..m][..k] == bodies[..k] && (k > 0 ==> bodies[..m][..k - 1] == bodies[..k - 1])
    ensures k < m ==> bodies[..m][k] == bodies[k] && bodies[..m][k + 1..] == bodies[k + 1..m]
  {}

  /** What follows the last boundary adds no frame. */
  lemma {:induction false} BehindBoundary(d: Decoder, bodies: seq<seq<byte>>, m: nat, a: nat, b: nat)
    requires m <= |bodies| && a <= |Stream(bodies[..m])| <= b <= |Stream(bodies)|
    requires m < |bodies| ==> b < |Stream(bodies[..m + 1])|
    ensures Feed(d, Stream(bodies)[a..b]).frames == Feed(d, Stream(bodies[..m])[a..]).frames
  {
    var front, back := Stream(bodies[..m]), Stream(bodies[m..]);
    assert bodies == bodies[..m] + bodies[m..];
    StreamConcat(bodies[..m], bodies[m..]);
    var q := back[..b - |front|];
    assert Stream(bodies)[a..b] == front[a..] + q;
    FeedConcat(d, front[a..], q);
    if m < |bodies| {
      QsResync.PrefixLength(bodies, m + 1);
      assert bodies[m..][0] == bodies[m];
    }
    IncompleteRecord(Feed(d, front[a..]), bodies[m..], q);
  }

  /** What the host decodes from one of the stretches of a session, with `d` the decoder after those
      before and `after` the decoder behind it. */
  lemma {:induction false} SessionDecodes(bytes: seq<byte>, size: nat, filter: seq<bv8>, ops: seq<Op>,
                                          xs: seq<Stretch>, i: nat)
    returns (k: nat, m: nat, lead: seq<Frame>, e: Decoder)
    requires |filter| == QsFilter.SIZE && IsReadOut(bytes, size, filter, ops, xs) && i < |xs|
    ensures var sent := SentAfter(filter, ops, |ops|);
      var d, after := Feed(START, ReadAll(Stream(sent), xs[..i])), Feed(START, ReadAll(Stream(sent), xs[..i + 1]));
      && xs[i].from <= xs[i].to <= |Stream(sent)|
      && IsDecoded(d, sent, xs[i].from, xs[i].to, k, m, lead, e)
      && after == Feed(d, Stream(sent)[xs[i].from..xs[i].to])
  {
    var sent := SentAfter(filter, ops, |ops|);
    var wire := Stream(sent);
    assert InPlace(xs, i, |wire|, size, Lengths(filter, ops));
    FeedStretch(wire, xs, i);
    QsResync.SoundStays(START, ReadAll(wire, xs[..i]));
    k, m, lead, e := StretchDecodes(Feed(START, ReadAll(wire, xs[..i])), sent, xs[i].from, xs[i].to);
  }

  lemma {:induction false} FeedStretch(wire: seq<byte>, xs: seq<Stretch>, i: nat)
    requires i < |xs| && xs[i].from <= xs[i].to <= |wire|
    ensures Feed(START, ReadAll(wire, xs[..i + 1]))
            == Feed(Feed(START, ReadAll(wire, xs[..i])), wire[xs[i].from..xs[i].to])
  {
    var before, part := ReadAll(wire, xs[..i]), wire[xs[i].from..xs[i].to];
    assert ReadAll(wire, xs[..i + 1]) == before + part by {
      assert xs[..i + 1] == xs[..i] + [xs[i]];
      ReadSnoc(wire, xs[..i], xs[i]);
    }
    FeedConcat(START, before, part);
  }

  lemma ReadWhole(wire: seq<byte>, x: Stretch)
    requires x.from == 0 && x.to == |wire|
    ensures ReadAll(wire, [x]) == wire
  {
    ReadSnoc(wire, [], x);
    assert [] + [x] == [x];
  }

  /** If after each macro the unread bytes fit into the buffer, nothing is lost: the session is decoded
      completely, however its reads were spread over it. */
  lemma SessionWithoutLoss(bytes: seq<byte>, size: nat, filter: seq<bv8>, ops: seq<Op>, xs: seq<Stretch>)
    requires |filter| == QsFilter.SIZE && IsReadOut(bytes, size, filter, ops, xs)
    requires forall i: nat | i < |ops| :: !Loses(size, ops, Lengths(filter, ops), i)
    ensures xs == [Stretch(0, |bytes|, xs[0].after)]
    ensures Feed(START, bytes) == START.(frames := GoodFrames(SentAfter(filter, ops, |ops|)))
  {
    var sent := SentAfter(filter, ops, |ops|);
    NoLosses(size, ops, Lengths(filter, ops), |ops|);
    assert InPlace(xs, 0, |Stream(sent)|, size, Lengths(filter, ops));
    assert xs == [xs[0]];
    ReadWhole(Stream(sent), xs[0]);
    DecodeStream(START, sent);
    assert [] + GoodFrames(sent) == GoodFrames(sent);
  }

  /** In particular, if behind every macro two blocks of the whole buffer are read and every record fits
      into the buffer. */
  lemma PromptSessionIsComplete(bytes: seq<byte>, size: nat, filter: seq<bv8>, ops: seq<Op>, xs: seq<Stretch>)
    requires |filter| == QsFilter.SIZE && IsReadOut(bytes, size, filter, ops, xs) && IsPrompt(size, ops)
    requires forall i: nat | i < |ops| :: LengthAfter(filter, ops, i + 1) <= LengthAfter(filter, ops, i) + size
    ensures Feed(START, bytes) == START.(frames := GoodFrames(SentAfter(filter, ops, |ops|)))
  {
    var sent := Lengths(filter, ops);
    forall i: nat | i < |ops| ensures GrowsAt(size, ops, sent, i) {
      LengthGrows(filter, ops, i);
      assert LengthAfter(filter, ops, i + 1) <= LengthAfter(filter, ops, i) + size;
    }
    forall i: nat | i < |ops| ensures !Loses(size, ops, sent, i) {
      PromptReadsLoseNothing(size, ops, sent, i);
    }
    SessionWithoutLoss(bytes, size, filter, ops, xs);
  }

  lemma LengthGrows(filter: seq<bv8>, ops: seq<Op>, n: nat)
    requires |filter| == QsFilter.SIZE && n < |ops|
    ensures LengthAfter(filter, ops, n) <= LengthAfter(filter, ops, n + 1)
    ensures !ops[n].Macro? ==> LengthAfter(filter, ops, n) == LengthAfter(filter, ops, n + 1)
  {
    if ops[n].Macro? {
      StreamConcat(SentAfter(filter, ops, n), Sent(filter, ops[n], SeqAfter(filter, ops, n)));
    } else {
      SentNoMore(filter, ops, n);
    }
  }

  // --------------------------------------------------------- a loss that is not noticed

  /** All records up to 124 are on. */
  const ALL_ON: seq<bv8> := [0xFF, 0xFF, 0xFF, 0xFF, 0xFF, 0xFF, 0xFF, 0xFF,
                             0xFF, 0xFF, 0xFF, 0xFF, 0xFF, 0xFF, 0xFF, 0x1F]

  const FIRST := Call(12, 0, 0, [])
  const SECOND := Call(11, 0, 0, [])
  const THIRD := Call(10, 0, 0, [U32Raw(0), U16Raw(0), U8Raw(0)])
  const ZEROS: seq<byte> := [0, 0, 0, 0, 0, 0, 0]

  lemma ForgedWire()
    ensures Emitted(ALL_ON, FIRST, 0) == Encode([1, 12]) && |Encode([1, 12])| == 4
    ensures Emitted(ALL_ON, SECOND, 1) == Encode([2, 11]) && |Encode([2, 11])| == 4
    ensures Emitted(ALL_ON, THIRD, 2) == Encode([3, 10] + ZEROS) && |Encode([3, 10] + ZEROS)| == 11
    ensures Escape([3, 10]) == [3, 10] && Escape([1, 12]) == [1, 12]
  {
    assert Admits(ALL_ON, FIRST) && Admits(ALL_ON, SECOND) && Admits(ALL_ON, THIRD);
    CleanRecordIsEncoded(1, 12, []);
    CleanRecordIsEncoded(2, 11, []);
    ForgedThird();
    assert [1, 12] + [] == [1, 12] && [2, 11] + [] == [2, 11];
    ForgedLengths();
  }

  lemma ForgedThird()
    ensures RecordWire(3, 10, ItemsOfAll(THIRD.fields)) == Encode([3, 10] + ZEROS)
  {
    var fields := THIRD.fields;
    var items := [Data([0, 0, 0, 0]), Data([0, 0]), Data([0])];
    assert LittleEndian(0, 4) == [0, 0, 0, 0] && LittleEndian(0, 2) == [0, 0];
    assert fields[1..] == [U16Raw(0), U8Raw(0)] && fields[1..][1..] == [U8Raw(0)];
    assert [U8Raw(0)][1..] == [];
    assert ItemsOfAll(fields) == items;
    assert items[1..] == [Data([0, 0]), Data([0])] && items[1..][1..] == [Data([0])];
    assert [Data([0])][1..] == [];
    assert Plain(items) == ZEROS;
    CleanRecordIsEncoded(3, 10, items);
  }

  lemma {:induction false} SumOfZeros(s: seq<byte>)
    requires forall i | 0 <= i < |s| :: s[i] == 0
    ensures Sum(s) == 0
    decreases |s|
  {
    if s != [] {
      SumOfZeros(s[1..]);
    }
  }

  lemma {:induction false} ForgedLengths()
    ensures |Encode([1, 12])| == |Encode([2, 11])| == 4 && |Encode([3, 10] + ZEROS)| == 11
    ensures Escape([3, 10]) == [3, 10] && Escape([1, 12]) == [1, 12]
  {
    PlainLength([1, 12]);
    PlainLength([2, 11]);
    SumOfZeros(ZEROS);
    SumConcat([3, 10], ZEROS);
    PlainLength([3, 10] + ZEROS);
    EscapeOfClean([3, 10]);
    EscapeOfClean([1, 12]);
  }

  /** A record without control bytes takes two bytes more on the wire. */
  lemma {:induction false} PlainLength(body: seq<byte>)
    requires IsClean(Sealed(body))
    ensures |Encode(body)| == |body| + 2
  {
    EscapeOfClean(Sealed(body));
  }

  /** What the host makes of it. */
  lemma {:induction false} ForgedFrame()
    ensures Feed(START, [1, 12] + Encode([3, 10] + ZEROS)[2..])
            == START.(frames := [Frame([1, 12] + ZEROS + [0xF2], true)])
  {
    ForgedLengths();
    SumOfZeros(ZEROS);
    SumConcat([3, 10], ZEROS);
    QsResync.JoinedRecords([1, 12], [3, 10], ZEROS);
    FeedConcat(START, [1, 12], Encode([3, 10] + ZEROS)[2..]);
    assert Sealed([3, 10] + ZEROS)[2..] == ZEROS + [0xF2];
    assert [1, 12] + (ZEROS + [0xF2]) == [1, 12] + ZEROS + [0xF2];
  }

  /** A session in which an overrun is not noticed. The host reads two bytes of the first record; then
      the rest of it, the second and two bytes of the third are overwritten. What it reads in the end
      is one good frame with the number that it expects, and no record that was sent. */
  method ForgedSession() returns (qs: QsTrace, bytes: seq<byte>)
    ensures fresh(qs) && qs.end == 9 && qs.wire == Encode([1, 12]) + Encode([2, 11]) + Encode([3, 10] + ZEROS)
    ensures bytes == qs.wire[..2] + qs.wire[10..]
    ensures Feed(START, bytes) == START.(frames := [Frame([1, 12] + ZEROS + [0xF2], true)])
    ensures [1, 12] + ZEROS + [0xF2] !in [Sealed([1, 12]), Sealed([2, 11]), Sealed([3, 10] + ZEROS)]
  {
    ForgedWire();
    ForgedNumbers();
    ghost var w1, w2, w3 := Encode([1, 12]), Encode([2, 11]), Encode([3, 10] + ZEROS);
    qs, bytes := LoseBetween(ALL_ON, FIRST, SECOND, THIRD, w1, w2, w3);
    ForgedBeginning();
    ForgedFrame();
    NeverSent();
  }

  lemma NeverSent()
    ensures [1, 12] + ZEROS + [0xF2] !in [Sealed([1, 12]), Sealed([2, 11]), Sealed([3, 10] + ZEROS)]
  {
    var sent := [1, 12] + ZEROS + [0xF2];
    assert |sent| == 10 && sent[0] == 1;
    assert Sealed([3, 10] + ZEROS)[0] == 3;
  }

  lemma ForgedNumbers()
    ensures NextSeq(ALL_ON, FIRST, 0) == 1 && NextSeq(ALL_ON, SECOND, 1) == 2
    ensures Legal(FIRST) && Legal(SECOND) && Legal(THIRD)
  {
    assert Admits(ALL_ON, FIRST) && Admits(ALL_ON, SECOND);
  }

  lemma ForgedBeginning()
    ensures Encode([1, 12])[..2] == [1, 12]
  {
    EscapeOfClean(Sealed([1, 12]));
  }

  /** Three calls into a buffer of nine bytes, with two bytes read after the first. */
  method LoseBetween(filter: seq<bv8>, c1: Call, c2: Call, c3: Call,
                     ghost w1: seq<byte>, ghost w2: seq<byte>, ghost w3: seq<byte>)
    returns (qs: QsTrace, bytes: seq<byte>)
    requires |filter| == QsFilter.SIZE && Legal(c1) && Legal(c2) && Legal(c3)
    requires NextSeq(filter, c1, 0) == 1 && NextSeq(filter, c2, 1) == 2
    requires Emitted(filter, c1, 0) == w1 && Emitted(filter, c2, 1) == w2 && Emitted(filter, c3, 2) == w3
    requires |w1| == |w2| == 4 && |w3| == 11
    ensures fresh(qs) && qs.end == 9 && qs.wire == w1 + w2 + w3
    ensures bytes == w1[..2] + w3[2..] == qs.wire[..2] + qs.wire[10..]
  {
    var first;
    qs, first := ReadTwo(filter, c1, w1);
    var last := Overwrite(qs, filter, c2, c3, w1, w2, w3);
    bytes := first + last;
    assert (w1 + w2 + w3)[..2] == w1[..2] && (w1 + w2 + w3)[10..] == w3[2..];
  }

  /** Two calls that overwrite the rest of the first record, and the read-out. */
  method Overwrite(qs: QsTrace, filter: seq<bv8>, c2: Call, c3: Call,
                   ghost w1: seq<byte>, ghost w2: seq<byte>, ghost w3: seq<byte>)
    returns (last: seq<byte>)
    requires qs.Settled() && qs.end == 9 && qs.seqNo == 1 && qs.wire == w1 && qs.Gone() == 2
    requires |filter| == QsFilter.SIZE && Legal(c2) && Legal(c3) && NextSeq(filter, c2, 1) == 2
    requires Emitted(filter, c2, 1) == w2 && Emitted(filter, c3, 2) == w3
    requires |w1| == |w2| == 4 && |w3| == 11
    modifies qs, qs.buf
    ensures last == w3[2..] && qs.wire == w1 + w2 + w3
  {
    TraceWire(qs, filter, c2, w2);
    TraceWire(qs, filter, c3, w3);
    ghost var wire := w1 + w2 + w3;
    last := ReadRest(qs);
    assert wire[10..10 + |last|] == w3[2..];
  }

  /** Reads two bytes of the first record. */
  method ReadTwo(filter: seq<bv8>, c: Call, ghost w: seq<byte>) returns (qs: QsTrace, first: seq<byte>)
    requires |filter| == QsFilter.SIZE && Legal(c)
    requires NextSeq(filter, c, 0) == 1 && Emitted(filter, c, 0) == w && |w| == 4
    ensures fresh(qs) && fresh(qs.buf) && qs.Settled() && qs.end == 9
    ensures qs.seqNo == 1 && qs.wire == w && qs.Gone() == 2 && first == w[..2]
  {
    qs := new QsTrace(9);
    TraceWire(qs, filter, c, w);
    assert [] + w == w;
    first := TakeTwo(qs);
  }

  method TakeTwo(qs: QsTrace) returns (first: seq<byte>)
    requires qs.Settled() && |qs.Unread()| >= 2
    modifies qs`tail, qs`used
    ensures qs.Settled() && qs.Gone() == old(qs.Gone()) + 2 && first == old(qs.Unread())[..2]
  {
    var b0 := qs.GetByte();
    var b1 := qs.GetByte();
    first := [b0, b1];
  }

  /** One use of the macros, of which only the bytes on the wire matter. */
  method TraceWire(qs: QsTrace, filter: seq<bv8>, c: Call, ghost w: seq<byte>)
    requires qs.Settled() && |filter| == QsFilter.SIZE && Legal(c) && Emitted(filter, c, qs.seqNo) == w
    modifies qs, qs.buf
    ensures qs.Settled() && qs.buf == old(qs.buf) && qs.seqNo == NextSeq(filter, c, old(qs.seqNo))
    ensures qs.wire == old(qs.wire) + w && qs.Gone() == Max(old(qs.Gone()), |qs.wire| - qs.end)
  {
    TraceOne(qs, filter, c);
  }
}
