/** The QS receive channel: a ring buffer filled by an interrupt handler and emptied by the parser
    in the background (include/qs.h, rxPut and QSrxPriv; src/qs/qs_rx.cpp, rxInitBuf, rxParse and
    rxGetNfree). Both indices move downwards, and cell `end` is the last cell of the ring. */
module QsReceive {
  import opened Arithmetic
  import opened DownwardRing
  import opened QsFraming

  const QSCTR_RANGE := 0x1_0000_0000

  /** Unsigned subtraction of the counter type. */
  function SubCtr(a: nat, b: nat): nat {
    (a - b) % QSCTR_RANGE
  }

  /** The index below `i`, going round from 0 to `end`. */
  function Below(i: nat, end: nat): nat {
    if i != 0 then i - 1 else end
  }

  /** The number of bytes waiting between tail and head. */
  function Occupied(head: nat, tail: nat, end: nat): nat
    requires head <= end && tail <= end
  {
    if head <= tail then tail - head else tail + end + 1 - head
  }

  /** The cell of the i-th oldest byte waiting. */
  function CellOf(tail: nat, i: nat, end: nat): nat
    requires tail <= end && i <= end
  {
    CellAt(tail, i, end + 1)
  }

  /** The waiting bytes, oldest first. */
  function Waiting(cells: seq<byte>, head: nat, tail: nat, end: nat): (s: seq<byte>)
    requires end < |cells| && head <= end && tail <= end
    ensures |s| == Occupied(head, tail, end)
  {
    Ring(cells, tail, Occupied(head, tail, end), end + 1)
  }

  /** The test by which rxPut decides that there is no room. */
  predicate LooksFull(head: nat, tail: nat, end: nat) {
    if head != 0 then SubCtr(head, tail) == 1 else tail == end
  }

  /** The split test in unsigned arithmetic says exactly that `end` bytes are waiting, which is
      when the head has the tail right below it. */
  lemma FullTestIsExact(head: nat, tail: nat, end: nat)
    requires head <= end && tail <= end < QSCTR_RANGE
    ensures LooksFull(head, tail, end) <==> Occupied(head, tail, end) == end
    ensures LooksFull(head, tail, end) <==> Below(head, end) == tail
  {}

  lemma PushCell(cells: seq<byte>, head: nat, tail: nat, end: nat, b: byte)
    requires end < |cells| && head <= end && tail <= end
    requires Occupied(head, tail, end) < end
    ensures Waiting(cells[head := b], Below(head, end), tail, end) == Waiting(cells, head, tail, end) + [b]
    ensures Waiting(cells[head := b], head, tail, end) == Waiting(cells, head, tail, end)
  {
    InsertAtHead(cells, tail, Occupied(head, tail, end), end + 1, b);
  }

  lemma PopCell(cells: seq<byte>, head: nat, tail: nat, end: nat)
    requires end < |cells| && head <= end && tail <= end && head != tail
    ensures Waiting(cells, head, tail, end) == [cells[tail]] + Waiting(cells, head, Below(tail, end), end)
  {
    RemoveAtTail(cells, tail, Occupied(head, tail, end), end + 1);
  }

  class Receiver {
    const buf: array<byte>
    const end: nat
    var head: nat
    var tail: nat
    var rx: Decoder

    ghost predicate Valid()
      reads this
    {
      end < buf.Length && end < QSCTR_RANGE && head <= end && tail <= end
    }

    ghost function Contents(): seq<byte>
      reads this, buf
      requires Valid()
    {
      Waiting(buf[..], head, tail, end)
    }

    constructor (sto: array<byte>)
      requires 0 < sto.Length < 0x1_0000
      ensures Valid() && buf == sto && end == sto.Length - 1
      ensures Contents() == [] && rx == START && head == tail == 0
    {
      buf := sto;
      end := sto.Length - 1;
      head, tail, rx := 0, 0, START;
    }

    method RxPut(b: byte)
      requires Valid()
      modifies this`head, buf
      ensures Valid()
      ensures |old(Contents())| < end ==> Contents() == old(Contents()) + [b]
      ensures |old(Contents())| >= end ==> head == old(head) && buf[..] == old(buf[..])
    {
      FullTestIsExact(head, tail, end);
      ghost var cells := buf[..];
      if head != 0 {
        if SubCtr(head, tail) != 1 {
          PushCell(cells, head, tail, end, b);
          buf[head] := b;
          assert buf[..] == cells[head := b];
          head := head - 1;
        }
      } else {
        if tail != end {
          PushCell(cells, head, tail, end, b);
          buf[0] := b;
          assert buf[..] == cells[0 := b];
          head := end;
        }
      }
    }

    /** The parser empties the buffer, running every byte through the decoder in order. */
    method RxParse()
      requires Valid()
      modifies this`tail, this`rx
      ensures Valid() && head == tail && Contents() == []
      ensures rx == Feed(old(rx), old(Contents()))
    {
      while head != tail
        invariant Valid()
        invariant Feed(rx, Contents()) == Feed(old(rx), old(Contents()))
        decreases |Contents()|
      {
        PopCell(buf[..], head, tail, end);
        ghost var was := Contents();
        var b := buf[tail];
        if tail != 0 {
          tail := tail - 1;
        } else {
          tail := end;
        }
        assert was[0] == b && was[1..] == Contents();
        rx := Step(rx, b);
      }
    }

    /** The free space rxGetNfree reports to the interrupt handler. */
    method RxGetNfree() returns (nFree: nat)
      requires Valid()
      ensures nFree == Reported(head, tail, end)
      ensures nFree == if head == tail then end else if head < tail then tail - head else tail + end - head
      ensures Contents() == [] ==> nFree == end
    {
      if head == tail {
        nFree := end;
      } else if head < tail {
        nFree := tail - head;
      } else {
        nFree := (tail + end) - head;
      }
    }
  }

  // ------------------------------------------------------ the reported free space

  /** What rxGetNfree computes, in terms of the bytes waiting: once bytes are waiting it returns
      their number, less one if they go round the end of the buffer. */
  function Reported(head: nat, tail: nat, end: nat): nat
    requires head <= end && tail <= end
  {
    var n := Occupied(head, tail, end);
    if n == 0 then end else if head < tail then n else n - 1
  }

  /** The bytes rxPut can still accept. */
  function Room(head: nat, tail: nat, end: nat): int
    requires head <= end && tail <= end
  {
    end - Occupied(head, tail, end)
  }

  /** The reported number is meant to be conservative, but it follows the formula of a buffer that
      is filled upwards. It never exceeds the room exactly if the buffer is empty or at most about
      half full. */
  lemma ReportedIsConservativeIff(head: nat, tail: nat, end: nat)
    requires head <= end && tail <= end
    ensures Reported(head, tail, end) <= Room(head, tail, end)
            <==> (head == tail
                  || (head < tail && 2 * (tail - head) <= end)
                  || (head > tail && 2 * (head - tail) >= end + 1))
  {}

  /** An empty channel reports all bytes; otherwise it reports the number of bytes that wait, less one if
      they go round the end of the buffer. */
  lemma ReportedByPosition(head: nat, tail: nat, end: nat)
    requires head <= end && tail <= end
    ensures head == tail ==> Reported(head, tail, end) == end == Room(head, tail, end)
    ensures head < tail ==> Reported(head, tail, end) == tail - head == end - Room(head, tail, end)
    ensures head > tail ==> Reported(head, tail, end) == end - (head - tail) == end - Room(head, tail, end) - 1
  {}

  /** A fresh channel that is then filled up to one byte: room for a single byte is left, and all
      but two of the bytes are reported as free. */
  method ReportedOverstates(sto: array<byte>, b: byte) returns (rx: Receiver, nFree: nat)
    requires 2 < sto.Length < 0x1_0000
    modifies sto
    ensures rx.Valid() && rx.end == sto.Length - 1 && rx.end - |rx.Contents()| == 1
    ensures nFree == rx.end - 2
  {
    rx := new Receiver(sto);
    var n := 0;
    while n < sto.Length - 2
      invariant 0 <= n <= sto.Length - 2 && rx.Valid() && fresh(rx)
      invariant rx.buf == sto && rx.end == sto.Length - 1 && rx.tail == 0 && |rx.Contents()| == n
    {
      rx.RxPut(b);
      n := n + 1;
    }
    nFree := rx.RxGetNfree();
  }
}
