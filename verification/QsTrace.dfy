/** The QS trace output: records are inserted with escaping into a ring buffer that is read out
    byte by byte or in blocks, and that overwrites its oldest bytes when it overflows
    (src/qs_pkg.h and src/qs/qs.cpp). */
module QsTrace {
  import opened Arithmetic
  import opened Collections
  import opened QsFraming
  import opened QsRecord
  import QsFilter
  import RingIndex

  const QS_EOD := 0xFFFF
  const STR_T: byte := 8
  const MEM_T: byte := 9

  /** One data element of a record, one constructor per output function. */
  datatype Field =
    | U8Raw(d: byte)
    | U8U8Raw(d1: byte, d2: byte)
    | U16Raw(w: nat)
    | U32Raw(w: nat)
    | U8(format: byte, d: byte)
    | U16(format: byte, w: nat)
    | U32(format: byte, w: nat)
    | StrRaw(chars: seq<byte>)
    | Str(chars: seq<byte>)
    | Mem(blk: seq<byte>)

  /** The argument ranges of the C types: uint16_t, uint32_t, strings without an inner zero,
      blocks of at most 255 bytes. */
  ghost predicate InRange(f: Field) {
    match f
    case U16Raw(w) => w < 0x1_0000
    case U32Raw(w) => w < 0x1_0000_0000
    case U16(_, w) => w < 0x1_0000
    case U32(_, w) => w < 0x1_0000_0000
    case StrRaw(chars) => 0 !in chars
    case Str(chars) => 0 !in chars
    case Mem(blk) => |blk| < 256
    case _ => true
  }

  /** The `n` low-order bytes of `w`, least significant first. */
  function LittleEndian(w: nat, n: nat): (s: seq<byte>)
    ensures |s| == n
  {
    if n == 0 then [] else [w % 256] + LittleEndian(w / 256, n - 1)
  }

  /** The value a receiver puts together again from such bytes. */
  function Value(s: seq<byte>): nat {
    if s == [] then 0 else s[0] + 256 * Value(s[1..])
  }

  function Range(n: nat): nat {
    if n == 0 then 1 else 256 * Range(n - 1)
  }

  /** Exactly the values within the width of the field come back from it. */
  lemma {:induction false} ValueOfLittleEndian(w: nat, n: nat)
    ensures Value(LittleEndian(w, n)) == w <==> w < Range(n)
    ensures Value(LittleEndian(w, n)) < Range(n)
  {
    if n > 0 {
      ValueOfLittleEndian(w / 256, n - 1);
      assert LittleEndian(w, n)[1..] == LittleEndian(w / 256, n - 1);
    }
  }

  function ItemsOf(f: Field): seq<Item> {
    match f
    case U8Raw(d) => [Data([d])]
    case U8U8Raw(d1, d2) => [Data([d1, d2])]
    case U16Raw(w) => [Data(LittleEndian(w, 2))]
    case U32Raw(w) => [Data(LittleEndian(w, 4))]
    case U8(format, d) => [Data([format, d])]
    case U16(format, w) => [Data([format] + LittleEndian(w, 2))]
    case U32(format, w) => [Data([format] + LittleEndian(w, 4))]
    case StrRaw(chars) => [Text(chars)]
    case Str(chars) => [Data([STR_T]), Text(chars)]
    case Mem(blk) => [Data([MEM_T, |blk| % 256] + blk)]
  }

  class QsTrace {
    var buf: array<byte>
    const end: nat
    var head: nat
    var tail: nat
    var used: nat
    var seqNo: byte
    var chksum: byte

    ghost var wire: seq<byte>  // every byte ever inserted
    ghost var body: seq<byte>  // the unescaped bytes of the record being built

    /** The newest min(end, |wire|) bytes of the wire are in the buffer, each in its cell. */
    ghost predicate RingOk()
      reads this, buf
    {
      && 0 < end <= buf.Length
      && head == |wire| % end
      && forall i: nat | |wire| - end <= i < |wire| :: buf[i % end] == wire[i]
    }

    /** How many bytes of the wire have left the buffer: read, or given up to an overrun. */
    ghost function Gone(): int
      reads this
    {
      |wire| - used
    }

    ghost predicate Valid()
      reads this, buf
    {
      && RingOk()
      && chksum == Sum(body)
      && Gone() >= 0
      && tail == Gone() % end
    }

    /** Between records the count of used bytes never exceeds the buffer. */
    ghost predicate Settled()
      reads this, buf
    {
      Valid() && used <= end
    }

    ghost function Unread(): seq<byte>
      reads this
      requires Gone() >= 0
    {
      wire[Gone()..]
    }

    constructor (size: nat)
      requires size > 8
      ensures Settled() && fresh(buf) && end == size
      ensures wire == [] && body == [] && seqNo == 0
    {
      buf := new byte[size];
      end := size;
      head, tail, used, seqNo, chksum := 0, 0, 0, 0, 0;
      wire, body := [], [];
    }

    method InsertByte(b: byte)
      requires RingOk()
      modifies this`head, this`wire, buf
      ensures RingOk() && wire == old(wire) + [b]
    {
      ghost var n := |wire|;
      buf[head] := b;
      head := head + 1;
      if head == end {
        head := 0;
      }
      wire := wire + [b];
      RingIndex.NextCell(n, end);
      forall i: nat | |wire| - end <= i < |wire|
        ensures buf[i % end] == wire[i]
      {
        if i < n {
          RingIndex.DistinctCells(i, n, end);
        }
      }
    }

    /** The pattern of the raw insertions: the checksum is raised, the byte goes in as it is. */
    method InsertRaw(b: byte)
      requires RingOk() && chksum == Sum(body)
      modifies this`head, this`chksum, this`wire, this`body, buf
      ensures RingOk() && chksum == Sum(body)
      ensures wire == old(wire) + [b] && body == old(body) + [b]
    {
      SumSnoc(body, b);
      chksum := Add8(chksum, b);
      body := body + [b];
      InsertByte(b);
    }

    /** The escaping macro: `used` is raised only for the extra escape byte, because the caller
        has already counted the byte itself. */
    method InsertEscByte(b: byte)
      requires RingOk() && chksum == Sum(body)
      modifies this`head, this`used, this`chksum, this`wire, this`body, buf
      ensures RingOk() && chksum == Sum(body)
      ensures wire == old(wire) + EscapeByte(b) && body == old(body) + [b]
      ensures used == old(used) + |EscapeByte(b)| - 1
    {
      SumSnoc(body, b);
      chksum := Add8(chksum, b);
      body := body + [b];
      if b != QS_FRAME && b != QS_ESC {
        InsertByte(b);
      } else {
        InsertByte(QS_ESC);
        InsertByte(FlipEsc(b));
        used := used + 1;
      }
    }

    /** The effect of an output function: `items` are appended to the record, nothing is read,
        given up or renumbered. */
    twostate predicate Added(items: seq<Item>)
      reads this
    {
      && buf == old(buf)
      && wire == old(wire) + Wire(items) && body == old(body) + Plain(items)
      && Gone() == old(Gone()) && tail == old(tail) && seqNo == old(seqNo)
    }

    // ------------------------------------------------------------ records

    method BeginRec(rec: byte)
      requires Valid()
      modifies this, buf
      ensures Valid() && buf == old(buf) && Gone() == old(Gone())
      ensures seqNo == (old(seqNo) + 1) % 256 && body == [seqNo, rec]
      ensures wire == old(wire) + EscapeByte(seqNo) + [rec]
    {
      var b := (seqNo + 1) % 256;
      seqNo := b;
      used := used + 2;
      chksum, body := 0, [];
      InsertEscByte(b);
      InsertRaw(rec);
    }

    method EndRec()
      requires Valid()
      modifies this, buf
      ensures Settled() && buf == old(buf) && seqNo == old(seqNo) && body == old(body)
      ensures wire == old(wire) + EscapeByte(Trailer(body)) + [QS_FRAME]
      ensures Gone() == if |wire| - old(Gone()) <= end then old(Gone()) else |wire| - end
    {
      var b := 0xFF - chksum;
      used := used + 2;
      InsertTrailer(b);
      InsertByte(QS_FRAME);
      if used > end {
        used := end;
        tail := head;
        RingIndex.OneLap(|wire|, end);
      }
    }

    /** The first half of endRec: the trailer is escaped, but no longer part of the checksum. */
    method InsertTrailer(b: byte)
      requires RingOk()
      modifies this`head, this`used, this`wire, buf
      ensures RingOk() && wire == old(wire) + EscapeByte(b)
      ensures used == old(used) + |EscapeByte(b)| - 1
    {
      if b != QS_FRAME && b != QS_ESC {
        InsertByte(b);
      } else {
        InsertByte(QS_ESC);
        InsertByte(FlipEsc(b));
        used := used + 1;
      }
    }

    // ------------------------------------------------------- output functions

    method U8_(d: byte)
      requires Valid()
      modifies this, buf
      ensures Valid() && Added([Data([d])])
    {
      used := used + 1;
      InsertEscByte(d);
      EscapeBytes([d]);
      DataItem([d]);
    }

    method U8U8_(d1: byte, d2: byte)
      requires Valid()
      modifies this, buf
      ensures Valid() && Added([Data([d1, d2])])
    {
      used := used + 2;
      InsertEscByte(d1);
      InsertEscByte(d2);
      EscapeBytes([d1, d2]);
      DataItem([d1, d2]);
    }

    method U16_(w: nat)
      requires Valid() && w < 0x1_0000
      modifies this, buf
      ensures Valid() && Added([Data(LittleEndian(w, 2))])
    {
      used := used + 2;
      var lo, hi := w % 256, w / 256 % 256;
      InsertEscByte(lo);
      InsertEscByte(hi);
      assert LittleEndian(w, 2) == [lo, hi];
      EscapeBytes([lo, hi]);
      DataItem([lo, hi]);
    }

    method U32_(w: nat)
      requires Valid() && w < 0x1_0000_0000
      modifies this, buf
      ensures Valid() && Added([Data(LittleEndian(w, 4))])
    {
      used := used + 4;
      InsertWord(w);
      DataItem(LittleEndian(w, 4));
    }

    /** The loop shared by u32_ and u32: four escaped bytes, low byte first. */
    method InsertWord(w: nat)
      requires RingOk() && chksum == Sum(body)
      modifies this`head, this`used, this`chksum, this`wire, this`body, buf
      ensures RingOk() && chksum == Sum(body)
      ensures var s := LittleEndian(w, 4);
        && wire == old(wire) + Escape(s) && body == old(body) + s
        && used == old(used) + |Escape(s)| - 4
    {
      var d, i := w, 4;
      ghost var s := LittleEndian(w, 4);
      while i != 0
        invariant RingOk() && chksum == Sum(body)
        invariant 0 <= i <= 4 && s[4 - i..] == LittleEndian(d, i)
        invariant wire == old(wire) + Escape(s[..4 - i]) && body == old(body) + s[..4 - i]
        invariant used == old(used) + |Escape(s[..4 - i])| - (4 - i)
      {
        ghost var wi, bi := wire, body;
        assert s[4 - i] == d % 256 && s[5 - i..] == s[4 - i..][1..];
        InsertEscByte(d % 256);
        OneMore(old(wire), wi, wire, old(body), bi, body, s, 4 - i);
        d := d / 256;
        i := i - 1;
      }
      assert s[..4] == s;
    }

    method U8(format: byte, d: byte)
      requires Valid()
      modifies this, buf
      ensures Valid() && Added([Data([format, d])])
    {
      used := used + 2;
      InsertEscByte(format);
      InsertEscByte(d);
      EscapeBytes([format, d]);
      DataItem([format, d]);
    }

    method U16(format: byte, w: nat)
      requires Valid() && w < 0x1_0000
      modifies this, buf
      ensures Valid() && Added([Data([format] + LittleEndian(w, 2))])
    {
      used := used + 3;
      InsertEscByte(format);
      EscapeOne(format);
      ghost var w1, b1 := wire, body;
      var lo, hi := w % 256, w / 256 % 256;
      InsertEscByte(lo);
      InsertEscByte(hi);
      assert LittleEndian(w, 2) == [lo, hi];
      EscapeBytes([lo, hi]);
      TwoParts(old(wire), w1, wire, old(body), b1, body, [format], [lo, hi]);
    }

    method U32(format: byte, w: nat)
      requires Valid() && w < 0x1_0000_0000
      modifies this, buf
      ensures Valid() && Added([Data([format] + LittleEndian(w, 4))])
    {
      used := used + 5;
      InsertEscByte(format);
      EscapeOne(format);
      ghost var w1, b1 := wire, body;
      InsertWord(w);
      TwoParts(old(wire), w1, wire, old(body), b1, body, [format], LittleEndian(w, 4));
    }

    /** Strings go into the buffer unescaped, up to and including the closing zero. */
    method Str_(chars: seq<byte>)
      requires Valid() && 0 !in chars
      modifies this, buf
      ensures Valid() && Added([Text(chars)])
    {
      InsertChars(chars);
      used := used + 1;
    }

    /** The loop shared by str_ and str, with the closing zero. */
    method InsertChars(chars: seq<byte>)
      requires RingOk() && chksum == Sum(body)
      requires 0 !in chars
      modifies this`head, this`used, this`chksum, this`wire, this`body, buf
      ensures RingOk() && chksum == Sum(body)
      ensures wire == old(wire) + Wire([Text(chars)]) && body == old(body) + Plain([Text(chars)])
      ensures used == old(used) + |chars| && |Wire([Text(chars)])| == |chars| + 1
    {
      var i := 0;
      var b := CharAt(chars, i);
      while b != 0
        invariant RingOk() && chksum == Sum(body)
        invariant 0 <= i <= |chars| && b == CharAt(chars, i)
        invariant wire == old(wire) + chars[..i] && body == old(body) + chars[..i]
        invariant used == old(used) + i
        decreases |chars| - i
      {
        ghost var w, c := wire, body;
        InsertRaw(b);
        OneMoreRaw(old(wire), w, wire, chars, i);
        OneMoreRaw(old(body), c, body, chars, i);
        i := i + 1;
        b := CharAt(chars, i);
        used := used + 1;
      }
      ghost var w, c := wire, body;
      InsertRaw(0);
      TextItem(chars);
      assert chars[..i] == chars;
      Assoc(old(wire), chars, [0]);
      Assoc(old(body), chars, [0]);
    }

    method Str(chars: seq<byte>)
      requires Valid() && 0 !in chars
      modifies this, buf
      ensures Valid() && Added([Data([STR_T]), Text(chars)])
    {
      used := used + 2;
      InsertRaw(STR_T);
      ghost var w, c := wire, body;
      InsertChars(chars);
      StrItems(old(wire), w, wire, chars, Wire([Text(chars)]));
      StrItems(old(body), c, body, chars, Plain([Text(chars)]));
    }

    method Mem(blk: seq<byte>)
      requires Valid() && |blk| < 256
      modifies this, buf
      ensures Valid() && Added([Data([MEM_T, |blk|] + blk)])
    {
      used := used + |blk| + 2;
      InsertRaw(MEM_T);
      InsertEscByte(|blk|);
      EscapeBytes([MEM_T, |blk|]);
      ghost var w1, b1 := wire, body;
      InsertBlock(blk);
      TwoParts(old(wire), w1, wire, old(body), b1, body, [MEM_T, |blk|], blk);
    }

    /** The loop of mem: a block of escaped bytes. */
    method InsertBlock(blk: seq<byte>)
      requires RingOk() && chksum == Sum(body)
      modifies this`head, this`used, this`chksum, this`wire, this`body, buf
      ensures RingOk() && chksum == Sum(body)
      ensures wire == old(wire) + Escape(blk) && body == old(body) + blk
      ensures used == old(used) + |Escape(blk)| - |blk|
    {
      var i := 0;
      while i != |blk|
        invariant RingOk() && chksum == Sum(body)
        invariant 0 <= i <= |blk|
        invariant wire == old(wire) + Escape(blk[..i]) && body == old(body) + blk[..i]
        invariant used == old(used) + |Escape(blk[..i])| - i
      {
        ghost var w, b := wire, body;
        InsertEscByte(blk[i]);
        OneMore(old(wire), w, wire, old(body), b, body, blk, i);
        i := i + 1;
      }
      assert blk[..i] == blk;
    }

    // ---------------------------------------------------------- reading out

    method GetByte() returns (ret: nat)
      requires Settled()
      modifies this`tail, this`used
      ensures Settled()
      ensures old(Unread()) == [] ==> ret == QS_EOD && Unread() == []
      ensures old(Unread()) != [] ==> ret == old(Unread())[0] && Unread() == old(Unread())[1..]
    {
      if used == 0 {
        ret := QS_EOD;
      } else {
        ret := buf[tail];
        RingIndex.NextCell(Gone(), end);
        tail := tail + 1;
        if tail == end {
          tail := 0;
        }
        used := used - 1;
      }
    }

    /** Delivers a contiguous block: `n` bytes from cell `at` on, as many as are unread, lie
        before the end of the buffer and fit the caller's limit. */
    method GetBlock(limit: nat) returns (at: nat, n: nat)
      requires Settled() && limit < 0x1_0000
      modifies this`tail, this`used
      ensures Settled() && at + n <= end
      ensures n <= |old(Unread())| && n <= limit
      ensures n == |old(Unread())| || n == limit || at + n == end
      ensures old(Unread()) != [] ==> at == old(Gone()) % end < end
      ensures buf[at..at + n] == old(Unread())[..n] && Unread() == old(Unread())[n..]
    {
      if used == 0 {
        at, n := 0, 0;
      } else {
        n := end - tail;
        if n > used {
          n := used;
        }
        if n > limit {
          n := limit;
        }
        at := tail;
        BlockAt(buf[..], end, wire, Gone(), n);
        assert Unread()[..n] == wire[Gone()..Gone() + n];
        assert buf[at..at + n] == buf[..][at..at + n];
        Skip(n);
      }
    }

    /** The tail moves over a block that ends at most at the end of the buffer. */
    method Skip(n: nat)
      requires Settled() && n <= used && tail + n <= end
      modifies this`tail, this`used
      ensures Settled() && Unread() == old(Unread())[n..]
    {
      RingIndex.Advance(Gone(), n, end);
      used := used - n;
      tail := tail + n;
      if tail == end {
        tail := 0;
      }
    }
  }

  // ------------------------------------------------------- the tracing macros

  function ItemsOfAll(fields: seq<Field>): seq<Item> {
    if fields == [] then [] else ItemsOf(fields[0]) + ItemsOfAll(fields[1..])
  }

  /** One use of the tracing macros: record number, the local filter it names, the object it is
      about, and its data. Objects are addresses; 0 is the null pointer. */
  datatype Call = Call(rec: QsFilter.RecNo, objFilter: nat, obj: nat, fields: seq<Field>)

  ghost predicate Legal(c: Call) {
    forall f | f in c.fields :: InRange(f)
  }

  predicate Admits(filter: seq<bv8>, c: Call)
    requires |filter| == QsFilter.SIZE
  {
    QsFilter.Passes(filter, c.rec) && (c.objFilter == 0 || c.objFilter == c.obj)
  }

  /** The calls that produce a record, in order. */
  ghost function Admitted(filter: seq<bv8>, calls: seq<Call>): (r: seq<Call>)
    requires |filter| == QsFilter.SIZE
    ensures forall c | c in r :: c in calls && Admits(filter, c)
  {
    if calls == [] then []
    else (if Admits(filter, calls[0]) then [calls[0]] else []) + Admitted(filter, calls[1..])
  }

  /** What `calls` put on the wire after a record numbered `seqNo`. */
  ghost function Produced(seqNo: byte, calls: seq<Call>): seq<byte>
    decreases |calls|
  {
    if calls == [] then []
    else RecordWire((seqNo + 1) % 256, calls[0].rec, ItemsOfAll(calls[0].fields))
         + Produced((seqNo + 1) % 256, calls[1..])
  }

  /** The share of a single call in what is produced, and the numbering after it. */
  ghost function Emitted(filter: seq<bv8>, c: Call, seqNo: byte): seq<byte>
    requires |filter| == QsFilter.SIZE
  {
    if Admits(filter, c) then RecordWire((seqNo + 1) % 256, c.rec, ItemsOfAll(c.fields)) else []
  }

  ghost function NextSeq(filter: seq<bv8>, c: Call, seqNo: byte): byte
    requires |filter| == QsFilter.SIZE
  {
    if Admits(filter, c) then (seqNo + 1) % 256 else seqNo
  }

  /** The record bodies of `calls`, numbered consecutively after `seqNo`. */
  ghost function Bodies(seqNo: byte, calls: seq<Call>): seq<seq<byte>>
    decreases |calls|
  {
    if calls == [] then []
    else [Body((seqNo + 1) % 256, calls[0].rec, ItemsOfAll(calls[0].fields))]
         + Bodies((seqNo + 1) % 256, calls[1..])
  }

  method Output(qs: QsTrace, f: Field)
    requires qs.Valid() && InRange(f)
    modifies qs, qs.buf
    ensures qs.Valid() && qs.Added(ItemsOf(f))
  {
    match f {
      case U8Raw(d) => qs.U8_(d);
      case U8U8Raw(d1, d2) => qs.U8U8_(d1, d2);
      case U16Raw(w) => qs.U16_(w);
      case U32Raw(w) => qs.U32_(w);
      case U8(format, d) => qs.U8(format, d);
      case U16(format, w) => qs.U16(format, w);
      case U32(format, w) => qs.U32(format, w);
      case StrRaw(chars) => qs.Str_(chars);
      case Str(chars) => qs.Str(chars);
      case Mem(blk) => qs.Mem(blk);
    }
  }

  /** The code between the begin and the end macro of one record. */
  method Record(qs: QsTrace, rec: byte, fields: seq<Field>)
    requires qs.Valid() && forall f | f in fields :: InRange(f)
    modifies qs, qs.buf
    ensures qs.Settled() && qs.buf == old(qs.buf) && qs.seqNo == (old(qs.seqNo) + 1) % 256
    ensures qs.wire == old(qs.wire) + RecordWire(qs.seqNo, rec, ItemsOfAll(fields))
    ensures qs.Gone() == Max(old(qs.Gone()), |qs.wire| - qs.end)
  {
    qs.BeginRec(rec);
    ghost var w := qs.wire;
    OutputAll(qs, fields);
    ghost var w', body := qs.wire, qs.body;
    qs.EndRec();
    WholeRecord(old(qs.wire), w, w', qs.wire, body, qs.seqNo, rec, ItemsOfAll(fields));
  }

  /** The data of one record. */
  method OutputAll(qs: QsTrace, fields: seq<Field>)
    requires qs.Valid() && forall f | f in fields :: InRange(f)
    modifies qs, qs.buf
    ensures qs.Valid() && qs.buf == old(qs.buf) && qs.seqNo == old(qs.seqNo) && qs.Gone() == old(qs.Gone())
    ensures qs.wire == old(qs.wire) + Wire(ItemsOfAll(fields))
    ensures qs.body == old(qs.body) + Plain(ItemsOfAll(fields))
  {
    ghost var g := qs.Gone();
    var i := 0;
    while i < |fields|
      invariant 0 <= i <= |fields| && qs.Valid() && qs.buf == old(qs.buf)
      invariant qs.seqNo == old(qs.seqNo) && qs.Gone() == g
      invariant qs.wire + Wire(ItemsOfAll(fields[i..])) == old(qs.wire) + Wire(ItemsOfAll(fields))
      invariant qs.body + Plain(ItemsOfAll(fields[i..])) == old(qs.body) + Plain(ItemsOfAll(fields))
    {
      ghost var w, b := qs.wire, qs.body;
      Output(qs, fields[i]);
      NextField(w, b, fields, i);
      i := i + 1;
    }
    assert fields[i..] == [];
  }

  /** A run of tracing macros under fixed filters; `filter` are the bytes of the global one. */
  method Trace(qs: QsTrace, filter: seq<bv8>, calls: seq<Call>)
    requires qs.Settled() && |filter| == QsFilter.SIZE && forall c | c in calls :: Legal(c)
    modifies qs, qs.buf
    ensures qs.Settled() && qs.buf == old(qs.buf)
    ensures qs.wire == old(qs.wire) + Produced(old(qs.seqNo), Admitted(filter, calls))
    ensures qs.Gone() == Max(old(qs.Gone()), |qs.wire| - qs.end)
    decreases |calls|
  {
    if calls != [] {
      var c := calls[0];
      assert Legal(c);
      TraceOne(qs, filter, c);
      ghost var w := qs.wire;
      Trace(qs, filter, calls[1..]);
      NextCall(old(qs.wire), w, qs.wire, old(qs.seqNo), filter, calls);
    }
  }

  /** One use of the macros: the record is only produced if both filters let it through. */
  method TraceOne(qs: QsTrace, filter: seq<bv8>, c: Call)
    requires qs.Settled() && |filter| == QsFilter.SIZE && Legal(c)
    modifies qs, qs.buf
    ensures qs.Settled() && qs.buf == old(qs.buf)
    ensures qs.seqNo == NextSeq(filter, c, old(qs.seqNo))
    ensures qs.wire == old(qs.wire) + Emitted(filter, c, old(qs.seqNo))
    ensures qs.Gone() == Max(old(qs.Gone()), |qs.wire| - qs.end)
  {
    if Admits(filter, c) {
      Record(qs, c.rec, c.fields);
    }
  }

  /** Reading a C string: behind the last character comes the zero. */
  function CharAt(chars: seq<byte>, i: nat): byte {
    if i < |chars| then chars[i] else 0
  }

  /** One more byte of `s` has gone out, on the wire and into the record. */
  lemma OneMore(w0: seq<byte>, w1: seq<byte>, w2: seq<byte>,
                b0: seq<byte>, b1: seq<byte>, b2: seq<byte>, s: seq<byte>, i: nat)
    requires i < |s|
    requires w1 == w0 + Escape(s[..i]) && w2 == w1 + EscapeByte(s[i])
    requires b1 == b0 + s[..i] && b2 == b1 + [s[i]]
    ensures w2 == w0 + Escape(s[..i + 1]) && b2 == b0 + s[..i + 1]
    ensures |Escape(s[..i + 1])| == |Escape(s[..i])| + |EscapeByte(s[i])|
  {
    assert s[..i + 1] == s[..i] + [s[i]];
    EscapeConcat(s[..i], [s[i]]);
    EscapeOne(s[i]);
  }

  lemma SumSnoc(s: seq<byte>, b: byte)
    ensures Sum(s + [b]) == Add8(Sum(s), b)
  {
    SumConcat(s, [b]);
    var none: seq<byte> := [b][1..];
    assert none == [] && Sum([b]) == b;
  }

  /** The cells of a block that does not wrap hold consecutive bytes of the wire. */
  lemma BlockAt(cells: seq<byte>, end: nat, wire: seq<byte>, g: nat, n: nat)
    requires 0 < end <= |cells| && g + n <= |wire| <= g + end && g % end + n <= end
    requires forall i: nat | |wire| - end <= i < |wire| :: cells[i % end] == wire[i]
    ensures cells[g % end..g % end + n] == wire[g..g + n]
  {
    var got := cells[g % end..g % end + n];
    forall j: nat | j < |got| ensures got[j] == wire[g..g + n][j] {
      RingIndex.SameRow(g, j, end);
      assert cells[(g + j) % end] == wire[g + j];
    }
  }

  lemma NextField(w: seq<byte>, b: seq<byte>, fields: seq<Field>, i: nat)
    requires i < |fields|
    ensures w + Wire(ItemsOf(fields[i])) + Wire(ItemsOfAll(fields[i + 1..])) == w + Wire(ItemsOfAll(fields[i..]))
    ensures b + Plain(ItemsOf(fields[i])) + Plain(ItemsOfAll(fields[i + 1..])) == b + Plain(ItemsOfAll(fields[i..]))
  {
    assert fields[i..][0] == fields[i] && fields[i..][1..] == fields[i + 1..];
    WireConcat(ItemsOf(fields[i]), ItemsOfAll(fields[i + 1..]));
    PlainConcat(ItemsOf(fields[i]), ItemsOfAll(fields[i + 1..]));
    Assoc(w, Wire(ItemsOf(fields[i])), Wire(ItemsOfAll(fields[i + 1..])));
    Assoc(b, Plain(ItemsOf(fields[i])), Plain(ItemsOfAll(fields[i + 1..])));
  }

  lemma NextCall(w0: seq<byte>, w1: seq<byte>, w2: seq<byte>, seqNo: byte, f: seq<bv8>, calls: seq<Call>)
    requires |f| == QsFilter.SIZE && calls != []
    requires w1 == w0 + Emitted(f, calls[0], seqNo)
    requires w2 == w1 + Produced(NextSeq(f, calls[0], seqNo), Admitted(f, calls[1..]))
    ensures w2 == w0 + Produced(seqNo, Admitted(f, calls))
  {
    ProducedFirst(seqNo, f, calls);
    Assoc(w0, Emitted(f, calls[0], seqNo), Produced(NextSeq(f, calls[0], seqNo), Admitted(f, calls[1..])));
  }

  lemma ProducedFirst(seqNo: byte, f: seq<bv8>, calls: seq<Call>)
    requires |f| == QsFilter.SIZE && calls != []
    ensures Produced(seqNo, Admitted(f, calls))
            == Emitted(f, calls[0], seqNo) + Produced(NextSeq(f, calls[0], seqNo), Admitted(f, calls[1..]))
  {
    var rest := Admitted(f, calls[1..]);
    if Admits(f, calls[0]) {
      ProducedCons(seqNo, calls[0], rest);
    } else {
      assert Admitted(f, calls) == [] + rest == rest;
    }
  }

  lemma ProducedCons(seqNo: byte, c: Call, rest: seq<Call>)
    ensures Produced(seqNo, [c] + rest)
            == RecordWire((seqNo + 1) % 256, c.rec, ItemsOfAll(c.fields)) + Produced((seqNo + 1) % 256, rest)
  {
    assert ([c] + rest)[1..] == rest;
  }

  lemma WholeRecord(w0: seq<byte>, w1: seq<byte>, w2: seq<byte>, w3: seq<byte>,
                    body: seq<byte>, seqNo: byte, rec: byte, items: seq<Item>)
    requires w1 == w0 + EscapeByte(seqNo) + [rec] && w2 == w1 + Wire(items)
    requires body == [seqNo, rec] + Plain(items)
    requires w3 == w2 + EscapeByte(Trailer(body)) + [QS_FRAME]
    ensures w3 == w0 + RecordWire(seqNo, rec, items)
  {
    Prepend(w0, EscapeByte(seqNo), [rec], Wire(items), EscapeByte(Trailer(body)), [QS_FRAME]);
  }

  lemma Prepend(w: seq<byte>, a: seq<byte>, b: seq<byte>, c: seq<byte>, d: seq<byte>, e: seq<byte>)
    ensures w + a + b + c + d + e == w + (a + b + c + d + e)
  {}

  lemma OneMoreRaw(w0: seq<byte>, w1: seq<byte>, w2: seq<byte>, s: seq<byte>, i: nat)
    requires i < |s| && w1 == w0 + s[..i] && w2 == w1 + [s[i]]
    ensures w2 == w0 + s[..i + 1]
  {
    assert s[..i + 1] == s[..i] + [s[i]];
  }

  /** A data element that went out in two parts. */
  lemma TwoParts(w0: seq<byte>, w1: seq<byte>, w2: seq<byte>,
                 b0: seq<byte>, b1: seq<byte>, b2: seq<byte>, s: seq<byte>, t: seq<byte>)
    requires w1 == w0 + Escape(s) && w2 == w1 + Escape(t)
    requires b1 == b0 + s && b2 == b1 + t
    ensures w2 == w0 + Wire([Data(s + t)]) && b2 == b0 + Plain([Data(s + t)])
    ensures |Wire([Data(s + t)])| == |Escape(s)| + |Escape(t)|
  {
    DataItem(s + t);
    EscapeConcat(s, t);
    Assoc(w0, Escape(s), Escape(t));
    Assoc(b0, s, t);
  }

  lemma TextItem(chars: seq<byte>)
    ensures Wire([Text(chars)]) == chars + [0] == Plain([Text(chars)])
  {
    var none := [Text(chars)][1..];
    assert none == [] && chars + [0] + [] == chars + [0];
  }

  lemma StrItems(w0: seq<byte>, w1: seq<byte>, w2: seq<byte>, chars: seq<byte>, t: seq<byte>)
    requires w1 == w0 + [STR_T] && w2 == w1 + t
    requires t == Wire([Text(chars)])
    ensures w2 == w0 + Wire([Data([STR_T]), Text(chars)])
    ensures w2 == w0 + Plain([Data([STR_T]), Text(chars)])
    ensures |Wire([Data([STR_T]), Text(chars)])| == |chars| + 2
  {
    TextItem(chars);
    assert [Data([STR_T]), Text(chars)][1..] == [Text(chars)];
    EscapeOne(STR_T);
    Assoc(w0, [STR_T], t);
  }

  /** Escaping a short sequence, written out. */
  lemma EscapeBytes(s: seq<byte>)
    requires 1 <= |s| <= 2
    ensures |s| == 1 ==> Escape(s) == EscapeByte(s[0])
    ensures |s| == 2 ==> Escape(s) == EscapeByte(s[0]) + EscapeByte(s[1])
  {
    var n := |s| - 1;
    assert s == s[..n] + [s[n]];
    EscapeConcat(s[..n], [s[n]]);
    EscapeOne(s[n]);
    if n >= 1 {
      EscapeBytes(s[..n]);
    }
  }

  lemma DataItem(bytes: seq<byte>)
    ensures Wire([Data(bytes)]) == Escape(bytes) && Plain([Data(bytes)]) == bytes
  {
    var none := [Data(bytes)][1..];
    assert none == [] && Escape(bytes) + [] == Escape(bytes) && bytes + [] == bytes;
  }
}
