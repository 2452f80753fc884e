/** Trace records as the QS output functions build them. Most data goes through the escaping
    macro, but the record number and the characters of strings are inserted as they are
    (src/qs/qs.cpp, beginRec, str_ and str). This module settles when that is harmless. */
module QsRecord {
  import opened Arithmetic
  import opened QsFraming

  /** One piece of a record: bytes inserted with escaping, or a string inserted raw and closed
      by a zero byte. */
  datatype Item = Data(bytes: seq<byte>) | Text(chars: seq<byte>)

  /** The bytes an item stands for. */
  function PlainOf(it: Item): seq<byte> {
    match it
    case Data(bytes) => bytes
    case Text(chars) => chars + [0]
  }

  /** The bytes an item puts into the ring buffer. */
  function WireOf(it: Item): seq<byte> {
    match it
    case Data(bytes) => Escape(bytes)
    case Text(chars) => chars + [0]
  }

  function Plain(items: seq<Item>): seq<byte> {
    if items == [] then [] else PlainOf(items[0]) + Plain(items[1..])
  }

  function Wire(items: seq<Item>): seq<byte> {
    if items == [] then [] else WireOf(items[0]) + Wire(items[1..])
  }

  /** Sequence number, record number, data: what the checksum of a record covers. */
  function Body(seqNo: byte, rec: byte, items: seq<Item>): seq<byte> {
    [seqNo, rec] + Plain(items)
  }

  /** The wire image from beginRec to endRec. */
  function RecordWire(seqNo: byte, rec: byte, items: seq<Item>): seq<byte> {
    EscapeByte(seqNo) + [rec] + Wire(items) + EscapeByte(Trailer(Body(seqNo, rec, items))) + [QS_FRAME]
  }

  lemma {:induction false} WireConcat(a: seq<Item>, b: seq<Item>)
    ensures Wire(a + b) == Wire(a) + Wire(b)
    decreases |a|
  {
    if a == [] {
      assert a + b == b;
    } else {
      assert (a + b)[1..] == a[1..] + b;
      WireConcat(a[1..], b);
    }
  }

  lemma {:induction false} PlainConcat(a: seq<Item>, b: seq<Item>)
    ensures Plain(a + b) == Plain(a) + Plain(b)
    decreases |a|
  {
    if a == [] {
      assert a + b == b;
    } else {
      assert (a + b)[1..] == a[1..] + b;
      PlainConcat(a[1..], b);
    }
  }

  ghost predicate CleanText(it: Item) {
    it.Text? ==> IsClean(it.chars)
  }

  /** Every string of the record avoids the characters 0x7D and 0x7E. */
  ghost predicate CleanTexts(items: seq<Item>) {
    forall i | 0 <= i < |items| :: CleanText(items[i])
  }

  // ------------------------------------------------ clean records are encoded records

  lemma {:induction false} EscapeOfClean(s: seq<byte>)
    requires IsClean(s)
    ensures Escape(s) == s
    decreases |s|
  {
    if s != [] {
      assert !IsControl(s[0]);
      forall i | 0 <= i < |s[1..]| ensures !IsControl(s[1..][i]) {
        assert s[1..][i] == s[i + 1];
      }
      EscapeOfClean(s[1..]);
    }
  }

  lemma {:induction false} WireOfCleanItems(items: seq<Item>)
    requires CleanTexts(items)
    ensures Wire(items) == Escape(Plain(items))
    decreases |items|
  {
    if items != [] {
      assert CleanText(items[0]);
      if items[0].Text? {
        EscapeOfClean(items[0].chars + [0]);
      }
      forall i | 0 <= i < |items[1..]| ensures CleanText(items[1..][i]) {
        assert CleanText(items[i + 1]);
      }
      WireOfCleanItems(items[1..]);
      EscapeConcat(PlainOf(items[0]), Plain(items[1..]));
    }
  }

  lemma CleanRecordIsEncoded(seqNo: byte, rec: byte, items: seq<Item>)
    requires !IsControl(rec) && CleanTexts(items)
    ensures RecordWire(seqNo, rec, items) == Encode(Body(seqNo, rec, items))
  {
    var body := Body(seqNo, rec, items);
    WireOfCleanItems(items);
    EscapeConcat([seqNo], [rec]);
    assert [seqNo] + [rec] == [seqNo, rec];
    EscapeConcat([seqNo, rec], Plain(items));
    EscapeConcat(body, [Trailer(body)]);
    EscapeOne(seqNo);
    EscapeOne(rec);
    EscapeOne(Trailer(body));
  }

  // ------------------------------------ a raw control byte always costs the record

  /** How many data bytes a decoder takes out of `s`; control bytes that act as such yield none. */
  ghost function Yield(esc: bool, s: seq<byte>): nat
    decreases |s|
  {
    if s == [] then 0
    else if !esc && IsControl(s[0]) then Yield(s[0] == QS_ESC, s[1..])
    else 1 + Yield(false, s[1..])
  }

  ghost function DataIn(frames: seq<Frame>): nat {
    if frames == [] then 0 else DataIn(frames[..|frames| - 1]) + |frames[|frames| - 1].data|
  }

  ghost function Taken(d: Decoder): nat {
    DataIn(d.frames) + |d.data|
  }

  lemma {:induction false} FeedTakesYield(d: Decoder, s: seq<byte>)
    ensures Taken(Feed(d, s)) == Taken(d) + Yield(d.esc, s)
    decreases |s|
  {
    if s != [] {
      var e := Step(d, s[0]);
      if !d.esc && s[0] == QS_FRAME {
        assert e.frames[..|e.frames| - 1] == d.frames;
      }
      FeedTakesYield(e, s[1..]);
    }
  }

  /** If `a` ends in a plain byte the count restarts cleanly behind it. */
  lemma {:induction false} YieldConcat(esc: bool, a: seq<byte>, b: seq<byte>)
    requires if a == [] then !esc else a[|a| - 1] != QS_ESC
    ensures Yield(esc, a + b) == Yield(esc, a) + Yield(false, b)
    decreases |a|
  {
    if a == [] {
      assert a + b == b;
    } else {
      assert (a + b)[1..] == a[1..] + b;
      YieldConcat(!esc && a[0] == QS_ESC, a[1..], b);
    }
  }

  lemma {:induction false} YieldOfEscape(s: seq<byte>)
    ensures Yield(false, Escape(s)) == |s|
  {
    FeedEscape(START, s);
    FeedTakesYield(START, Escape(s));
    assert START.data + s == s;
  }

  lemma {:induction false} YieldOfRaw(esc: bool, s: seq<byte>)
    ensures Yield(esc, s) <= |s|
    ensures !esc && !IsClean(s) ==> Yield(esc, s) < |s|
    decreases |s|
  {
    if s != [] {
      YieldOfRaw(!esc && s[0] == QS_ESC, s[1..]);
      if !esc && !IsClean(s) && !IsControl(s[0]) {
        var i :| 0 <= i < |s| && IsControl(s[i]);
        assert s[1..][i - 1] == s[i];
      }
    }
  }

  lemma YieldOfItem(it: Item, rest: seq<byte>)
    ensures Yield(false, WireOf(it) + rest) <= |PlainOf(it)| + Yield(false, rest)
    ensures !CleanText(it) ==> Yield(false, WireOf(it) + rest) < |PlainOf(it)| + Yield(false, rest)
  {
    match it
    case Data(bytes) =>
      EscapeIsStuffed(bytes);
      YieldConcat(false, Escape(bytes), rest);
      YieldOfEscape(bytes);
    case Text(chars) =>
      var s := chars + [0];
      YieldConcat(false, s, rest);
      YieldOfRaw(false, s);
      if !IsClean(chars) {
        var i :| 0 <= i < |chars| && IsControl(chars[i]);
        assert s[i] == chars[i];
      }
  }

  lemma {:induction false} YieldOfItems(items: seq<Item>, rest: seq<byte>)
    ensures Yield(false, Wire(items) + rest) <= |Plain(items)| + Yield(false, rest)
    ensures !CleanTexts(items) ==> Yield(false, Wire(items) + rest) < |Plain(items)| + Yield(false, rest)
    decreases |items|
  {
    if items == [] {
      assert Wire(items) + rest == rest;
    } else {
      var tail := Wire(items[1..]) + rest;
      assert Wire(items) + rest == WireOf(items[0]) + tail;
      YieldOfItem(items[0], tail);
      YieldOfItems(items[1..], rest);
      if !CleanTexts(items) && CleanText(items[0]) {
        var i :| 0 <= i < |items| && !CleanText(items[i]);
        assert items[1..][i - 1] == items[i];
      }
    }
  }

  lemma {:induction false} FramesStay(d: Decoder, s: seq<byte>)
    ensures d.frames <= Feed(d, s).frames
    decreases |s|
  {
    if s != [] {
      FramesStay(Step(d, s[0]), s[1..]);
    }
  }

  /** What the decoder has gathered becomes the beginning of its first frame. */
  lemma {:induction false} FirstFrameKeepsData(d: Decoder, s: seq<byte>)
    requires d.frames == []
    ensures var e := Feed(d, s);
            d.data <= (if e.frames == [] then e.data else e.frames[0].data)
    decreases |s|
  {
    if s != [] {
      var e := Step(d, s[0]);
      if e.frames == [] {
        FirstFrameKeepsData(e, s[1..]);
      } else {
        FramesStay(e, s[1..]);
      }
    }
  }

  lemma DirtyTextLosesRecord(seqNo: byte, rec: byte, items: seq<Item>)
    requires !IsControl(rec) && !CleanTexts(items)
    ensures Feed(START, RecordWire(seqNo, rec, items)).frames
            != [Frame(Sealed(Body(seqNo, rec, items)), true)]
  {
    var head := EscapeByte(seqNo) + [rec];
    var t := Trailer(Body(seqNo, rec, items));
    var rest := EscapeByte(t) + [QS_FRAME];
    YieldOfHeader(seqNo, rec, Wire(items) + rest);
    YieldOfItems(items, rest);
    YieldOfTrailer(t);
    assert RecordWire(seqNo, rec, items) == head + (Wire(items) + rest);
    FeedTakesYield(START, RecordWire(seqNo, rec, items));
    TakenByOneFrame(Frame(Sealed(Body(seqNo, rec, items)), true));
  }

  lemma YieldOfHeader(seqNo: byte, rec: byte, rest: seq<byte>)
    requires !IsControl(rec)
    ensures Yield(false, EscapeByte(seqNo) + [rec] + rest) == 2 + Yield(false, rest)
  {
    EscapeConcat([seqNo], [rec]);
    EscapeOne(seqNo);
    EscapeOne(rec);
    assert [seqNo] + [rec] == [seqNo, rec];
    YieldOfEscape([seqNo, rec]);
    YieldConcat(false, EscapeByte(seqNo) + [rec], rest);
  }

  lemma YieldOfTrailer(t: byte)
    ensures Yield(false, EscapeByte(t) + [QS_FRAME]) == 1
  {
    EscapeOne(t);
    EscapeIsStuffed([t]);
    YieldOfEscape([t]);
    YieldConcat(false, EscapeByte(t), [QS_FRAME]);
    var none: seq<byte> := [QS_FRAME][1..];
    assert none == [];
  }

  lemma TakenByOneFrame(f: Frame)
    ensures DataIn([f]) == |f.data|
  {
    assert [f][..0] == [];
  }

  lemma RecordShape(seqNo: byte, rec: byte, items: seq<Item>)
    ensures RecordWire(seqNo, rec, items)
            == EscapeByte(seqNo) + ([rec] + (Wire(items) + (EscapeByte(Trailer(Body(seqNo, rec, items))) + [QS_FRAME])))
  {
    Regroup(EscapeByte(seqNo), [rec], Wire(items), EscapeByte(Trailer(Body(seqNo, rec, items))), [QS_FRAME]);
  }

  lemma Regroup(a: seq<byte>, b: seq<byte>, c: seq<byte>, d: seq<byte>, e: seq<byte>)
    ensures a + b + c + d + e == a + (b + (c + (d + e)))
  {}

  lemma RawFrameAsRecordLosesRecord(seqNo: byte, items: seq<Item>)
    ensures Feed(START, RecordWire(seqNo, QS_FRAME, items)).frames
            != [Frame(Sealed(Body(seqNo, QS_FRAME, items)), true)]
  {
    var e := EscapeByte(seqNo);
    var rest := Wire(items) + (EscapeByte(Trailer(Body(seqNo, QS_FRAME, items))) + [QS_FRAME]);
    RecordShape(seqNo, QS_FRAME, items);
    FeedConcat(START, e, [QS_FRAME] + rest);
    FeedEscapedByte(START, seqNo);
    var d := Feed(START, e);
    assert ([QS_FRAME] + rest)[1..] == rest;
    FramesStay(Step(d, QS_FRAME), rest);
    assert Step(d, QS_FRAME).frames[0].data == [] + [seqNo];
  }

  lemma RawEscapeTakesNextByte(seqNo: byte, rest: seq<byte>) returns (d: Decoder)
    requires rest != []
    ensures d.data == [seqNo, FlipEsc(rest[0])] && d.frames == [] && !d.esc
    ensures Feed(START, EscapeByte(seqNo) + ([QS_ESC] + rest)) == Feed(d, rest[1..])
  {
    var e := EscapeByte(seqNo);
    FeedConcat(START, e, [QS_ESC] + rest);
    FeedEscapedByte(START, seqNo);
    assert ([QS_ESC] + rest)[1..] == rest;
    var c := Step(Feed(START, e), QS_ESC);
    assert Feed(Feed(START, e), [QS_ESC] + rest) == Feed(c, rest);
    d := Step(c, rest[0]);
  }

  lemma RawEscapeAsRecordLosesRecord(seqNo: byte, items: seq<Item>)
    ensures Feed(START, RecordWire(seqNo, QS_ESC, items)).frames
            != [Frame(Sealed(Body(seqNo, QS_ESC, items)), true)]
  {
    var body := Body(seqNo, QS_ESC, items);
    var end := EscapeByte(Trailer(body)) + [QS_FRAME];
    var rest := Wire(items) + end;
    RecordShape(seqNo, QS_ESC, items);
    var d := RawEscapeTakesNextByte(seqNo, rest);
    YieldOfItems(items, end);
    YieldOfTrailer(Trailer(body));
    var sealed := Sealed(body);
    assert |sealed| == |Plain(items)| + 3 && sealed[1] == QS_ESC;
    SwallowedByteShows(d, rest, sealed);
  }

  /** A swallowed byte either turns into something else than the escape it replaced, or is
      missing from the count. */
  lemma SwallowedByteShows(d: Decoder, rest: seq<byte>, sealed: seq<byte>)
    requires rest != [] && |sealed| >= 2 && sealed[1] == QS_ESC
    requires |d.data| == 2 && d.data[1] == FlipEsc(rest[0]) && d.frames == [] && !d.esc
    requires Yield(false, rest) <= |sealed| - 2
    ensures Feed(d, rest[1..]).frames != [Frame(sealed, true)]
  {
    if rest[0] == 0x5D {
      FeedTakesYield(d, rest[1..]);
      TakenByOneFrame(Frame(sealed, true));
    } else {
      FirstFrameKeepsData(d, rest[1..]);
      FlipIsEscapeOnlyFor5D(rest[0]);
    }
  }

  lemma FlipIsEscapeOnlyFor5D(b: byte)
    ensures FlipEsc(b) == QS_ESC <==> b == 0x5D
  {}

  /** A receiver gets a record back, intact and good, exactly if its record number is not one of
      the two control bytes and none of its strings contains one. */
  lemma RecordRecoveredIff(seqNo: byte, rec: byte, items: seq<Item>)
    ensures Feed(START, RecordWire(seqNo, rec, items))
              == START.(frames := [Frame(Sealed(Body(seqNo, rec, items)), true)])
            <==> !IsControl(rec) && CleanTexts(items)
  {
    if rec == QS_FRAME {
      RawFrameAsRecordLosesRecord(seqNo, items);
    } else if rec == QS_ESC {
      RawEscapeAsRecordLosesRecord(seqNo, items);
    } else if CleanTexts(items) {
      CleanRecordIsEncoded(seqNo, rec, items);
      DecodeOne(START, Body(seqNo, rec, items));
    } else {
      DirtyTextLosesRecord(seqNo, rec, items);
    }
  }
}
