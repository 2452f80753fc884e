/** The byte framing shared by the QS trace output and the QS receive channel
    (src/qs_pkg.h and the decoding loop of QS::rxParse in src/qs/qs_rx.cpp). */
module QsFraming {
  import opened Arithmetic

  /** Addition in 8-bit arithmetic, where the sum wraps at 256. */
  function Add8(a: byte, b: byte): byte {
    if a + b < 256 then a + b else a + b - 256
  }

  lemma AddWraps(a: byte, b: byte)
    ensures Add8(a, b) == (a + b) % 256
  {}

  const QS_FRAME: byte := 0x7E
  const QS_ESC: byte := 0x7D
  const QS_GOOD_CHKSUM: byte := 0xFF

  /** Exclusive-or with the escape modifier 0x20. */
  function FlipEsc(b: byte): byte {
    if (b / 0x20) % 2 == 0 then b + 0x20 else b - 0x20
  }

  lemma FlipEscIsXor(b: bv8)
    ensures FlipEsc(b as int) == (b ^ 0x20) as int
    ensures 0xFF - b as int == (b ^ 0xFF) as int
  {}

  /** The two bytes with a meaning of their own on the wire. */
  predicate IsControl(b: byte) {
    b == QS_FRAME || b == QS_ESC
  }

  /** No byte of `s` is a control byte. */
  ghost predicate IsClean(s: seq<byte>) {
    forall i | 0 <= i < |s| :: !IsControl(s[i])
  }

  // ---------------------------------------------------------------- encoder

  /** What the escaping insertion macro puts on the wire for one byte. */
  function EscapeByte(b: byte): seq<byte> {
    if !IsControl(b) then [b] else [QS_ESC, FlipEsc(b)]
  }

  function Escape(s: seq<byte>): seq<byte> {
    if s == [] then [] else EscapeByte(s[0]) + Escape(s[1..])
  }

  /** The additive checksum over unescaped bytes, in 8-bit arithmetic. */
  function Sum(s: seq<byte>): byte {
    if s == [] then 0 else Add8(s[0], Sum(s[1..]))
  }

  /** The byte that closes a record: the inverted checksum. */
  function Trailer(body: seq<byte>): byte {
    0xFF - Sum(body)
  }

  /** What a receiver sees of a record: the body followed by its trailer. */
  function Sealed(body: seq<byte>): seq<byte> {
    body + [Trailer(body)]
  }

  /** A whole record on the wire. */
  function Encode(body: seq<byte>): seq<byte> {
    Escape(Sealed(body)) + [QS_FRAME]
  }

  function Stream(bodies: seq<seq<byte>>): seq<byte> {
    if bodies == [] then [] else Encode(bodies[0]) + Stream(bodies[1..])
  }

  // ---------------------------------------------------------------- decoder

  datatype Frame = Frame(data: seq<byte>, good: bool)

  /** The decoding state of rxParse: the escape flag, the running checksum, the bytes handed to
      the record parser since the last frame, and the frames completed so far. */
  datatype Decoder = Decoder(esc: bool, chksum: byte, data: seq<byte>, frames: seq<Frame>)

  const START := Decoder(false, 0, [], [])

  function Step(d: Decoder, b: byte): Decoder {
    if d.esc then
      var c := FlipEsc(b);
      d.(esc := false, chksum := Add8(d.chksum, c), data := d.data + [c])
    else if b == QS_ESC then
      d.(esc := true)
    else if b == QS_FRAME then
      Decoder(false, 0, [], d.frames + [Frame(d.data, d.chksum == QS_GOOD_CHKSUM)])
    else
      d.(chksum := Add8(d.chksum, b), data := d.data + [b])
  }

  function Feed(d: Decoder, s: seq<byte>): Decoder
    decreases |s|
  {
    if s == [] then d else Feed(Step(d, s[0]), s[1..])
  }

  /** The frames a receiver should report for intact records. */
  function GoodFrames(bodies: seq<seq<byte>>): seq<Frame> {
    if bodies == [] then [] else [Frame(Sealed(bodies[0]), true)] + GoodFrames(bodies[1..])
  }

  // ------------------------------------------------- concatenation of the folds

  lemma AddAssociates(a: byte, b: byte, c: byte)
    ensures Add8(Add8(a, b), c) == Add8(a, Add8(b, c))
  {}

  lemma AddSeparates(a: byte, x: byte, y: byte)
    ensures Add8(a, x) == Add8(a, y) <==> x == y
    ensures Add8(x, a) == Add8(y, a) <==> x == y
  {}

  lemma {:induction false} FeedConcat(d: Decoder, a: seq<byte>, b: seq<byte>)
    ensures Feed(d, a + b) == Feed(Feed(d, a), b)
    decreases |a|
  {
    if a == [] {
      assert a + b == b;
    } else {
      assert (a + b)[1..] == a[1..] + b;
      FeedConcat(Step(d, a[0]), a[1..], b);
    }
  }

  lemma {:induction false} SumConcat(a: seq<byte>, b: seq<byte>)
    ensures Sum(a + b) == Add8(Sum(a), Sum(b))
    decreases |a|
  {
    if a == [] {
      assert a + b == b;
    } else {
      assert (a + b)[1..] == a[1..] + b;
      SumConcat(a[1..], b);
      AddAssociates(a[0], Sum(a[1..]), Sum(b));
    }
  }

  /** Escaping works byte by byte, so it distributes over concatenation. */
  lemma {:induction false} EscapeConcat(a: seq<byte>, b: seq<byte>)
    ensures Escape(a + b) == Escape(a) + Escape(b)
    decreases |a|
  {
    if a == [] {
      assert a + b == b;
    } else {
      assert (a + b)[1..] == a[1..] + b;
      EscapeConcat(a[1..], b);
    }
  }

  lemma {:induction false} StreamConcat(a: seq<seq<byte>>, b: seq<seq<byte>>)
    ensures Stream(a + b) == Stream(a) + Stream(b)
    decreases |a|
  {
    if a == [] {
      assert a + b == b;
    } else {
      assert (a + b)[1..] == a[1..] + b;
      StreamConcat(a[1..], b);
    }
  }

  lemma {:induction false} FramesConcat(a: seq<seq<byte>>, b: seq<seq<byte>>)
    ensures GoodFrames(a + b) == GoodFrames(a) + GoodFrames(b)
    decreases |a|
  {
    if a == [] {
      assert a + b == b;
    } else {
      assert (a + b)[1..] == a[1..] + b;
      FramesConcat(a[1..], b);
    }
  }

  /** A receiver that adds up the bytes notices every change of a single one. */
  lemma SumSeesOneByte(s: seq<byte>, i: nat, x: byte)
    requires i < |s|
    ensures Sum(s[i := x]) == Sum(s) <==> x == s[i]
  {
    SumAt(s[..i], s[i], s[i + 1..]);
    SumAt(s[..i], x, s[i + 1..]);
    SplitAt(s, i, x);
    var a, c := Sum(s[..i]), Sum(s[i + 1..]);
    AddSeparates(a, Add8(s[i], c), Add8(x, c));
    AddSeparates(c, s[i], x);
  }

  lemma SplitAt(s: seq<byte>, i: nat, x: byte)
    requires i < |s|
    ensures s == s[..i] + ([s[i]] + s[i + 1..]) && s[i := x] == s[..i] + ([x] + s[i + 1..])
  {}

  lemma SumAt(p: seq<byte>, b: byte, q: seq<byte>)
    ensures Sum(p + ([b] + q)) == Add8(Sum(p), Add8(b, Sum(q)))
  {
    SumConcat(p, [b] + q);
    assert ([b] + q)[1..] == q;
  }

  /** The control bytes of `s`. */
  ghost function Controls(s: seq<byte>): set<nat> {
    set i: nat | i < |s| && IsControl(s[i])
  }

  /** Escaping costs exactly one byte for each control byte. */
  lemma {:induction false} EscapeLength(s: seq<byte>)
    ensures |Escape(s)| == |s| + |Controls(s)|
    decreases |s|
  {
    if s == [] {
      assert Controls(s) == {};
    } else {
      var n := |s| - 1;
      assert s == s[..n] + [s[n]];
      EscapeLength(s[..n]);
      EscapeConcat(s[..n], [s[n]]);
      EscapeOne(s[n]);
      ControlsSnoc(s[..n], s[n]);
    }
  }

  lemma ControlsSnoc(s: seq<byte>, b: byte)
    ensures |Controls(s + [b])| == |Controls(s)| + (if IsControl(b) then 1 else 0)
  {
    assert Controls(s + [b]) == Controls(s) + (if IsControl(b) then {|s|} else {});
  }

  lemma EscapeOne(b: byte)
    ensures Escape([b]) == EscapeByte(b)
  {
    var rest: seq<byte> := [b][1..];
    assert rest == [] && EscapeByte(b) + [] == EscapeByte(b);
  }

  // ------------------------------------------------------------ round trip

  lemma FeedEscapedByte(d: Decoder, b: byte)
    requires !d.esc
    ensures Feed(d, EscapeByte(b)) == d.(chksum := Add8(d.chksum, b), data := d.data + [b])
  {
    if IsControl(b) {
      var w := EscapeByte(b);
      var e := Step(d, QS_ESC);
      assert w[1..] == [FlipEsc(b)];
      assert Feed(e, [FlipEsc(b)]) == Feed(Step(e, FlipEsc(b)), []);
    }
  }

  /** Decoding undoes escaping, whatever the decoder has already gathered. */
  lemma {:induction false} FeedEscape(d: Decoder, s: seq<byte>)
    requires !d.esc
    ensures Feed(d, Escape(s)) == d.(chksum := Add8(d.chksum, Sum(s)), data := d.data + s)
    decreases |s|
  {
    if s == [] {
      assert d.data + s == d.data;
    } else {
      FeedEscapedByte(d, s[0]);
      FeedConcat(d, EscapeByte(s[0]), Escape(s[1..]));
      FeedEscape(Feed(d, EscapeByte(s[0])), s[1..]);
      AddAssociates(d.chksum, s[0], Sum(s[1..]));
      assert d.data + [s[0]] + s[1..] == d.data + s;
    }
  }

  /** A trailing byte brings the checksum of a record to the good value exactly if it is the
      trailer that endRec writes. */
  lemma TrailerIsTheOnlyGoodByte(body: seq<byte>, t: byte)
    ensures Sum(body + [t]) == QS_GOOD_CHKSUM <==> t == Trailer(body)
  {
    SumConcat(body, [t]);
  }

  /** Between records, one encoded record yields one good frame and leaves the decoder fresh. */
  lemma DecodeOne(d: Decoder, body: seq<byte>)
    requires !d.esc && d.chksum == 0 && d.data == []
    ensures Feed(d, Encode(body)) == d.(frames := d.frames + [Frame(Sealed(body), true)])
  {
    var s := Sealed(body);
    FeedEscape(d, s);
    TrailerIsTheOnlyGoodByte(body, Trailer(body));
    FeedConcat(d, Escape(s), [QS_FRAME]);
    var m := Feed(d, Escape(s));
    assert Feed(m, [QS_FRAME]) == Step(m, QS_FRAME);
    assert [] + s == s;
  }

  /** Every list of records comes back from its stream exactly, in order, all frames good. */
  lemma {:induction false} DecodeStream(d: Decoder, bodies: seq<seq<byte>>)
    requires !d.esc && d.chksum == 0 && d.data == []
    ensures Feed(d, Stream(bodies)) == d.(frames := d.frames + GoodFrames(bodies))
    decreases |bodies|
  {
    if bodies == [] {
      assert d.frames + GoodFrames(bodies) == d.frames;
    } else {
      DecodeOne(d, bodies[0]);
      FeedConcat(d, Encode(bodies[0]), Stream(bodies[1..]));
      var f := Frame(Sealed(bodies[0]), true);
      DecodeStream(d.(frames := d.frames + [f]), bodies[1..]);
      assert d.frames + [f] + GoodFrames(bodies[1..]) == d.frames + ([f] + GoodFrames(bodies[1..]));
    }
  }

  // ------------------------------------------- what the encoder can produce

  /** No frame byte, and every escape byte is followed by one of the two flipped controls. */
  ghost predicate IsStuffed(s: seq<byte>) {
    forall i | 0 <= i < |s| :: StuffedAt(s, i)
  }

  ghost predicate StuffedAt(s: seq<byte>, i: nat)
    requires i < |s|
  {
    s[i] != QS_FRAME && (s[i] == QS_ESC ==> i + 1 < |s| && s[i + 1] in [0x5D, 0x5E])
  }

  lemma StuffedHasNoFrame(s: seq<byte>)
    requires IsStuffed(s)
    ensures QS_FRAME !in s
  {
    forall i | 0 <= i < |s| ensures s[i] != QS_FRAME {
      assert StuffedAt(s, i);
    }
  }

  lemma StuffedTail(s: seq<byte>, n: nat)
    requires IsStuffed(s) && n <= |s|
    ensures IsStuffed(s[n..])
  {
    forall i | 0 <= i < |s[n..]| ensures StuffedAt(s[n..], i) {
      assert StuffedAt(s, n + i);
    }
  }

  lemma {:induction false} EscapeIsStuffed(s: seq<byte>)
    ensures IsStuffed(Escape(s))
    ensures s != [] ==> Escape(s) != [] && Escape(s)[|Escape(s)| - 1] != QS_ESC
    ensures s == [] ==> Escape(s) == []
    decreases |s|
  {
    if s != [] {
      EscapeIsStuffed(s[1..]);
      var e, t := EscapeByte(s[0]), Escape(s[1..]);
      forall i | 0 <= i < |e + t|
        ensures StuffedAt(e + t, i)
      {
        assert i >= |e| ==> StuffedAt(t, i - |e|);
      }
    }
  }

  lemma {:induction false} StuffedIsEscaped(s: seq<byte>) returns (p: seq<byte>)
    requires IsStuffed(s)
    ensures Escape(p) == s
    decreases |s|
  {
    if s == [] {
      p := [];
    } else if s[0] == QS_ESC {
      assert StuffedAt(s, 0);
      StuffedTail(s, 2);
      var q := StuffedIsEscaped(s[2..]);
      p := [FlipEsc(s[1])] + q;
      assert s == EscapeByte(p[0]) + s[2..] && p[1..] == q;
    } else {
      assert StuffedAt(s, 0);
      StuffedTail(s, 1);
      var q := StuffedIsEscaped(s[1..]);
      p := [s[0]] + q;
      assert s == EscapeByte(p[0]) + s[1..] && p[1..] == q;
    }
  }

  /** The encoder's outputs are exactly the stuffed strings: encoding after decoding restores a
      string just when it is stuffed. With FeedEscape this makes the two directions inverse. */
  lemma StuffedIffEncoderOutput(s: seq<byte>)
    ensures IsStuffed(s) <==> Escape(Feed(START, s).data) == s
  {
    EscapeIsStuffed(Feed(START, s).data);
    if IsStuffed(s) {
      var p := StuffedIsEscaped(s);
      FeedEscape(START, p);
      assert START.data + p == p;
    }
  }
}
