/** What a receiver makes of a stream it did not see from the beginning, or that was damaged on
    the way: the ring buffer overwrites old trace data, so both happen (src/qs/qs.cpp, initBuf
    and endRec). */
module QsResync {
  import opened Arithmetic
  import opened QsFraming

  ghost predicate Fresh(d: Decoder) {
    !d.esc && d.chksum == 0 && d.data == []
  }

  /** Without a frame byte in the input no frame is completed. */
  lemma {:induction false} NoFrameByte(d: Decoder, s: seq<byte>)
    requires QS_FRAME !in s
    ensures Feed(d, s).frames == d.frames
    decreases |s|
  {
    if s != [] {
      NoFrameByte(Step(d, s[0]), s[1..]);
    }
  }

  lemma LastByteDecidesEscape(d: Decoder, s: seq<byte>)
    requires s != [] && s[|s| - 1] != QS_ESC
    ensures !Feed(d, s).esc
  {
    var n := |s| - 1;
    assert s == s[..n] + [s[n]];
    FeedConcat(d, s[..n], [s[n]]);
    var m := Feed(d, s[..n]);
    assert Feed(m, [s[n]]) == Feed(Step(m, s[n]), []);
  }

  /** The tail of one encoded record completes one frame, whatever the decoder held before; the
      one exception is a frame byte on its own right after a dangling escape. */
  lemma TailOfRecord(d: Decoder, body: seq<byte>, c: nat)
    requires c < |Encode(body)|
    requires d.esc ==> c < |Encode(body)| - 1
    ensures var e := Feed(d, Encode(body)[c..]);
            Fresh(e) && |e.frames| == |d.frames| + 1 && e.frames[..|d.frames|] == d.frames
  {
    var w := Escape(Sealed(body));
    EscapeIsStuffed(Sealed(body));
    var u := w[c..];
    assert Encode(body)[c..] == u + [QS_FRAME];
    FeedConcat(d, u, [QS_FRAME]);
    StuffedTail(w, c);
    StuffedHasNoFrame(u);
    NoFrameByte(d, u);
    if u != [] {
      LastByteDecidesEscape(d, u);
    }
    var m := Feed(d, u);
    assert Feed(m, [QS_FRAME]) == Feed(Step(m, QS_FRAME), []);
  }

  lemma StreamOne(body: seq<byte>)
    ensures Stream([body]) == Encode(body)
  {
    var rest: seq<seq<byte>> := [body][1..];
    assert rest == [];
    assert Encode(body) + [] == Encode(body);
  }

  /** `t` is empty or a proper tail of the record before the k-th. */
  ghost predicate IsRestOfRecord(bodies: seq<seq<byte>>, k: nat, t: seq<byte>) {
    t != [] ==> 0 < k <= |bodies| && IsTail(t, Encode(bodies[k - 1]))
  }

  ghost predicate IsTail(t: seq<byte>, w: seq<byte>) {
    |t| < |w| && t == w[|w| - |t|..]
  }

  /** Where a cut at offset `c` falls: behind it come the rest `t` of at most one record and then
      the records from `k` on. */
  lemma {:induction false} SplitAtCut(bodies: seq<seq<byte>>, c: nat) returns (k: nat, t: seq<byte>)
    requires c <= |Stream(bodies)|
    ensures k <= |bodies| && |t| == |Stream(bodies[..k])| - c
    ensures Stream(bodies)[c..] == t + Stream(bodies[k..])
    ensures IsRestOfRecord(bodies, k, t)
    decreases |bodies|
  {
    if c == 0 {
      k, t := 0, [];
      assert bodies[..0] == [] && bodies[0..] == bodies;
    } else {
      var e := Encode(bodies[0]);
      if c <= |e| {
        k, t := 1, e[c..];
        assert bodies[..1] == [bodies[0]];
        StreamOne(bodies[0]);
        assert Stream(bodies)[c..] == t + Stream(bodies[1..]);
      } else {
        var j;
        j, t := SplitAtCut(bodies[1..], c - |e|);
        k := j + 1;
        assert bodies[1..][j..] == bodies[k..] && bodies[..k][1..] == bodies[1..][..j];
        assert Stream(bodies)[c..] == Stream(bodies[1..])[c - |e|..];
        assert bodies[..k][0] == bodies[0];
      }
    }
  }

  // ------------------------------------------------------- the record that is cut

  lemma SumOne(b: byte)
    ensures Sum([b]) == b
  {
    assert [b][1..] == [];
  }

  /** Two decoders whose checksums differ by `a` keep that distance until the next frame. */
  lemma {:induction false} KeepDistance(a: byte, d: Decoder, e: Decoder, s: seq<byte>)
    requires QS_FRAME !in s && d.esc == e.esc && d.chksum == Add8(a, e.chksum)
    ensures Feed(d, s).esc == Feed(e, s).esc && Feed(d, s).chksum == Add8(a, Feed(e, s).chksum)
    decreases |s|
  {
    if s != [] {
      AddAssociates(a, e.chksum, s[0]);
      AddAssociates(a, e.chksum, FlipEsc(s[0]));
      KeepDistance(a, Step(d, s[0]), Step(e, s[0]), s[1..]);
    }
  }

  /** What a decoder gathered before only stands in front of what it gathers now. */
  lemma {:induction false} KeepPrefix(p: seq<byte>, d: Decoder, e: Decoder, s: seq<byte>)
    requires QS_FRAME !in s && d.esc == e.esc && d.data == p + e.data
    ensures Feed(d, s).data == p + Feed(e, s).data
    decreases |s|
  {
    if s != [] {
      assert p + e.data + [s[0]] == p + (e.data + [s[0]]);
      assert p + e.data + [FlipEsc(s[0])] == p + (e.data + [FlipEsc(s[0])]);
      KeepPrefix(p, Step(d, s[0]), Step(e, s[0]), s[1..]);
    }
  }

  /** The decoder in front of a cut at offset `c` of a record. */
  ghost function BeforeCut(body: seq<byte>, c: nat): Decoder
    requires c <= |Encode(body)|
  {
    Feed(START, Encode(body)[..c])
  }

  lemma CutOneLater(body: seq<byte>, c: nat)
    requires c < |Encode(body)|
    ensures BeforeCut(body, c + 1) == Step(BeforeCut(body, c), Encode(body)[c])
  {
    OneByteMore(Encode(body), c);
  }

  lemma {:induction false} OneByteMore(w: seq<byte>, c: nat)
    requires c < |w|
    ensures Feed(START, w[..c + 1]) == Step(Feed(START, w[..c]), w[c])
  {
    assert w[..c + 1] == w[..c] + [w[c]];
    FeedConcat(START, w[..c], [w[c]]);
    FeedOne(Feed(START, w[..c]), w[c]);
  }

  /** What is left of `s` without its first `n` bytes. */
  function Behind(s: seq<byte>, n: nat): seq<byte> {
    if n <= |s| then s[n..] else []
  }

  /** The frame that a decoder makes of what it holds and of the rest of a record that was cut at
      offset `c`. As long as the escape flag differs from that of a decoder that missed nothing, the
      next byte is taken differently; from then on, the frame is good exactly if the checksum of what
      is held is that of what is missing. */
  ghost function JoinedFrame(d: Decoder, body: seq<byte>, c: nat): Frame
    requires c < |Encode(body)|
    decreases |Encode(body)| - c
  {
    var b := BeforeCut(body, c);
    if d.esc == b.esc || c + 1 == |Encode(body)| then
      Frame(d.data + Behind(Sealed(body), |b.data|), d.chksum == b.chksum)
    else
      JoinedFrame(Step(d, Encode(body)[c]), body, c + 1)
  }

  /** The rest of a record that was cut completes this frame, whatever the decoder holds, unless it
      is a frame byte on its own right after a dangling escape. */
  lemma {:induction false} CutFrame(d: Decoder, body: seq<byte>, c: nat)
    requires c < |Encode(body)| && (d.esc ==> c + 1 < |Encode(body)|)
    ensures Feed(d, Encode(body)[c..]) == START.(frames := d.frames + [JoinedFrame(d, body, c)])
    decreases |Encode(body)| - c
  {
    var b, e := BeforeCut(body, c), Encode(body);
    EscapeGoesOn(body, c);
    if d.esc == b.esc {
      SameFlag(d, body, c);
    } else {
      assert e[c..][0] == e[c] && e[c..][1..] == e[c + 1..];
      CutOneLater(body, c);
      CutFrame(Step(d, e[c]), body, c + 1);
    }
  }

  /** If the flags are the same, the two decoders only differ in what they gathered before. */
  lemma {:induction false} SameFlag(d: Decoder, body: seq<byte>, c: nat)
    requires c < |Encode(body)| && d.esc == BeforeCut(body, c).esc
    ensures Feed(d, Encode(body)[c..])
            == START.(frames := d.frames + [Frame(d.data + Behind(Sealed(body), |BeforeCut(body, c).data|),
                                                  d.chksum == BeforeCut(body, c).chksum)])
  {
    var b, u := BeforeCut(body, c), Escape(Sealed(body))[c..];
    NothingMissed(body, c);
    assert Encode(body)[c..] == u + [QS_FRAME];
    SameFlagAhead(d, b, u);
    FeedConcat(d, u, [QS_FRAME]);
    FeedOne(Feed(d, u), QS_FRAME);
  }

  lemma {:induction false} SameFlagAhead(d: Decoder, b: Decoder, u: seq<byte>)
    requires d.esc == b.esc && QS_FRAME !in u && !Feed(b, u).esc && Feed(b, u).chksum == QS_GOOD_CHKSUM
    ensures !Feed(d, u).esc && Feed(d, u).frames == d.frames
    ensures Feed(d, u).chksum == QS_GOOD_CHKSUM <==> d.chksum == b.chksum
    ensures Feed(d, u).data == d.data + Behind(Feed(b, u).data, |b.data|)
  {
    NoFrameByte(d, u);
    var a := Sub8(b.chksum, d.chksum);
    KeepDistance(a, b, d, u);
    AddSeparates(Feed(d, u).chksum, a, 0);
    var e := b.(data := []);
    assert b.data + [] == b.data && d.data + [] == d.data;
    KeepPrefix(b.data, b, e, u);
    KeepPrefix(d.data, d, e, u);
  }

  function Sub8(a: byte, b: byte): (r: byte)
    ensures Add8(r, b) == a
    ensures r == 0 <==> a == b
  {
    if a >= b then a - b else a - b + 256
  }

  /** The decoder that saw all of the record. */
  lemma {:induction false} NothingMissed(body: seq<byte>, c: nat)
    requires c < |Encode(body)|
    ensures var d := Feed(BeforeCut(body, c), Escape(Sealed(body))[c..]);
      !d.esc && d.chksum == QS_GOOD_CHKSUM && d.data == Sealed(body)
    ensures QS_FRAME !in Escape(Sealed(body))[c..]
  {
    var w := Escape(Sealed(body));
    assert Encode(body)[..c] == w[..c] && w[..c] + w[c..] == w;
    EscapeIsStuffed(Sealed(body));
    StuffedHasNoFrame(w);
    FeedEscape(START, Sealed(body));
    TrailerIsTheOnlyGoodByte(body, Trailer(body));
    FeedConcat(START, w[..c], w[c..]);
    assert [] + Sealed(body) == Sealed(body);
  }

  /** Behind a dangling escape there is one of the two flipped bytes; elsewhere within the record
      there is no frame byte. */
  lemma EscapeGoesOn(body: seq<byte>, c: nat)
    requires c < |Encode(body)|
    ensures BeforeCut(body, c).esc ==> c + 1 < |Encode(body)| && Encode(body)[c] in [0x5D, 0x5E]
    ensures c + 1 < |Encode(body)| ==> Encode(body)[c] != QS_FRAME
  {
    var w := Escape(Sealed(body));
    assert Encode(body)[..c] == w[..c];
    EscapeIsStuffed(Sealed(body));
    if c < |w| {
      assert StuffedAt(w, c);
    }
    if BeforeCut(body, c).esc {
      if w[..c] == [] || w[c - 1] != QS_ESC {
        LastByteDecidesEscapeOr(w[..c]);
      }
      assert StuffedAt(w, c - 1);
    }
  }

  lemma LastByteDecidesEscapeOr(s: seq<byte>)
    requires s == [] || s[|s| - 1] != QS_ESC
    ensures !Feed(START, s).esc
  {
    if s != [] {
      LastByteDecidesEscape(START, s);
    }
  }

  /** When a joined frame is good, in terms of the checksums alone, for all four combinations of a
      dangling escape in the decoder and in front of the cut. */
  lemma {:induction false} JoinedIsGoodIff(d: Decoder, body: seq<byte>, c: nat)
    requires c < |Encode(body)| && (d.esc ==> c + 1 < |Encode(body)|)
    ensures var b, y := BeforeCut(body, c), Encode(body)[c];
      JoinedFrame(d, body, c).good <==>
        if d.esc == b.esc then d.chksum == b.chksum
        else if b.esc then d.chksum == Add8(b.chksum, 0x20)
        else if y == QS_ESC then Add8(d.chksum, 0x5D) == Add8(b.chksum, 0x20)
        else Add8(d.chksum, FlipEsc(y)) == Add8(b.chksum, y)
  {
    var b, y := BeforeCut(body, c), Encode(body)[c];
    EscapeGoesOn(body, c);
    CutOneLater(body, c);
    if d.esc != b.esc {
      if b.esc {
        HalfEscape(d, b, y);
      } else if y == QS_ESC {
        EscapeGoesOn(body, c + 1);
        CutOneLater(body, c + 1);
        HalfEscape(Step(d, y), Step(b, y), Encode(body)[c + 1]);
        TwoStepsLater(d, body, c);
      }
    }
  }

  lemma {:induction false} JoinedOneLater(d: Decoder, body: seq<byte>, c: nat)
    requires c + 1 < |Encode(body)| && d.esc != BeforeCut(body, c).esc
    ensures JoinedFrame(d, body, c) == JoinedFrame(Step(d, Encode(body)[c]), body, c + 1)
  {}

  lemma {:induction false} JoinedAtOnce(d: Decoder, body: seq<byte>, c: nat)
    requires c < |Encode(body)| && d.esc == BeforeCut(body, c).esc
    ensures JoinedFrame(d, body, c) == Frame(d.data + Behind(Sealed(body), |BeforeCut(body, c).data|),
                                             d.chksum == BeforeCut(body, c).chksum)
  {}

  /** Behind a dangling escape that does not belong there, an escape byte is taken for data. */
  lemma {:induction false} TwoStepsLater(d: Decoder, body: seq<byte>, c: nat)
    requires c < |Encode(body)| && Encode(body)[c] == QS_ESC && d.esc && !BeforeCut(body, c).esc
    ensures c + 2 < |Encode(body)|
    ensures var y, z := QS_ESC, Encode(body)[c + 1];
      var d', b' := Step(Step(d, y), z), BeforeCut(body, c + 2);
      && d'.data == d.data + [0x5D, z] && !d'.esc && !b'.esc
      && b' == Step(Step(BeforeCut(body, c), y), z)
      && JoinedFrame(d, body, c) == Frame(d'.data + Behind(Sealed(body), |b'.data|), d'.chksum == b'.chksum)
  {
    var b := BeforeCut(body, c);
    CutOneLater(body, c);
    EscapeGoesOn(body, c + 1);
    var z := Encode(body)[c + 1];
    CutOneLater(body, c + 1);
    TwoSteps(d, b, z);
    assert JoinedFrame(d, body, c) == JoinedFrame(Step(Step(d, QS_ESC), z), body, c + 2) by {
      JoinedOneLater(d, body, c);
      JoinedOneLater(Step(d, QS_ESC), body, c + 1);
    }
    JoinedAtOnce(Step(Step(d, QS_ESC), z), body, c + 2);
  }

  lemma TwoSteps(d: Decoder, b: Decoder, z: byte)
    requires d.esc && !b.esc && z in [0x5D, 0x5E]
    ensures !Step(d, QS_ESC).esc && Step(b, QS_ESC).esc
    ensures var d', b' := Step(Step(d, QS_ESC), z), Step(Step(b, QS_ESC), z);
      d'.data == d.data + [0x5D, z] && !d'.esc && !b'.esc
  {
    assert d.data + [0x5D] + [z] == d.data + [0x5D, z];
  }

  /** With nothing pending, the frame is good exactly if what is missing sums to zero or, in the middle
      of an escape, to what makes up for the flipped bit. */
  lemma CutFromStart(body: seq<byte>, c: nat)
    requires c < |Encode(body)|
    ensures JoinedFrame(START, body, c).good
            <==> Sum(BeforeCut(body, c).data) == if BeforeCut(body, c).esc then 0xE0 else 0
  {
    JoinedIsGoodIff(START, body, c);
    SoundStays(START, Encode(body)[..c]);
  }

  /** If the beginning `p` of a record was received and everything up to the beginning `q` of another
      one is lost, a frame arrives that was never sent, and it is good exactly if the two beginnings
      have the same checksum. */
  lemma {:induction false} JoinedRecords(p: seq<byte>, q: seq<byte>, rest: seq<byte>)
    ensures |Escape(q)| < |Encode(q + rest)|
    ensures Feed(Feed(START, Escape(p)), Encode(q + rest)[|Escape(q)|..])
            == START.(frames := [Frame(p + Sealed(q + rest)[|q|..], Sum(p) == Sum(q))])
  {
    var body, c := q + rest, |Escape(q)|;
    assert Sealed(body) == q + (rest + [Trailer(body)]);
    EscapeConcat(q, rest + [Trailer(body)]);
    EscapeIsStuffed(rest + [Trailer(body)]);
    assert Encode(body)[..c] == Escape(q);
    FeedEscape(START, p);
    FeedEscape(START, q);
    assert [] + p == p && [] + q == q;
    CutFrame(Feed(START, Escape(p)), body, c);
    assert [] + [JoinedFrame(Feed(START, Escape(p)), body, c)] == [JoinedFrame(Feed(START, Escape(p)), body, c)];
  }

  lemma HalfEscape(d: Decoder, b: Decoder, y: byte)
    requires !d.esc && b.esc && (y == 0x5D || y == 0x5E)
    ensures !Step(d, y).esc && !Step(b, y).esc
    ensures Step(d, y).chksum == Step(b, y).chksum <==> d.chksum == Add8(b.chksum, 0x20)
  {
    AddAssociates(b.chksum, 0x20, y);
    AddSeparates(y, d.chksum, Add8(b.chksum, 0x20));
  }

  // ------------------------------------------------------------ what gets lost

  /** The checksum of a decoder is that of what it gathered. */
  ghost predicate Sound(d: Decoder) {
    d.chksum == Sum(d.data)
  }

  lemma {:induction false} SoundStays(d: Decoder, s: seq<byte>)
    requires Sound(d)
    ensures Sound(Feed(d, s))
    decreases |s|
  {
    if s != [] {
      SumConcat(d.data, [s[0]]);
      SumConcat(d.data, [FlipEsc(s[0])]);
      SumOne(s[0]);
      SumOne(FlipEsc(s[0]));
      SoundStays(Step(d, s[0]), s[1..]);
    }
  }

  /** A whole record comes out as it was sent exactly if nothing was pending. */
  lemma {:induction false} WholeRecordIff(d: Decoder, body: seq<byte>)
    requires Sound(d)
    ensures JoinedFrame(d, body, 0) == Frame(Sealed(body), true) <==> Fresh(d)
  {
    assert Encode(body)[..0] == [];
    EncodeBegins(body);
    if d.esc {
      BehindEscape(d, body, 0);
    } else {
      JoinedAtOnce(d, body, 0);
    }
  }

  /** Behind a dangling escape the first byte of a record is not taken for what it is. */
  lemma {:induction false} BehindEscape(d: Decoder, body: seq<byte>, c: nat)
    requires d.esc && c == 0
    ensures JoinedFrame(d, body, c).data != Sealed(body)
  {
    assert Encode(body)[..c] == [];
    EncodeBegins(body);
    CutOneLater(body, c);
    var y := Encode(body)[c];
    if y == QS_ESC {
      TwoStepsLater(d, body, c);
      assert |JoinedFrame(d, body, c).data| == |d.data| + 1 + |Sealed(body)|;
    } else {
      JoinedOneLater(d, body, c);
      JoinedAtOnce(Step(d, y), body, c + 1);
      var data := d.data + [FlipEsc(y)] + Sealed(body)[1..];
      assert JoinedFrame(d, body, c).data == data;
      assert d.data == [] ==> data[0] != Sealed(body)[0];
    }
  }

  lemma EncodeBegins(body: seq<byte>)
    ensures |Encode(body)| >= 2 && Sealed(body) != []
    ensures if IsControl(Sealed(body)[0]) then Encode(body)[0] == QS_ESC && |Encode(body)| >= 3
            else Encode(body)[0] == Sealed(body)[0]
  {
    EscapeIsStuffed(Sealed(body));
  }

  /** A record with sequence number zero that is cut behind that number arrives as a good frame of
      something that was never sent. */
  lemma CutBehindZero(rest: seq<byte>)
    requires rest != [] && !IsControl(rest[0])
    ensures Encode([0] + rest)[1..] == Encode(rest)
    ensures Feed(START, Encode([0] + rest)[1..]) == START.(frames := [Frame(Sealed(rest), true)])
  {
    var body := [0] + rest;
    assert body[1..] == rest && Sum(body) == Sum(rest);
    assert Sealed(body) == [0] + Sealed(rest) && Sealed(body)[1..] == Sealed(rest);
    assert Escape(Sealed(body)) == [0] + Escape(Sealed(rest));
    DecodeOne(START, rest);
    assert [] + [Frame(Sealed(rest), true)] == [Frame(Sealed(rest), true)];
  }

  // ----------------------------------------------------------- resynchronisation

  /** What a decoder makes of the last `n` bytes of the record before the k-th, if there are any. */
  ghost predicate IsLead(d: Decoder, lead: seq<Frame>, bodies: seq<seq<byte>>, k: nat, n: nat) {
    if n == 0 then lead == []
    else
      && 0 < k <= |bodies| && n < |Encode(bodies[k - 1])|
      && lead == [JoinedFrame(d, bodies[k - 1], |Encode(bodies[k - 1])| - n)]
  }

  /** Behind a rest of `n` bytes, the next record is recovered exactly if the rest completes a frame
      or, without a rest, if nothing is pending. */
  ghost predicate Recovers(d: Decoder, n: nat) {
    if n == 0 then Fresh(d) else !(d.esc && n == 1)
  }

  /** What a decoder holds that does not recover the next record: a lone frame byte behind a dangling
      escape is taken for data. */
  ghost function Held(d: Decoder, n: nat): Decoder {
    if n == 1 then Step(d, QS_FRAME) else d
  }

  /** The decoder `e` after the last `n` bytes of the record before the k-th and all records from there
      on. If the next record is not recovered, it is joined with what is held, which makes a frame that
      is not the one that was sent, and all others are recovered. */
  ghost predicate IsResync(d: Decoder, bodies: seq<seq<byte>>, k: nat, n: nat, lead: seq<Frame>, e: Decoder) {
    && k <= |bodies|
    && if Recovers(d, n) then
         IsLead(d, lead, bodies, k, n) && e == START.(frames := d.frames + lead + GoodFrames(bodies[k..]))
       else if k == |bodies| then
         lead == [] && e == Held(d, n)
       else
         && lead == [JoinedFrame(Held(d, n), bodies[k], 0)] && lead != [Frame(Sealed(bodies[k]), true)]
         && e == START.(frames := d.frames + lead + GoodFrames(bodies[k + 1..]))
  }

  /** After arbitrary loss the decoder may hold anything, even a dangling escape. From any cut on, with
      `k` the first record that lies wholly behind it, it reports every record, in order and good, except
      perhaps the k-th, after or instead of which there is at most one frame; and it is settled exactly
      when the k-th is recovered and what that frame is. */
  lemma ResyncFromAnywhere(d: Decoder, bodies: seq<seq<byte>>, c: nat)
    returns (k: nat, lead: seq<Frame>)
    requires c <= |Stream(bodies)| && Sound(d)
    ensures k <= |bodies| && c <= |Stream(bodies[..k])|
    ensures k > 0 ==> |Stream(bodies[..k - 1])| < c
    ensures IsResync(d, bodies, k, |Stream(bodies[..k])| - c, lead, Feed(d, Stream(bodies)[c..]))
  {
    var t;
    k, t := SplitAtCut(bodies, c);
    PrefixLength(bodies, k);
    lead := ResyncBehind(d, bodies, k, t);
  }

  lemma {:induction false} ResyncBehind(d: Decoder, bodies: seq<seq<byte>>, k: nat, t: seq<byte>)
    returns (lead: seq<Frame>)
    requires k <= |bodies| && IsRestOfRecord(bodies, k, t) && Sound(d)
    ensures IsResync(d, bodies, k, |t|, lead, Feed(d, t + Stream(bodies[k..])))
  {
    FeedConcat(d, t, Stream(bodies[k..]));
    if Recovers(d, |t|) {
      lead := RestCompletes(d, bodies, k, t);
      DecodeStream(START.(frames := d.frames + lead), bodies[k..]);
    } else {
      RestIsHeld(d, bodies, k, t);
      lead := JoinNext(Held(d, |t|), bodies, k);
    }
  }

  lemma {:induction false} RestCompletes(d: Decoder, bodies: seq<seq<byte>>, k: nat, t: seq<byte>)
    returns (lead: seq<Frame>)
    requires k <= |bodies| && IsRestOfRecord(bodies, k, t) && Recovers(d, |t|)
    ensures IsLead(d, lead, bodies, k, |t|) && Feed(d, t) == START.(frames := d.frames + lead)
  {
    if t == [] {
      lead := [];
      assert d.frames + lead == d.frames;
    } else {
      var body := bodies[k - 1];
      var c := |Encode(body)| - |t|;
      assert t == Encode(body)[c..] && (d.esc ==> |t| > 1);
      CutFrame(d, body, c);
      lead := [JoinedFrame(d, body, c)];
    }
  }

  lemma RestIsHeld(d: Decoder, bodies: seq<seq<byte>>, k: nat, t: seq<byte>)
    requires k <= |bodies| && IsRestOfRecord(bodies, k, t) && !Recovers(d, |t|) && Sound(d)
    ensures Feed(d, t) == Held(d, |t|) && Sound(Held(d, |t|)) && !Fresh(Held(d, |t|))
    ensures Held(d, |t|).frames == d.frames
  {
    SoundStays(d, t);
    if t != [] {
      var e := Encode(bodies[k - 1]);
      assert t == [e[|e| - 1]] == [QS_FRAME];
      FeedOne(d, QS_FRAME);
    }
  }

  lemma {:induction false} JoinNext(h: Decoder, bodies: seq<seq<byte>>, k: nat) returns (lead: seq<Frame>)
    requires k <= |bodies| && Sound(h) && !Fresh(h)
    ensures k == |bodies| ==> lead == [] && Feed(h, Stream(bodies[k..])) == h
    ensures k < |bodies| ==>
      lead == [JoinedFrame(h, bodies[k], 0)] && lead != [Frame(Sealed(bodies[k]), true)]
    ensures k < |bodies| ==>
      Feed(h, Stream(bodies[k..])) == START.(frames := h.frames + lead + GoodFrames(bodies[k + 1..]))
  {
    if k == |bodies| {
      lead := [];
    } else {
      var f := JoinedFrame(h, bodies[k], 0);
      lead := [f];
      EncodeBegins(bodies[k]);
      CutFrame(h, bodies[k], 0);
      WholeRecordIff(h, bodies[k]);
      assert Encode(bodies[k])[0..] == Encode(bodies[k]);
      assert bodies[k..][0] == bodies[k] && bodies[k..][1..] == bodies[k + 1..];
      FeedConcat(h, Encode(bodies[k]), Stream(bodies[k + 1..]));
      DecodeStream(START.(frames := h.frames + lead), bodies[k + 1..]);
    }
  }

  /** Starting at any cut point with nothing pending the decoder reports every record behind it, after
      one frame for the record that was cut, if one was. */
  lemma ResyncFromStart(bodies: seq<seq<byte>>, c: nat) returns (k: nat, lead: seq<Frame>)
    requires c <= |Stream(bodies)|
    ensures k <= |bodies| && c <= |Stream(bodies[..k])|
    ensures k > 0 ==> |Stream(bodies[..k - 1])| < c
    ensures Feed(START, Stream(bodies)[c..]) == START.(frames := lead + GoodFrames(bodies[k..]))
    ensures IsLead(START, lead, bodies, k, |Stream(bodies[..k])| - c)
  {
    k, lead := ResyncFromAnywhere(START, bodies, c);
    assert START.frames + lead == lead;
  }

  lemma PrefixLength(bodies: seq<seq<byte>>, k: nat)
    requires k <= |bodies|
    ensures k > 0 ==> |Stream(bodies[..k])| == |Stream(bodies[..k - 1])| + |Encode(bodies[k - 1])|
  {
    if k > 0 {
      assert bodies[..k] == bodies[..k - 1] + [bodies[k - 1]];
      StreamConcat(bodies[..k - 1], [bodies[k - 1]]);
      StreamOne(bodies[k - 1]);
    }
  }

  /** From any decoder state a stream that starts at a record boundary is reported in full, except
      that its first record is joined with what is pending. */
  lemma ResyncAtBoundary(d: Decoder, bodies: seq<seq<byte>>)
    requires bodies != [] && Sound(d)
    ensures Feed(d, Stream(bodies))
            == START.(frames := d.frames + [JoinedFrame(d, bodies[0], 0)] + GoodFrames(bodies[1..]))
    ensures JoinedFrame(d, bodies[0], 0) == Frame(Sealed(bodies[0]), true) <==> Fresh(d)
  {
    WholeRecordIff(d, bodies[0]);
    EncodeBegins(bodies[0]);
    CutFrame(d, bodies[0], 0);
    assert Encode(bodies[0])[0..] == Encode(bodies[0]);
    FeedConcat(d, Encode(bodies[0]), Stream(bodies[1..]));
    DecodeStream(START.(frames := d.frames + [JoinedFrame(d, bodies[0], 0)]), bodies[1..]);
  }

  // ------------------------------------------------------- damaged records

  /** Two decoders that differ only in their checksum stay apart until the next frame. */
  lemma {:induction false} ChecksumsStayApart(d: Decoder, e: Decoder, s: seq<byte>)
    requires QS_FRAME !in s
    requires d.esc == e.esc && d.frames == e.frames && d.chksum != e.chksum
    ensures var d', e' := Feed(d, s), Feed(e, s);
            d'.esc == e'.esc && d'.frames == e'.frames == d.frames && d'.chksum != e'.chksum
    decreases |s|
  {
    if s != [] {
      ChecksumsStayApart(Step(d, s[0]), Step(e, s[0]), s[1..]);
    }
  }

  /** A wire byte of a record that turns into another non-control byte is always noticed: the
      receiver still sees one frame, and its checksum is bad. */
  lemma ByteErrorIsDetected(body: seq<byte>, i: nat, x: byte)
    requires i < |Encode(body)|
    requires !IsControl(Encode(body)[i]) && !IsControl(x) && x != Encode(body)[i]
    ensures var e := Feed(START, Encode(body)[i := x]);
            Fresh(e) && |e.frames| == 1 && !e.frames[0].good
  {
    var u := Escape(Sealed(body));
    EscapeIsStuffed(Sealed(body));
    StuffedHasNoFrame(u);
    assert i < |u|;
    var p, y, q := u[..i], u[i], u[i + 1..];
    ReplaceByte(u, i, x);
    FeedAround(START, p, y, q);
    FeedAround(START, p, x, q);
    NoFrameByte(START, p);
    DecodeOne(START, body);
    DifferAtOneByte(Feed(START, p), y, x, q);
  }

  lemma ReplaceByte(u: seq<byte>, i: nat, x: byte)
    requires i < |u|
    ensures u == u[..i] + [u[i]] + u[i + 1..]
    ensures (u + [QS_FRAME])[i := x] == u[..i] + [x] + u[i + 1..] + [QS_FRAME]
  {}

  lemma DifferAtOneByte(d: Decoder, y: byte, x: byte, q: seq<byte>)
    requires QS_FRAME !in q && d.frames == []
    requires !IsControl(y) && !IsControl(x) && x != y
    ensures var ey, ex := Step(Feed(Step(d, y), q), QS_FRAME), Step(Feed(Step(d, x), q), QS_FRAME);
            |ey.frames| == 1 && ey.frames[0].good ==>
              Fresh(ex) && |ex.frames| == 1 && !ex.frames[0].good
  {
    StepsApart(d, y, x);
    ChecksumsStayApart(Step(d, y), Step(d, x), q);
  }

  lemma StepsApart(d: Decoder, y: byte, x: byte)
    requires !IsControl(y) && !IsControl(x) && x != y
    ensures var e, f := Step(d, y), Step(d, x);
            !e.esc && !f.esc && e.frames == f.frames == d.frames && e.chksum != f.chksum
  {
    AddSeparates(d.chksum, y, x);
    FlipSeparates(y, x);
    AddSeparates(d.chksum, FlipEsc(y), FlipEsc(x));
  }

  lemma FlipSeparates(y: byte, x: byte)
    requires x != y
    ensures FlipEsc(y) != FlipEsc(x)
  {
    assert FlipEsc(FlipEsc(y)) == y && FlipEsc(FlipEsc(x)) == x;
  }

  lemma FeedAround(d: Decoder, p: seq<byte>, y: byte, q: seq<byte>)
    ensures Feed(d, p + [y] + q + [QS_FRAME]) == Step(Feed(Step(Feed(d, p), y), q), QS_FRAME)
  {
    FeedConcat(d, p + [y] + q, [QS_FRAME]);
    FeedConcat(d, p + [y], q);
    FeedConcat(d, p, [y]);
    FeedOne(Feed(d, p), y);
    FeedOne(Feed(d, p + [y] + q), QS_FRAME);
  }

  lemma FeedOne(d: Decoder, b: byte)
    ensures Feed(d, [b]) == Step(d, b)
  {
    assert [b][1..] == [];
  }
}
