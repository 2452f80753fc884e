/** How a host reads the data of a record: it knows which output functions were used, as the
    dictionaries and the record types tell it, and takes the fields off one by one
    (src/qs/qs.cpp:523-914). */
module QsFields {
  import opened Arithmetic
  import opened Collections
  import opened QsFraming
  import opened QsRecord
  import opened QsTrace

  datatype Kind = KU8Raw | KU8U8Raw | KU16Raw | KU32Raw | KU8 | KU16 | KU32 | KStrRaw | KStr | KMem

  function KindOf(f: Field): Kind {
    match f
    case U8Raw(_) => KU8Raw
    case U8U8Raw(_, _) => KU8U8Raw
    case U16Raw(_) => KU16Raw
    case U32Raw(_) => KU32Raw
    case U8(_, _) => KU8
    case U16(_, _) => KU16
    case U32(_, _) => KU32
    case StrRaw(_) => KStrRaw
    case Str(_) => KStr
    case Mem(_) => KMem
  }

  function Kinds(fields: seq<Field>): seq<Kind> {
    if fields == [] then [] else [KindOf(fields[0])] + Kinds(fields[1..])
  }

  /** What is left of the data once a field is read. */
  datatype Result = Got(field: Field, rest: seq<byte>) | Malformed

  /** The position of the first zero, or the length if there is none. */
  function ZeroAt(s: seq<byte>): (n: nat)
    ensures n <= |s| && 0 !in s[..n] && (n < |s| ==> s[n] == 0)
  {
    if s == [] || s[0] == 0 then 0 else 1 + ZeroAt(s[1..])
  }

  /** Reads a number of `n` bytes, the first of them the least significant. */
  function Number(s: seq<byte>, at: nat, n: nat): nat
    requires at + n <= |s|
  {
    Value(s[at..at + n])
  }

  /** How many bytes a field takes at least. */
  function Least(k: Kind): nat {
    match k
    case KU8Raw => 1
    case KU8U8Raw => 2
    case KU16Raw => 2
    case KU32Raw => 4
    case KU8 => 2
    case KU16 => 3
    case KU32 => 5
    case KStrRaw => 0
    case KStr => 1
    case KMem => 2
  }

  function ReadField(k: Kind, s: seq<byte>): Result {
    if |s| < Least(k) then Malformed
    else match k
      case KU8Raw => Got(U8Raw(s[0]), s[1..])
      case KU8U8Raw => Got(U8U8Raw(s[0], s[1]), s[2..])
      case KU16Raw => Got(U16Raw(Number(s, 0, 2)), s[2..])
      case KU32Raw => Got(U32Raw(Number(s, 0, 4)), s[4..])
      case KU8 => Got(U8(s[0], s[1]), s[2..])
      case KU16 => Got(U16(s[0], Number(s, 1, 2)), s[3..])
      case KU32 => Got(U32(s[0], Number(s, 1, 4)), s[5..])
      case KStrRaw =>
        var n := ZeroAt(s);
        if n < |s| then Got(StrRaw(s[..n]), s[n + 1..]) else Malformed
      case KStr =>
        var n := ZeroAt(s[1..]);
        if s[0] == 8 && n + 1 < |s| then Got(Str(s[1..n + 1]), s[n + 2..]) else Malformed
      case KMem =>
        if s[0] == 9 && s[1] + 2 <= |s| then Got(Mem(s[2..s[1] + 2]), s[s[1] + 2..]) else Malformed
  }

  /** All fields, and what is left behind them. */
  function ReadFields(kinds: seq<Kind>, s: seq<byte>): (seq<Field>, seq<byte>) {
    if kinds == [] then ([], s)
    else match ReadField(kinds[0], s)
      case Malformed => ([], s)
      case Got(f, rest) =>
        var more := ReadFields(kinds[1..], rest);
        ([f] + more.0, more.1)
  }

  // ------------------------------------------------------------ single fields

  lemma NumberComesBack(w: nat, n: nat, before: seq<byte>, rest: seq<byte>)
    requires w < Range(n)
    ensures Number(before + LittleEndian(w, n) + rest, |before|, n) == w
  {
    ValueOfLittleEndian(w, n);
    assert (before + LittleEndian(w, n) + rest)[|before|..|before| + n] == LittleEndian(w, n);
  }

  lemma Ranges()
    ensures Range(2) == 0x1_0000 && Range(4) == 0x1_0000_0000
  {
    assert Range(1) == 256 && Range(3) == 256 * Range(2);
  }

  lemma {:induction false} ZeroBehind(chars: seq<byte>, rest: seq<byte>)
    requires 0 !in chars
    ensures ZeroAt(chars + [0] + rest) == |chars|
    decreases |chars|
  {
    if chars != [] {
      assert (chars + [0] + rest)[1..] == chars[1..] + [0] + rest;
      ZeroBehind(chars[1..], rest);
    }
  }

  /** The plain bytes of a field. */
  lemma PlainOfField(f: Field)
    ensures Plain(ItemsOf(f)) == match f
      case U8Raw(d) => [d]
      case U8U8Raw(d1, d2) => [d1, d2]
      case U16Raw(w) => LittleEndian(w, 2)
      case U32Raw(w) => LittleEndian(w, 4)
      case U8(format, d) => [format, d]
      case U16(format, w) => [format] + LittleEndian(w, 2)
      case U32(format, w) => [format] + LittleEndian(w, 4)
      case StrRaw(chars) => chars + [0]
      case Str(chars) => [8] + (chars + [0])
      case Mem(blk) => [9, |blk| % 256] + blk
  {
    match f
    case StrRaw(chars) => TextItem(chars);
    case Str(chars) =>
      TextItem(chars);
      assert ItemsOf(f)[1..] == [Text(chars)];
    case _ => DataItem(ItemsOf(f)[0].bytes);
  }

  /** `f` is read off the front of its plain bytes, whatever follows. */
  ghost predicate ComesBack(f: Field, rest: seq<byte>) {
    ReadField(KindOf(f), Plain(ItemsOf(f)) + rest) == Got(f, rest)
  }

  lemma {:induction false} RawNumberComesBack(w: nat, rest: seq<byte>)
    ensures w < 0x1_0000 ==> ComesBack(U16Raw(w), rest)
    ensures w < 0x1_0000_0000 ==> ComesBack(U32Raw(w), rest)
  {
    Ranges();
    PlainOfField(U16Raw(w));
    PlainOfField(U32Raw(w));
    if w < 0x1_0000 {
      NumberComesBack(w, 2, [], rest);
      assert [] + LittleEndian(w, 2) + rest == LittleEndian(w, 2) + rest;
      assert (LittleEndian(w, 2) + rest)[2..] == rest;
    }
    if w < 0x1_0000_0000 {
      NumberComesBack(w, 4, [], rest);
      assert [] + LittleEndian(w, 4) + rest == LittleEndian(w, 4) + rest;
      assert (LittleEndian(w, 4) + rest)[4..] == rest;
    }
  }

  lemma {:induction false} FormattedNumberComesBack(format: byte, w: nat, rest: seq<byte>)
    ensures w < 0x1_0000 ==> ComesBack(U16(format, w), rest)
    ensures w < 0x1_0000_0000 ==> ComesBack(U32(format, w), rest)
  {
    Ranges();
    PlainOfField(U16(format, w));
    PlainOfField(U32(format, w));
    if w < 0x1_0000 {
      NumberComesBack(w, 2, [format], rest);
      assert ([format] + LittleEndian(w, 2) + rest)[3..] == rest;
    }
    if w < 0x1_0000_0000 {
      NumberComesBack(w, 4, [format], rest);
      assert ([format] + LittleEndian(w, 4) + rest)[5..] == rest;
    }
  }

  lemma {:induction false} RawStringComesBack(chars: seq<byte>, rest: seq<byte>)
    requires 0 !in chars
    ensures ComesBack(StrRaw(chars), rest)
  {
    PlainOfField(StrRaw(chars));
    ZeroBehind(chars, rest);
    var s := chars + [0] + rest;
    assert s[..|chars|] == chars && s[|chars| + 1..] == rest;
  }

  lemma {:induction false} StringComesBack(chars: seq<byte>, rest: seq<byte>)
    requires 0 !in chars
    ensures ComesBack(Str(chars), rest)
  {
    var s := chars + [0] + rest;
    ZeroBehind(chars, rest);
    StringBehindFormat(s, |chars|);
    assert s[..|chars|] == chars && s[|chars| + 1..] == rest;
    assert Plain(ItemsOf(Str(chars))) + rest == [8] + s by {
      PlainOfField(Str(chars));
    }
  }

  lemma {:induction false} StringBehindFormat(s: seq<byte>, n: nat)
    requires n < |s| && ZeroAt(s) == n
    ensures ReadField(KStr, [8] + s) == Got(Str(s[..n]), s[n + 1..])
  {
    var t := [8] + s;
    assert t[1..] == s;
    assert t[1..n + 1] == s[..n] && t[n + 2..] == s[n + 1..];
  }

  lemma {:induction false} BlockComesBack(blk: seq<byte>, rest: seq<byte>)
    requires |blk| < 256
    ensures ComesBack(Mem(blk), rest)
  {
    PlainOfField(Mem(blk));
    var s := [9, |blk| % 256] + blk + rest;
    assert s[2..|blk| + 2] == blk && s[|blk| + 2..] == rest;
  }

  lemma {:induction false} BytesComeBack(a: byte, b: byte, rest: seq<byte>)
    ensures ComesBack(U8Raw(a), rest) && ComesBack(U8U8Raw(a, b), rest) && ComesBack(U8(a, b), rest)
  {
    PlainOfField(U8Raw(a));
    PlainOfField(U8U8Raw(a, b));
    PlainOfField(U8(a, b));
    assert ([a] + rest)[1..] == rest && ([a, b] + rest)[2..] == rest;
  }

  /** A field within the ranges of its C types comes back from its plain bytes, whatever follows. */
  lemma FieldComesBack(f: Field, rest: seq<byte>)
    requires InRange(f)
    ensures ReadField(KindOf(f), Plain(ItemsOf(f)) + rest) == Got(f, rest)
  {
    assert ComesBack(f, rest) by {
      match f
      case U8Raw(d) => BytesComeBack(d, 0, rest);
      case U8U8Raw(d1, d2) => BytesComeBack(d1, d2, rest);
      case U16Raw(w) => RawNumberComesBack(w, rest);
      case U32Raw(w) => RawNumberComesBack(w, rest);
      case U8(format, d) => BytesComeBack(format, d, rest);
      case U16(format, w) => FormattedNumberComesBack(format, w, rest);
      case U32(format, w) => FormattedNumberComesBack(format, w, rest);
      case StrRaw(chars) => RawStringComesBack(chars, rest);
      case Str(chars) => StringComesBack(chars, rest);
      case Mem(blk) => BlockComesBack(blk, rest);
    }
  }

  // ------------------------------------------------------------ whole records

  /** The data of a record comes back field by field. */
  lemma {:induction false} FieldsComeBack(fields: seq<Field>, rest: seq<byte>)
    requires forall f | f in fields :: InRange(f)
    ensures ReadFields(Kinds(fields), Plain(ItemsOfAll(fields)) + rest) == (fields, rest)
    decreases |fields|
  {
    if fields == [] {
      assert [] + rest == rest;
    } else {
      var first, others := ItemsOf(fields[0]), ItemsOfAll(fields[1..]);
      assert fields[0] in fields;
      PlainConcat(first, others);
      Assoc(Plain(first), Plain(others), rest);
      FieldComesBack(fields[0], Plain(others) + rest);
      FieldsComeBack(fields[1..], rest);
      assert Kinds(fields)[1..] == Kinds(fields[1..]) && [fields[0]] + fields[1..] == fields;
    }
  }

  /** From the good frame of a record the host gets the sequence number, the record number and the
      values of all fields, with just the checksum left behind them. */
  lemma RecordComesBack(seqNo: byte, rec: byte, fields: seq<Field>)
    requires forall f | f in fields :: InRange(f)
    ensures var data := Sealed(Body(seqNo, rec, ItemsOfAll(fields)));
      && |data| >= 3 && data[0] == seqNo && data[1] == rec
      && ReadFields(Kinds(fields), data[2..]) == (fields, [data[|data| - 1]])
  {
    var body := Body(seqNo, rec, ItemsOfAll(fields));
    var data := Sealed(body);
    assert data[2..] == Plain(ItemsOfAll(fields)) + [Trailer(body)];
    FieldsComeBack(fields, [Trailer(body)]);
  }
}
