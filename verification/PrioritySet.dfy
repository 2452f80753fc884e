/** Priority sets: up to 32 elements in one word or up to 64 in two (include/qpset.h), the search
    for the highest element (src/qf/qf_act.cpp). Elements are the priorities 1 to 64. */
module PrioritySet {
  import opened Collections

  // --------------------------------------- bit operations on unsigned words

  /** uint32_t. The bit operations below are the usual ones, given by the binary digits. */
  type word = w: nat | w < 0x1_0000_0000

  /** Bit number `k` of `w`, counted from 0. */
  predicate HasBit(w: nat, k: nat) {
    if k == 0 then w % 2 == 1 else HasBit(w / 2, k - 1)
  }

  /** `1 << k` */
  function Shifted(k: nat): nat {
    if k == 0 then 1 else 2 * Shifted(k - 1)
  }

  /** `a | b` */
  function Or(a: nat, b: nat): nat {
    if a == 0 && b == 0 then 0
    else 2 * Or(a / 2, b / 2) + (if a % 2 == 1 || b % 2 == 1 then 1 else 0)
  }

  /** `a & b` */
  function And(a: nat, b: nat): nat {
    if a == 0 && b == 0 then 0
    else 2 * And(a / 2, b / 2) + (if a % 2 == 1 && b % 2 == 1 then 1 else 0)
  }

  /** `a & ~b` */
  function AndNot(a: nat, b: nat): nat {
    if a == 0 then 0
    else 2 * AndNot(a / 2, b / 2) + (if a % 2 == 1 && b % 2 == 0 then 1 else 0)
  }

  lemma {:induction false} NoBit(k: nat)
    ensures !HasBit(0, k)
  {
    if k > 0 {
      NoBit(k - 1);
    }
  }

  lemma {:induction false} ShiftedBit(i: nat, k: nat)
    ensures HasBit(Shifted(i), k) <==> k == i
  {
    if k > 0 {
      if i == 0 {
        NoBit(k - 1);
      } else {
        ShiftedBit(i - 1, k - 1);
      }
    }
  }

  lemma OrDigit(a: nat, b: nat)
    ensures Or(a, b) % 2 == 1 <==> a % 2 == 1 || b % 2 == 1
    ensures Or(a, b) / 2 == Or(a / 2, b / 2)
  {}

  lemma {:induction false} OrBit(a: nat, b: nat, k: nat)
    ensures HasBit(Or(a, b), k) <==> HasBit(a, k) || HasBit(b, k)
    decreases k
  {
    OrDigit(a, b);
    if k > 0 {
      OrBit(a / 2, b / 2, k - 1);
    }
  }

  lemma AndDigit(a: nat, b: nat)
    ensures And(a, b) % 2 == 1 <==> a % 2 == 1 && b % 2 == 1
    ensures And(a, b) / 2 == And(a / 2, b / 2)
  {}

  lemma {:induction false} AndBit(a: nat, b: nat, k: nat)
    ensures HasBit(And(a, b), k) <==> HasBit(a, k) && HasBit(b, k)
    decreases k
  {
    AndDigit(a, b);
    if k > 0 {
      AndBit(a / 2, b / 2, k - 1);
    }
  }

  lemma {:induction false} AndNotBit(a: nat, b: nat, k: nat)
    ensures HasBit(AndNot(a, b), k) <==> HasBit(a, k) && !HasBit(b, k)
    decreases k
  {
    if k > 0 {
      AndNotBit(a / 2, b / 2, k - 1);
      if a / 2 == 0 {
        NoBit(k - 1);
      }
    }
  }

  lemma {:induction false} SomeBit(w: nat) returns (k: nat)
    requires w != 0
    ensures HasBit(w, k)
  {
    if w % 2 == 1 {
      k := 0;
    } else {
      k := SomeBit(w / 2);
      k := k + 1;
    }
  }

  /** Masking with a single bit tests that bit. */
  lemma TestBit(w: nat, k: nat)
    ensures And(w, Shifted(k)) != 0 <==> HasBit(w, k)
  {
    if And(w, Shifted(k)) != 0 {
      var i := SomeBit(And(w, Shifted(k)));
      AndBit(w, Shifted(k), i);
      ShiftedBit(k, i);
    } else {
      AndBit(w, Shifted(k), k);
      ShiftedBit(k, k);
      NoBit(k);
    }
  }

  lemma {:induction false} BitsOfSmall(w: nat, n: nat, k: nat)
    requires w < Shifted(n) && HasBit(w, k)
    ensures k < n
    decreases n
  {
    if w == 0 {
      NoBit(k);
    } else if k > 0 {
      BitsOfSmall(w / 2, n - 1, k - 1);
    }
  }

  lemma {:induction false} SmallByBits(w: nat, n: nat)
    requires forall k: nat | HasBit(w, k) :: k < n
    ensures w < Shifted(n)
    decreases n
  {
    if n == 0 {
      if w != 0 {
        var k := SomeBit(w);
      }
    } else {
      forall k: nat | HasBit(w / 2, k) ensures k < n - 1 {
        assert HasBit(w, k + 1);
      }
      SmallByBits(w / 2, n - 1);
    }
  }

  lemma WordSize()
    ensures Shifted(32) == 0x1_0000_0000
  {
    assert Shifted(8) == 0x100;
    assert Shifted(16) == 0x1_0000;
    assert Shifted(24) == 0x100_0000;
  }

  // ----------------------------------------------------------- the highest bit

  /** log2 as the ports define it: 0 for 0, otherwise the 1-based number of the highest 1-bit. */
  function Log2(w: nat): nat {
    if w == 0 then 0 else 1 + Log2(w / 2)
  }

  lemma {:induction false} Log2IsHighest(w: nat)
    ensures Log2(w) == 0 <==> w == 0
    ensures w != 0 ==> HasBit(w, Log2(w) - 1)
    ensures forall k: nat | HasBit(w, k) :: k < Log2(w)
  {
    if w == 0 {
      forall k: nat ensures !HasBit(w, k) { NoBit(k); }
    } else {
      Log2IsHighest(w / 2);
    }
  }

  /** The lookup table for the last four bits. */
  const LOG2_LUT: seq<nat> := [0, 1, 2, 2, 3, 3, 3, 3, 4, 4, 4, 4, 4, 4, 4, 4]

  lemma LutIsLog2(x: nat)
    requires x < 16
    ensures LOG2_LUT[x] == Log2(x)
  {
    assert Log2(x / 8) == if x / 8 == 0 then 0 else 1;
    assert Log2(x / 4) == if x / 4 == 0 then 0 else 1 + Log2(x / 8);
    assert Log2(x / 2) == if x / 2 == 0 then 0 else 1 + Log2(x / 4);
  }

  /** Dropping low bits lowers the logarithm by their number, as long as something is left. */
  lemma Log2Above4(x: nat)
    requires x / 16 != 0
    ensures Log2(x) == 4 + Log2(x / 16)
  {
    assert x / 2 / 2 == x / 4 && x / 4 / 2 == x / 8 && x / 8 / 2 == x / 16;
    assert Log2(x / 2) == 1 + Log2(x / 4);
    assert Log2(x / 4) == 1 + Log2(x / 8);
  }

  lemma Log2Above8(x: nat)
    requires x / 256 != 0
    ensures Log2(x) == 8 + Log2(x / 256)
  {
    assert x / 16 / 16 == x / 256;
    Log2Above4(x);
    Log2Above4(x / 16);
  }

  lemma Log2Above16(x: nat)
    requires x / 65536 != 0
    ensures Log2(x) == 16 + Log2(x / 65536)
  {
    assert x / 256 / 256 == x / 65536;
    Log2Above8(x);
    Log2Above8(x / 256);
  }

  /** The search within one word: halve it three times, then look up the last four bits. */
  method HighestBit(w: word) returns (n: nat)
    ensures n == Log2(w)
  {
    var x := w;
    n := 0;
    if x != 0 {
      var t := x / 65536;
      if t != 0 {
        Log2Above16(x);
        x := t;
        n := n + 16;
      }
      t := x / 256;
      if t != 0 {
        Log2Above8(x);
        x := t;
        n := n + 8;
      }
      t := x / 16;
      if t != 0 {
        Log2Above4(x);
        x := t;
        n := n + 4;
      }
      LutIsLog2(x);
      n := n + LOG2_LUT[x];
    }
  }

  // ------------------------------------------------------------------- the sets

  /** Element n, 1 to 32, is bit n - 1. */
  predicate In(w: nat, n: nat) {
    n >= 1 && HasBit(w, n - 1)
  }

  ghost function Elements32(w: nat): set<nat> {
    set n: nat | n <= 32 && In(w, n)
  }

  /** In the two-word set the elements above 32 live in the second word. */
  predicate In64(w0: nat, w1: nat, n: nat) {
    if n <= 32 then In(w0, n) else In(w1, n - 32)
  }

  ghost function Elements64(w0: nat, w1: nat): set<nat> {
    set n: nat | n <= 64 && In64(w0, w1, n)
  }

  lemma InsertIntoWord(w: word, n: nat)
    requires 1 <= n <= 32
    ensures Or(w, Shifted(n - 1)) < 0x1_0000_0000
    ensures forall k: nat :: In(Or(w, Shifted(n - 1)), k) <==> In(w, k) || k == n
    ensures Elements32(Or(w, Shifted(n - 1))) == Elements32(w) + {n}
  {
    var v := Or(w, Shifted(n - 1));
    forall k: nat ensures HasBit(v, k) <==> HasBit(w, k) || k == n - 1 {
      OrBit(w, Shifted(n - 1), k);
      ShiftedBit(n - 1, k);
    }
    forall k: nat ensures In(v, k) <==> In(w, k) || k == n {
      assert k > 0 ==> (HasBit(v, k - 1) <==> HasBit(w, k - 1) || k == n);
    }
    WordSize();
    forall k: nat | HasBit(v, k) ensures k < 32 {
      if k != n - 1 {
        BitsOfSmall(w, 32, k);
      }
    }
    SmallByBits(v, 32);
  }

  lemma RemoveFromWord(w: word, n: nat)
    requires 1 <= n <= 32
    ensures AndNot(w, Shifted(n - 1)) < 0x1_0000_0000
    ensures forall k: nat :: In(AndNot(w, Shifted(n - 1)), k) <==> In(w, k) && k != n
    ensures Elements32(AndNot(w, Shifted(n - 1))) == Elements32(w) - {n}
  {
    var v := AndNot(w, Shifted(n - 1));
    forall k: nat ensures HasBit(v, k) <==> HasBit(w, k) && k != n - 1 {
      AndNotBit(w, Shifted(n - 1), k);
      ShiftedBit(n - 1, k);
    }
    forall k: nat ensures In(v, k) <==> In(w, k) && k != n {
      assert k > 0 ==> (HasBit(v, k - 1) <==> HasBit(w, k - 1) && k != n);
    }
    WordSize();
    forall k: nat | HasBit(v, k) ensures k < 32 {
      BitsOfSmall(w, 32, k);
    }
    SmallByBits(v, 32);
  }

  /** A word is zero just if it holds no element; otherwise its logarithm is the greatest one. */
  lemma GreatestInWord(w: word)
    ensures Log2(w) <= 32 && (Log2(w) == 0 <==> w == 0)
    ensures w != 0 ==> In(w, Log2(w))
    ensures forall n: nat | In(w, n) :: n <= Log2(w)
  {
    Log2IsHighest(w);
    WordSize();
    if w != 0 {
      BitsOfSmall(w, 32, Log2(w) - 1);
    }
  }

  /** The set kept in one word, for up to 32 priorities. */
  class PSet32 {
    var bits: word

    ghost function Elements(): set<nat>
      reads this
    {
      Elements32(bits)
    }

    constructor ()
      ensures Elements() == {}
    {
      bits := 0;
      new;
      GreatestInWord(0);
    }

    method SetEmpty()
      modifies this
      ensures Elements() == {}
    {
      bits := 0;
      GreatestInWord(0);
    }

    method IsEmpty() returns (r: bool)
      ensures r <==> Elements() == {}
    {
      r := bits == 0;
      GreatestInWord(bits);
      assert bits != 0 ==> Log2(bits) in Elements();
    }

    method NotEmpty() returns (r: bool)
      ensures r <==> Elements() != {}
    {
      r := bits != 0;
      GreatestInWord(bits);
      assert bits != 0 ==> Log2(bits) in Elements();
    }

    method HasElement(n: nat) returns (r: bool)
      requires 1 <= n <= 32
      ensures r <==> n in Elements()
    {
      r := And(bits, Shifted(n - 1)) != 0;
      TestBit(bits, n - 1);
    }

    method Insert(n: nat)
      requires 1 <= n <= 32
      modifies this
      ensures Elements() == old(Elements()) + {n}
    {
      InsertIntoWord(bits, n);
      bits := Or(bits, Shifted(n - 1));
    }

    method Remove(n: nat)
      requires 1 <= n <= 32
      modifies this
      ensures Elements() == old(Elements()) - {n}
    {
      RemoveFromWord(bits, n);
      bits := AndNot(bits, Shifted(n - 1));
    }

    method FindMax() returns (n: nat)
      ensures IsMaximum(n, Elements())
    {
      n := HighestBit(bits);
      GreatestInWord(bits);
      assert n != 0 ==> n in Elements();
    }
  }

  /** What findMax promises: zero for the empty set, otherwise the greatest element. */
  ghost predicate IsMaximum(n: nat, s: set<nat>) {
    if n == 0 then s == {} else n in s && forall k | k in s :: k <= n
  }

  /** The set kept in two words, for up to 64 priorities. */
  class PSet64 {
    const bits: array<word>

    ghost predicate Valid() {
      bits.Length == 2
    }

    ghost function Elements(): set<nat>
      reads bits
      requires Valid()
    {
      Elements64(bits[0], bits[1])
    }

    constructor ()
      ensures Valid() && fresh(bits) && Elements() == {}
    {
      bits := new word[2](_ => 0);
      new;
      GreatestInWord(0);
    }

    constructor Copy(s: PSet64)
      requires s.Valid()
      ensures Valid() && fresh(bits) && Elements() == s.Elements()
    {
      var words := new word[2];
      words[0], words[1] := s.bits[0], s.bits[1];
      bits := words;
    }

    method SetEmpty()
      requires Valid()
      modifies bits
      ensures Elements() == {}
    {
      bits[0] := 0;
      bits[1] := 0;
      GreatestInWord(0);
    }

    method IsEmpty() returns (r: bool)
      requires Valid()
      ensures r <==> Elements() == {}
    {
      r := if bits[0] == 0 then bits[1] == 0 else false;
      EmptyWords(bits[0], bits[1]);
    }

    method NotEmpty() returns (r: bool)
      requires Valid()
      ensures r <==> Elements() != {}
    {
      r := if bits[0] != 0 then true else bits[1] != 0;
      EmptyWords(bits[0], bits[1]);
    }

    method HasElement(n: nat) returns (r: bool)
      requires Valid() && 1 <= n <= 64
      ensures r <==> n in Elements()
    {
      if n <= 32 {
        r := And(bits[0], Shifted(n - 1)) != 0;
        TestBit(bits[0], n - 1);
      } else {
        r := And(bits[1], Shifted(n - 33)) != 0;
        TestBit(bits[1], n - 33);
      }
    }

    method Insert(n: nat)
      requires Valid() && 1 <= n <= 64
      modifies bits
      ensures Elements() == old(Elements()) + {n}
    {
      if n <= 32 {
        InsertIntoWord(bits[0], n);
        bits[0] := Or(bits[0], Shifted(n - 1));
      } else {
        InsertIntoWord(bits[1], n - 32);
        bits[1] := Or(bits[1], Shifted(n - 33));
      }
      assert forall k: nat :: k in Elements() <==> k in old(Elements()) || k == n;
    }

    method Remove(n: nat)
      requires Valid() && 1 <= n <= 64
      modifies bits
      ensures Elements() == old(Elements()) - {n}
    {
      if n <= 32 {
        RemoveFromWord(bits[0], n);
        bits[0] := AndNot(bits[0], Shifted(n - 1));
      } else {
        RemoveFromWord(bits[1], n - 32);
        bits[1] := AndNot(bits[1], Shifted(n - 33));
      }
      assert forall k: nat :: k in Elements() <==> k in old(Elements()) && k != n;
    }

    /** The higher word decides; only if it is empty the lower one does. */
    method FindMax() returns (n: nat)
      requires Valid()
      ensures IsMaximum(n, Elements())
    {
      var x: word;
      if bits[1] != 0 {
        x := bits[1];
        n := 32;
      } else {
        x := bits[0];
        n := 0;
      }
      var h := HighestBit(x);
      n := n + h;
      GreatestInWord(bits[0]);
      GreatestInWord(bits[1]);
      assert n != 0 ==> n in Elements();
    }
  }

  lemma EmptyWords(w0: word, w1: word)
    ensures Elements64(w0, w1) == {} <==> w0 == 0 && w1 == 0
  {
    GreatestInWord(w0);
    GreatestInWord(w1);
    assert w0 != 0 ==> Log2(w0) in Elements64(w0, w1);
    assert w1 != 0 ==> 32 + Log2(w1) in Elements64(w0, w1);
  }

  /** A word is determined by its bits. */
  lemma {:induction false} SameBitsSameWord(v: nat, w: nat)
    requires forall k: nat :: HasBit(v, k) <==> HasBit(w, k)
    ensures v == w
    decreases v + w
  {
    if v + w != 0 {
      assert HasBit(v, 0) <==> HasBit(w, 0);
      forall k: nat ensures HasBit(v / 2, k) <==> HasBit(w / 2, k) {
        assert HasBit(v, k + 1) <==> HasBit(w, k + 1);
      }
      SameBitsSameWord(v / 2, w / 2);
    }
  }

  lemma SameElementsSameWord(v: word, w: word)
    requires Elements32(v) == Elements32(w)
    ensures v == w
  {
    WordSize();
    forall k: nat ensures HasBit(v, k) <==> HasBit(w, k) {
      if HasBit(v, k) || HasBit(w, k) {
        if HasBit(v, k) { BitsOfSmall(v, 32, k); } else { BitsOfSmall(w, 32, k); }
        assert k + 1 in Elements32(v) <==> k + 1 in Elements32(w);
      }
    }
    SameBitsSameWord(v, w);
  }

  /** The two variants hold the same set just if the lower words are equal and the upper one is
      zero. */
  lemma SameSetIff(w: word, w0: word, w1: word)
    ensures Elements64(w0, w1) == Elements32(w) <==> w0 == w && w1 == 0
  {
    if w1 == 0 {
      forall n: nat | 32 < n <= 64 ensures !In64(w0, 0, n) {
        NoBit(n - 33);
      }
      assert Elements64(w0, 0) == Elements32(w0);
      if w0 != w && Elements32(w0) == Elements32(w) {
        SameElementsSameWord(w0, w);
      }
    } else {
      GreatestInWord(w1);
      assert 32 + Log2(w1) in Elements64(w0, w1);
    }
  }

  // -------------------------------------------------------- runs of operations

  /** One call of an operation, and what it returns. */
  datatype Request = SetEmpty | Insert(n: nat) | Remove(n: nat)
                   | IsEmpty | NotEmpty | HasElement(n: nat) | FindMax
  datatype Reply = Done | Truth(b: bool) | Element(n: nat)

  /** The elements that the calls name are 1 to `max`. */
  ghost predicate Within(requests: seq<Request>, max: nat) {
    forall r | r in requests :: r.Insert? || r.Remove? || r.HasElement? ==> 1 <= r.n <= max
  }

  lemma {:induction false} MaximumExists(s: set<nat>) returns (n: nat)
    requires s != {}
    ensures n in s && forall k | k in s :: k <= n
  {
    var x :| x in s;
    n := x;
    if s - {x} != {} {
      var m := MaximumExists(s - {x});
      n := if m > x then m else x;
    }
    assert forall k | k in s :: k == x || k in s - {x};
  }

  /** The greatest element of a mathematical set, 0 if there is none. */
  ghost function Greatest(s: set<nat>): nat {
    if s == {} then 0
    else
      assert exists n :: n in s && forall k | k in s :: k <= n by {
        var n := MaximumExists(s);
      }
      var n :| n in s && forall k | k in s :: k <= n;
      n
  }

  lemma MaximumIsGreatest(n: nat, s: set<nat>)
    requires IsMaximum(n, s)
    ensures n == Greatest(s)
  {
    assert n != 0 ==> Greatest(s) in s;
  }

  /** What a call does to a mathematical set. */
  ghost function Effect(s: set<nat>, r: Request): set<nat> {
    match r
    case SetEmpty => {}
    case Insert(n) => s + {n}
    case Remove(n) => s - {n}
    case _ => s
  }

  ghost function ReplyTo(s: set<nat>, r: Request): Reply {
    match r
    case IsEmpty => Truth(s == {})
    case NotEmpty => Truth(s != {})
    case HasElement(n) => Truth(n in s)
    case FindMax => Element(Greatest(s))
    case _ => Done
  }

  /** All replies to a run of calls on a mathematical set that is `s` at first. */
  ghost function Replies(s: set<nat>, requests: seq<Request>): seq<Reply>
    decreases |requests|
  {
    if requests == [] then []
    else [ReplyTo(s, requests[0])] + Replies(Effect(s, requests[0]), requests[1..])
  }

  /** The mathematical set after a run of calls. */
  ghost function AfterAll(s: set<nat>, requests: seq<Request>): set<nat>
    decreases |requests|
  {
    if requests == [] then s else AfterAll(Effect(s, requests[0]), requests[1..])
  }

  method Serve32(s: PSet32, r: Request) returns (reply: Reply)
    requires Within([r], 32)
    modifies s
    ensures s.Elements() == Effect(old(s.Elements()), r) && reply == ReplyTo(old(s.Elements()), r)
  {
    assert r in [r];
    reply := Done;
    match r {
      case SetEmpty => s.SetEmpty();
      case Insert(n) => s.Insert(n);
      case Remove(n) => s.Remove(n);
      case IsEmpty => var b := s.IsEmpty(); reply := Truth(b);
      case NotEmpty => var b := s.NotEmpty(); reply := Truth(b);
      case HasElement(n) => var b := s.HasElement(n); reply := Truth(b);
      case FindMax =>
        var n := s.FindMax();
        MaximumIsGreatest(n, s.Elements());
        reply := Element(n);
    }
  }

  method Serve64(s: PSet64, r: Request) returns (reply: Reply)
    requires s.Valid() && Within([r], 64)
    modifies s.bits
    ensures s.Elements() == Effect(old(s.Elements()), r) && reply == ReplyTo(old(s.Elements()), r)
  {
    assert r in [r];
    reply := Done;
    match r {
      case SetEmpty => s.SetEmpty();
      case Insert(n) => s.Insert(n);
      case Remove(n) => s.Remove(n);
      case IsEmpty => var b := s.IsEmpty(); reply := Truth(b);
      case NotEmpty => var b := s.NotEmpty(); reply := Truth(b);
      case HasElement(n) => var b := s.HasElement(n); reply := Truth(b);
      case FindMax =>
        var n := s.FindMax();
        MaximumIsGreatest(n, s.Elements());
        reply := Element(n);
    }
  }

  lemma NextReply(done: seq<Reply>, s: set<nat>, requests: seq<Request>, i: nat)
    requires i < |requests|
    ensures requests[i..][1..] == requests[i + 1..]
    ensures done + [ReplyTo(s, requests[i])] + Replies(Effect(s, requests[i]), requests[i + 1..])
            == done + Replies(s, requests[i..])
  {
    assert requests[i..][0] == requests[i] && requests[i..][1..] == requests[i + 1..];
  }

  /** Every run of calls on the one-word set is answered as by a mathematical set. */
  method Run32(requests: seq<Request>) returns (replies: seq<Reply>, word: word)
    requires Within(requests, 32)
    ensures replies == Replies({}, requests)
    ensures Elements32(word) == AfterAll({}, requests)
  {
    var s := new PSet32();
    replies := [];
    var i := 0;
    while i < |requests|
      invariant 0 <= i <= |requests|
      invariant replies + Replies(s.Elements(), requests[i..]) == Replies({}, requests)
      invariant AfterAll(s.Elements(), requests[i..]) == AfterAll({}, requests)
    {
      NextReply(replies, s.Elements(), requests, i);
      var reply := Serve32(s, requests[i]);
      replies := replies + [reply];
      i := i + 1;
    }
    word := s.bits;
  }

  /** So is every run of calls on the two-word set. */
  method Run64(requests: seq<Request>) returns (replies: seq<Reply>, low: word, high: word)
    requires Within(requests, 64)
    ensures replies == Replies({}, requests)
    ensures Elements64(low, high) == AfterAll({}, requests)
  {
    var s := new PSet64();
    replies := [];
    var i := 0;
    while i < |requests|
      invariant 0 <= i <= |requests| && s.Valid() && fresh(s.bits)
      invariant replies + Replies(s.Elements(), requests[i..]) == Replies({}, requests)
      invariant AfterAll(s.Elements(), requests[i..]) == AfterAll({}, requests)
    {
      NextReply(replies, s.Elements(), requests, i);
      var reply := Serve64(s, requests[i]);
      replies := replies + [reply];
      i := i + 1;
    }
    low, high := s.bits[0], s.bits[1];
  }

  /** On every run of calls that name the elements 1 to 32 only, the two variants return the same,
      call by call, and end with the same lower word and an upper word of zero. */
  method VariantsAgree(requests: seq<Request>)
    returns (replies32: seq<Reply>, replies64: seq<Reply>, word: word, low: word, high: word)
    requires Within(requests, 32)
    ensures replies32 == replies64 && |replies32| == |requests|
    ensures low == word && high == 0
  {
    replies32, word := Run32(requests);
    replies64, low, high := Run64(requests);
    RepliesLength({}, requests);
    SameSetIff(word, low, high);
  }

  lemma {:induction false} RepliesLength(s: set<nat>, requests: seq<Request>)
    ensures |Replies(s, requests)| == |requests|
    decreases |requests|
  {
    if requests != [] {
      RepliesLength(Effect(s, requests[0]), requests[1..]);
    }
  }

  /** The element was inserted by one of the first `i` calls and neither removed nor swept out since. */
  ghost predicate IsIn(requests: seq<Request>, i: nat, n: nat)
    requires i <= |requests|
  {
    exists j | 0 <= j < i :: requests[j] == Insert(n) && NotTaken(requests, j + 1, i, n)
  }

  ghost predicate NotTaken(requests: seq<Request>, j: nat, i: nat, n: nat)
    requires i <= |requests|
  {
    forall k | j <= k < i :: requests[k] != Remove(n) && requests[k] != SetEmpty
  }

  /** The mathematical set holds just these elements. */
  lemma {:induction false} ElementsByHistory(requests: seq<Request>, i: nat, n: nat)
    requires i <= |requests|
    ensures n in AfterAll({}, requests[..i]) <==> IsIn(requests, i, n)
  {
    if i > 0 {
      ElementsByHistory(requests, i - 1, n);
      AfterOneMore({}, requests[..i - 1], requests[i - 1]);
      assert requests[..i] == requests[..i - 1] + [requests[i - 1]];
      InOneMore(requests, i - 1, n);
    }
  }

  lemma {:induction false} AfterOneMore(s: set<nat>, requests: seq<Request>, r: Request)
    ensures AfterAll(s, requests + [r]) == Effect(AfterAll(s, requests), r)
    decreases |requests|
  {
    if requests == [] {
      assert requests + [r] == [r] && [r][1..] == [];
    } else {
      assert (requests + [r])[1..] == requests[1..] + [r];
      AfterOneMore(Effect(s, requests[0]), requests[1..], r);
    }
  }

  lemma InOneMore(requests: seq<Request>, i: nat, n: nat)
    requires i < |requests|
    ensures IsIn(requests, i + 1, n) <==>
      requests[i] == Insert(n) || (IsIn(requests, i, n) && requests[i] != Remove(n) && requests[i] != SetEmpty)
  {
    if IsIn(requests, i + 1, n) && requests[i] != Insert(n) {
      var j :| 0 <= j < i + 1 && requests[j] == Insert(n) && NotTaken(requests, j + 1, i + 1, n);
      assert NotTaken(requests, j + 1, i, n);
    }
    if requests[i] == Insert(n) {
      assert NotTaken(requests, i + 1, i + 1, n);
    } else if IsIn(requests, i, n) && requests[i] != Remove(n) && requests[i] != SetEmpty {
      var j :| 0 <= j < i && requests[j] == Insert(n) && NotTaken(requests, j + 1, i, n);
      assert NotTaken(requests, j + 1, i + 1, n);
    }
  }

  ghost predicate NoneIn(requests: seq<Request>, i: nat)
    requires i <= |requests|
  {
    forall k: nat :: !IsIn(requests, i, k)
  }

  /** `m` is the greatest element that is in, 0 if none above it is. */
  ghost predicate IsGreatestIn(requests: seq<Request>, i: nat, m: nat)
    requires i <= |requests|
  {
    (m > 0 ==> IsIn(requests, i, m)) && forall k: nat | IsIn(requests, i, k) :: k <= m
  }

  /** What every call of a run is answered, in terms of the calls before it: whether an element is in the
      set, whether any is, and the greatest of those that are. */
  lemma RepliesByHistory(requests: seq<Request>, i: nat)
    requires i < |requests|
    ensures |Replies({}, requests)| == |requests|
    ensures var r, reply := requests[i], Replies({}, requests)[i];
      && (r.HasElement? ==> reply == Truth(IsIn(requests, i, r.n)))
      && (r.IsEmpty? ==> reply == Truth(NoneIn(requests, i)))
      && (r.NotEmpty? ==> reply == Truth(!NoneIn(requests, i)))
      && (r.FindMax? ==> reply.Element? && IsGreatestIn(requests, i, reply.n))
      && (r.SetEmpty? || r.Insert? || r.Remove? ==> reply == Done)
  {
    RepliesLength({}, requests);
    ReplyAt({}, requests, i);
    var s := AfterAll({}, requests[..i]);
    forall k: nat ensures k in s <==> IsIn(requests, i, k) {
      ElementsByHistory(requests, i, k);
    }
    assert s == {} <==> forall k: nat :: k !in s;
    assert s != {} ==> Greatest(s) in s;
  }

  lemma {:induction false} ReplyAt(s: set<nat>, requests: seq<Request>, i: nat)
    requires i < |requests| == |Replies(s, requests)|
    ensures Replies(s, requests)[i] == ReplyTo(AfterAll(s, requests[..i]), requests[i])
    decreases |requests|
  {
    if i > 0 {
      RepliesLength(Effect(s, requests[0]), requests[1..]);
      ReplyAt(Effect(s, requests[0]), requests[1..], i - 1);
      assert requests[..i][1..] == requests[1..][..i - 1];
    }
  }

  // ----------------------------------------- the elements in decreasing order

  ghost predicate Decreasing(s: seq<nat>) {
    forall i, j | 0 <= i < j < |s| :: s[i] > s[j]
  }

  lemma DecreasingIsDistinct(s: seq<nat>)
    requires Decreasing(s)
    ensures Distinct(s)
  {}
}
