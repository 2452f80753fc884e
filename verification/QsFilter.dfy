/** The global record filter of QS: sixteen bytes, one bit a record (include/qs.h,
    src/qs/qs.cpp filterOn and filterOff, and the filter command of
    src/qs/qs_rx.cpp). */
module QsFilter {
  import opened QsFraming

  const SIZE := 16      // bytes of the filter
  const RECORDS := 128  // records it can hold

  /** A record number within the filter. */
  type RecNo = r: nat | r < 128

  // record groups
  const QS_ALL_RECORDS := 0xF0
  const QS_SM_RECORDS := 0xF1
  const QS_AO_RECORDS := 0xF2
  const QS_EQ_RECORDS := 0xF3
  const QS_MP_RECORDS := 0xF4
  const QS_TE_RECORDS := 0xF5
  const QS_QF_RECORDS := 0xF6
  const QS_SC_RECORDS := 0xF7
  const QS_U0_RECORDS := 0xF8
  const QS_U1_RECORDS := 0xF9
  const QS_U2_RECORDS := 0xFA
  const QS_U3_RECORDS := 0xFB
  const QS_U4_RECORDS := 0xFC
  const QS_UA_RECORDS := 0xFD

  /** The single bit `1 << k` of a filter byte. */
  function Bit(k: nat): bv8
    requires k < 8
  {
    if k == 0 then 0x01 else if k == 1 then 0x02 else if k == 2 then 0x04 else if k == 3 then 0x08
    else if k == 4 then 0x10 else if k == 5 then 0x20 else if k == 6 then 0x40 else 0x80
  }

  /** The test of the tracing macros. */
  predicate Passes(f: seq<bv8>, rec: nat)
    requires |f| == SIZE && rec < RECORDS
  {
    Test(f[rec / 8], rec % 8)
  }

  /** The set bits of `m` are exactly the bits `lo` to `hi`. */
  ghost predicate IsRun(m: bv8, lo: nat, hi: nat) {
    hi < 8 && forall k: nat | k < 8 :: Test(m, k) <==> lo <= k <= hi
  }

  /** The arguments for which filterOn and filterOff do not assert. */
  predicate IsFilterArgument(rec: nat) {
    rec < QS_ESC || QS_ALL_RECORDS <= rec <= QS_UA_RECORDS
  }

  /** The records that a filter argument other than QS_ALL_RECORDS switches, by the code. */
  predicate Covers(arg: nat, rec: nat) {
    if arg == QS_SM_RECORDS then 1 <= rec <= 9 || 55 <= rec <= 57
    else if arg == QS_AO_RECORDS then 10 <= rec <= 18 || rec == 45
    else if arg == QS_EQ_RECORDS then 19 <= rec <= 22 || rec == 46
    else if arg == QS_MP_RECORDS then 24 <= rec <= 25 || rec == 47
    else if arg == QS_TE_RECORDS then 32 <= rec <= 38
    else if arg == QS_QF_RECORDS then 26 <= rec <= 31 || 38 <= rec <= 44
    else if arg == QS_SC_RECORDS then 48 <= rec <= 54
    else if arg == QS_U0_RECORDS then 70 <= rec <= 79
    else if arg == QS_U1_RECORDS then 80 <= rec <= 89
    else if arg == QS_U2_RECORDS then 90 <= rec <= 99
    else if arg == QS_U3_RECORDS then 100 <= rec <= 109
    else if arg == QS_U4_RECORDS then 110 <= rec <= 119
    else if arg == QS_UA_RECORDS then 70 <= rec <= 103 || 112 <= rec <= 119
    else rec == arg
  }

  /** The records that the code leaves on whatever group is switched off. */
  predicate Unmaskable(rec: nat) {
    rec == 0 || 58 <= rec <= 69
  }

  ghost predicate TurnedOn(f: seq<bv8>, arg: nat, g: seq<bv8>)
    requires |f| == |g| == SIZE
  {
    forall r: nat | r < RECORDS :: Passes(g, r) <==>
      if arg == QS_ALL_RECORDS then r <= 124 else Passes(f, r) || Covers(arg, r)
  }

  ghost predicate TurnedOff(f: seq<bv8>, arg: nat, g: seq<bv8>)
    requires |f| == |g| == SIZE
  {
    forall r: nat | r < RECORDS :: Passes(g, r) <==>
      if arg == QS_ALL_RECORDS then Unmaskable(r) else Passes(f, r) && !Covers(arg, r)
  }

  /** The effect of the filter command received from the host. Its mask for the last byte keeps
      the records 0x7D to 0x7F and drops the five records before them. */
  ghost predicate Commanded(data: seq<bv8>, g: seq<bv8>)
    requires |data| == |g| == SIZE
  {
    forall r: nat | r < RECORDS :: Passes(g, r) <==>
      (Passes(data, r) && !(120 <= r <= 124)) || Unmaskable(r)
  }

  class Filter {
    const glbFilter: array<bv8>

    ghost predicate Valid() {
      glbFilter.Length == SIZE
    }

    constructor ()
      ensures Valid() && fresh(glbFilter)
    {
      glbFilter := new bv8[SIZE];
    }

    method FilterOn(rec: nat)
      requires Valid() && IsFilterArgument(rec)
      modifies glbFilter
      ensures TurnedOn(old(glbFilter[..]), rec, glbFilter[..])
    {
      if rec == QS_ALL_RECORDS {
        AllOn();
      } else if QS_SM_RECORDS <= rec <= QS_SC_RECORDS {
        KernelGroupOn(rec);
      } else if QS_U0_RECORDS <= rec <= QS_UA_RECORDS {
        UserGroupOn(rec);
      } else {
        Runs();
        SetBits(glbFilter, rec / 8, Bit(rec % 8), rec % 8, rec % 8);
      }
    }

    method FilterOff(rec: nat)
      requires Valid() && IsFilterArgument(rec)
      modifies glbFilter
      ensures TurnedOff(old(glbFilter[..]), rec, glbFilter[..])
    {
      if rec == QS_ALL_RECORDS {
        AllOff();
      } else if QS_SM_RECORDS <= rec <= QS_SC_RECORDS {
        KernelGroupOff(rec);
      } else if QS_U0_RECORDS <= rec <= QS_UA_RECORDS {
        UserGroupOff(rec);
      } else {
        Runs();
        ClearBits(glbFilter, rec / 8, Bit(rec % 8), rec % 8, rec % 8);
      }
    }

    /** The good-frame action of the filter command; `data` is the payload of the frame. */
    method Command(data: array<bv8>)
      requires Valid() && data.Length == SIZE && data != glbFilter
      modifies glbFilter, data
      ensures Commanded(old(data[..]), glbFilter[..])
    {
      Runs();
      // the records that cannot be masked are on in any case
      SetBits(data, 0, 0x01, 0, 0);
      SetBits(data, 7, 0xFC, 2, 7);
      SetBits(data, 8, 0x3F, 0, 5);
      // intended for the records from QS_ESC on, but keeps just these
      var keep: bv8 := 0xE0;
      ClearBits(data, 15, !keep, 0, 4);
      ghost var adjusted := data[..];
      assert Commanded(old(data[..]), adjusted);
      var i := 0;
      while i < SIZE
        invariant 0 <= i <= SIZE
        invariant data[..] == adjusted && glbFilter[..i] == adjusted[..i]
      {
        glbFilter[i] := data[i];
        i := i + 1;
      }
      assert glbFilter[..] == glbFilter[..i];
    }

    method AllOn()
      requires Valid()
      modifies glbFilter
      ensures forall r: nat | r < RECORDS :: Passes(glbFilter[..], r) <==> r <= 124
    {
      var i := 0;
      while i < 15
        invariant 0 <= i <= 15
        invariant forall j | 0 <= j < i :: glbFilter[j] == 0xFF
      {
        glbFilter[i] := 0xFF;
        i := i + 1;
      }
      // the records from QS_ESC on stay off
      glbFilter[SIZE - 1] := 0x1F;
      Runs();
    }

    method AllOff()
      requires Valid()
      modifies glbFilter
      ensures forall r: nat | r < RECORDS :: Passes(glbFilter[..], r) <==> r == 0 || 58 <= r <= 69
    {
      var tmp := 15;
      while tmp > 0
        invariant 0 <= tmp <= 15
        invariant forall j | tmp < j <= 15 :: glbFilter[j] == 0
      {
        glbFilter[tmp] := 0;
        tmp := tmp - 1;
      }
      glbFilter[0] := 0x01;
      glbFilter[7] := 0xFC;
      glbFilter[8] := 0x3F;
      Runs();
    }

    method KernelGroupOn(rec: nat)
      requires Valid() && QS_SM_RECORDS <= rec <= QS_SC_RECORDS
      modifies glbFilter
      ensures forall r: nat | r < RECORDS :: Passes(glbFilter[..], r)
                <==> old(Passes(glbFilter[..], r)) || Covers(rec, r)
    {
      Runs();
      if rec == QS_SM_RECORDS {
        SetBits(glbFilter, 0, 0xFE, 1, 7);
        SetBits(glbFilter, 1, 0x03, 0, 1);
        SetBits(glbFilter, 6, 0x80, 7, 7);
        SetBits(glbFilter, 7, 0x03, 0, 1);
      } else if rec == QS_AO_RECORDS {
        SetBits(glbFilter, 1, 0xFC, 2, 7);
        SetBits(glbFilter, 2, 0x07, 0, 2);
        SetBits(glbFilter, 5, 0x20, 5, 5);
      } else if rec == QS_EQ_RECORDS {
        SetBits(glbFilter, 2, 0x78, 3, 6);
        SetBits(glbFilter, 5, 0x40, 6, 6);
      } else if rec == QS_MP_RECORDS {
        SetBits(glbFilter, 3, 0x03, 0, 1);
        SetBits(glbFilter, 5, 0x80, 7, 7);
      } else if rec == QS_QF_RECORDS {
        SetBits(glbFilter, 3, 0xFC, 2, 7);
        SetBits(glbFilter, 4, 0xC0, 6, 7);
        SetBits(glbFilter, 5, 0x1F, 0, 4);
      } else if rec == QS_TE_RECORDS {
        SetBits(glbFilter, 4, 0x7F, 0, 6);
      } else {
        SetBits(glbFilter, 6, 0x7F, 0, 6);
      }
    }

    method UserGroupOn(rec: nat)
      requires Valid() && QS_U0_RECORDS <= rec <= QS_UA_RECORDS
      modifies glbFilter
      ensures forall r: nat | r < RECORDS :: Passes(glbFilter[..], r)
                <==> old(Passes(glbFilter[..], r)) || Covers(rec, r)
    {
      Runs();
      if rec == QS_U0_RECORDS {
        SetBits(glbFilter, 8, 0xC0, 6, 7);
        SetBits(glbFilter, 9, 0xFF, 0, 7);
      } else if rec == QS_U1_RECORDS {
        SetBits(glbFilter, 10, 0xFF, 0, 7);
        SetBits(glbFilter, 11, 0x03, 0, 1);
      } else if rec == QS_U2_RECORDS {
        SetBits(glbFilter, 11, 0xFC, 2, 7);
        SetBits(glbFilter, 12, 0x0F, 0, 3);
      } else if rec == QS_U3_RECORDS {
        SetBits(glbFilter, 12, 0xF0, 4, 7);
        SetBits(glbFilter, 13, 0x3F, 0, 5);
      } else if rec == QS_U4_RECORDS {
        SetBits(glbFilter, 13, 0xC0, 6, 7);
        SetBits(glbFilter, 14, 0xFF, 0, 7);
      } else {
        SetBits(glbFilter, 8, 0xC0, 6, 7);
        SetBits(glbFilter, 9, 0xFF, 0, 7);
        SetBits(glbFilter, 10, 0xFF, 0, 7);
        SetBits(glbFilter, 11, 0xFF, 0, 7);
        SetBits(glbFilter, 12, 0xFF, 0, 7);
        SetBits(glbFilter, 14, 0xFF, 0, 7);
      }
    }

    method KernelGroupOff(rec: nat)
      requires Valid() && QS_SM_RECORDS <= rec <= QS_SC_RECORDS
      modifies glbFilter
      ensures forall r: nat | r < RECORDS :: Passes(glbFilter[..], r)
                <==> old(Passes(glbFilter[..], r)) && !Covers(rec, r)
    {
      Runs();
      if rec == QS_SM_RECORDS {
        ClearBits(glbFilter, 0, 0xFE, 1, 7);
        ClearBits(glbFilter, 1, 0x03, 0, 1);
        ClearBits(glbFilter, 6, 0x80, 7, 7);
        ClearBits(glbFilter, 7, 0x03, 0, 1);
      } else if rec == QS_AO_RECORDS {
        ClearBits(glbFilter, 1, 0xFC, 2, 7);
        ClearBits(glbFilter, 2, 0x07, 0, 2);
        ClearBits(glbFilter, 5, 0x20, 5, 5);
      } else if rec == QS_EQ_RECORDS {
        ClearBits(glbFilter, 2, 0x78, 3, 6);
        ClearBits(glbFilter, 5, 0x40, 6, 6);
      } else if rec == QS_MP_RECORDS {
        ClearBits(glbFilter, 3, 0x03, 0, 1);
        ClearBits(glbFilter, 5, 0x80, 7, 7);
      } else if rec == QS_QF_RECORDS {
        ClearBits(glbFilter, 3, 0xFC, 2, 7);
        ClearBits(glbFilter, 4, 0xC0, 6, 7);
        ClearBits(glbFilter, 5, 0x1F, 0, 4);
      } else if rec == QS_TE_RECORDS {
        ClearBits(glbFilter, 4, 0x7F, 0, 6);
      } else {
        ClearBits(glbFilter, 6, 0x7F, 0, 6);
      }
    }

    method UserGroupOff(rec: nat)
      requires Valid() && QS_U0_RECORDS <= rec <= QS_UA_RECORDS
      modifies glbFilter
      ensures forall r: nat | r < RECORDS :: Passes(glbFilter[..], r)
                <==> old(Passes(glbFilter[..], r)) && !Covers(rec, r)
    {
      Runs();
      if rec == QS_U0_RECORDS {
        ClearBits(glbFilter, 8, 0xC0, 6, 7);
        ClearBits(glbFilter, 9, 0xFF, 0, 7);
      } else if rec == QS_U1_RECORDS {
        ClearBits(glbFilter, 10, 0xFF, 0, 7);
        ClearBits(glbFilter, 11, 0x03, 0, 1);
      } else if rec == QS_U2_RECORDS {
        ClearBits(glbFilter, 11, 0xFC, 2, 7);
        ClearBits(glbFilter, 12, 0x0F, 0, 3);
      } else if rec == QS_U3_RECORDS {
        ClearBits(glbFilter, 12, 0xF0, 4, 7);
        ClearBits(glbFilter, 13, 0x3F, 0, 5);
      } else if rec == QS_U4_RECORDS {
        ClearBits(glbFilter, 13, 0xC0, 6, 7);
        ClearBits(glbFilter, 14, 0xFF, 0, 7);
      } else {
        ClearBits(glbFilter, 8, 0xC0, 6, 7);
        ClearBits(glbFilter, 9, 0xFF, 0, 7);
        ClearBits(glbFilter, 10, 0xFF, 0, 7);
        ClearBits(glbFilter, 11, 0xFF, 0, 7);
        ClearBits(glbFilter, 12, 0xFF, 0, 7);
        ClearBits(glbFilter, 14, 0xFF, 0, 7);
      }
    }
  }

  /** `a[i] |= m`, in terms of records. */
  method SetBits(a: array<bv8>, i: nat, m: bv8, ghost lo: nat, ghost hi: nat)
    requires a.Length == SIZE && i < SIZE && IsRun(m, lo, hi)
    modifies a
    ensures forall rec: nat | rec < RECORDS :: Passes(a[..], rec)
              <==> old(Passes(a[..], rec)) || 8 * i + lo <= rec <= 8 * i + hi
  {
    a[i] := a[i] | m;
    forall k: nat | k < 8 ensures Test(a[i], k) <==> Test(old(a[i]), k) || lo <= k <= hi {
      OrRun(old(a[i]), m, lo, hi, k);
    }
    ByteToRecords(a[..], i);
  }

  /** `a[i] &= ~m`, in terms of records; with m == 0xFF this is the source's `a[i] = 0`. */
  method ClearBits(a: array<bv8>, i: nat, m: bv8, ghost lo: nat, ghost hi: nat)
    requires a.Length == SIZE && i < SIZE && IsRun(m, lo, hi)
    modifies a
    ensures forall rec: nat | rec < RECORDS :: Passes(a[..], rec)
              <==> old(Passes(a[..], rec)) && !(8 * i + lo <= rec <= 8 * i + hi)
  {
    a[i] := a[i] & !m;
    forall k: nat | k < 8 ensures Test(a[i], k) <==> Test(old(a[i]), k) && !(lo <= k <= hi) {
      AndRun(old(a[i]), m, lo, hi, k);
    }
    ByteToRecords(a[..], i);
  }

  predicate Test(b: bv8, k: nat)
    requires k < 8
  {
    b & Bit(k) != 0
  }

  lemma OrRun(a: bv8, m: bv8, lo: nat, hi: nat, k: nat)
    requires k < 8 && IsRun(m, lo, hi)
    ensures Test(a | m, k) <==> Test(a, k) || lo <= k <= hi
  {
    var b := Bit(k);
    assert (a | m) & b != 0 <==> a & b != 0 || m & b != 0;
    assert Test(m, k) <==> lo <= k <= hi;
  }

  lemma AndRun(a: bv8, m: bv8, lo: nat, hi: nat, k: nat)
    requires k < 8 && IsRun(m, lo, hi)
    ensures Test(a & !m, k) <==> Test(a, k) && !(lo <= k <= hi)
  {
    assert Test(a & !m, k) <==> Test(a, k) && !Test(m, k);
    assert Test(m, k) <==> lo <= k <= hi;
  }

  lemma ByteToRecords(f: seq<bv8>, i: nat)
    requires i < |f| == SIZE
    ensures forall rec: nat | rec < RECORDS && rec / 8 == i :: Passes(f, rec) <==> Test(f[i], rec % 8)
  {}

  /** All masks of the group tables are runs of bits, and so is every single bit. */
  lemma Runs()
    ensures IsRun(0xFE, 1, 7) && IsRun(0xFC, 2, 7) && IsRun(0xF0, 4, 7) && IsRun(0xC0, 6, 7)
    ensures IsRun(0x80, 7, 7) && IsRun(0x40, 6, 6) && IsRun(0x20, 5, 5) && IsRun(0x78, 3, 6)
    ensures IsRun(0x01, 0, 0) && IsRun(0x03, 0, 1) && IsRun(0x07, 0, 2) && IsRun(0x0F, 0, 3)
    ensures IsRun(0x1F, 0, 4) && IsRun(0x3F, 0, 5) && IsRun(0x7F, 0, 6) && IsRun(0xFF, 0, 7)
    ensures forall k: nat | k < 8 :: IsRun(Bit(k), k, k) && !Test(0, k)
  {}

  // ----------------------------------------------- groups and their documentation

  /** The sections into which the comments of the record list divide the records. */
  datatype Section = SessionRecords | SmRecords | AoRecords | EqRecords | MpRecords | QfRecords
                   | TeRecords | ScRecords | MiscRecords | UserRecords

  /** The section of a record: the one with the last heading at or before it. By this rule the
      reserved record 23, which stands between the headings of 19 and 24, is an event-queue record. */
  function SectionOf(rec: nat): Section {
    if rec < 1 then SessionRecords
    else if rec < 10 then SmRecords
    else if rec < 19 then AoRecords
    else if rec < 24 then EqRecords
    else if rec < 26 then MpRecords
    else if rec < 32 then QfRecords
    else if rec < 38 then TeRecords
    else if rec < 45 then QfRecords
    else if rec < 46 then AoRecords
    else if rec < 47 then EqRecords
    else if rec < 48 then MpRecords
    else if rec < 55 then ScRecords  // scheduler locking, and from 50 on the built-in scheduler
    else if rec < 58 then SmRecords
    else if rec < 70 then MiscRecords
    else UserRecords
  }

  /** What the comments promise of a group: the records of a section or, for the groups of user
      records, a range of numbers, which ends at 124. */
  predicate Documented(arg: nat, rec: nat) {
    match arg
    case 0xF0 => rec <= 124 && SectionOf(rec) !in {SessionRecords, MiscRecords}
    case 0xF1 => SectionOf(rec) == SmRecords
    case 0xF2 => SectionOf(rec) == AoRecords
    case 0xF3 => SectionOf(rec) == EqRecords
    case 0xF4 => SectionOf(rec) == MpRecords
    case 0xF5 => SectionOf(rec) == TeRecords
    case 0xF6 => SectionOf(rec) == QfRecords
    case 0xF7 => SectionOf(rec) == ScRecords
    case 0xF8 => 70 <= rec <= 79
    case 0xF9 => 80 <= rec <= 89
    case 0xFA => 90 <= rec <= 99
    case 0xFB => 100 <= rec <= 109
    case 0xFC => 110 <= rec <= 124
    case 0xFD => SectionOf(rec) == UserRecords && rec <= 124
    case _ => rec == arg
  }

  /** A filter argument other than the one for all records switches exactly the documented records
      if and only if it is not one of four groups. */
  lemma GroupsVsDocumentation(arg: nat)
    requires IsFilterArgument(arg) && arg != QS_ALL_RECORDS
    ensures (forall r: nat | r < RECORDS :: Covers(arg, r) <==> Documented(arg, r))
            <==> arg !in {QS_EQ_RECORDS, QS_TE_RECORDS, QS_U4_RECORDS, QS_UA_RECORDS}
  {
    FailingGroups();
  }

  /** One witness for each of the four. */
  lemma FailingGroups()
    ensures !Covers(QS_EQ_RECORDS, 23) && Documented(QS_EQ_RECORDS, 23)
    ensures Covers(QS_TE_RECORDS, 38) && !Documented(QS_TE_RECORDS, 38)
    ensures !Covers(QS_U4_RECORDS, 120) && Documented(QS_U4_RECORDS, 120)
    ensures !Covers(QS_UA_RECORDS, 104) && Documented(QS_UA_RECORDS, 104)
  {}

  /** How the four deviate: the event-queue group leaves out the reserved record; the time-event
      group also takes record 38, which belongs to the framework group; the last user group and the
      group of all user records leave some of theirs out. */
  lemma GroupExceptions(r: nat)
    requires r < RECORDS
    ensures Covers(QS_EQ_RECORDS, r) <==> Documented(QS_EQ_RECORDS, r) && r != 23
    ensures Covers(QS_TE_RECORDS, r) <==> Documented(QS_TE_RECORDS, r) || r == 38
    ensures Covers(QS_U4_RECORDS, r) <==> Documented(QS_U4_RECORDS, r) && r < 120
    ensures Covers(QS_UA_RECORDS, r)
            <==> Documented(QS_UA_RECORDS, r) && r < 120 && !(104 <= r <= 111)
    ensures Covers(QS_QF_RECORDS, 38) && Documented(QS_QF_RECORDS, 38)
  {}

  /** Switching everything off leaves on, of the records up to 124, exactly those that are not
      documented as maskable; switching everything on leaves none of them off. */
  lemma AllRecordsVsDocumentation(f: seq<bv8>, g: seq<bv8>, r: nat)
    requires |f| == |g| == SIZE && r <= 124
    ensures TurnedOff(f, QS_ALL_RECORDS, g) ==> (Passes(g, r) <==> !Documented(QS_ALL_RECORDS, r))
    ensures TurnedOn(f, QS_ALL_RECORDS, g) ==> Passes(g, r)
  {
    assert r < RECORDS;
  }

  // ------------------------------------------------------ runs of filter calls

  datatype FilterCall = TurnOn(arg: nat) | TurnOff(arg: nat) | Receive(data: seq<bv8>)

  ghost predicate Legal(c: FilterCall) {
    match c
    case TurnOn(arg) => IsFilterArgument(arg)
    case TurnOff(arg) => IsFilterArgument(arg)
    case Receive(data) => |data| == SIZE
  }

  /** `g` is what the filter holds after the call, according to the methods above. */
  ghost predicate After(f: seq<bv8>, c: FilterCall, g: seq<bv8>)
    requires |f| == |g| == SIZE && Legal(c)
  {
    match c
    case TurnOn(arg) => TurnedOn(f, arg, g)
    case TurnOff(arg) => TurnedOff(f, arg, g)
    case Receive(data) => Commanded(data, g)
  }

  /** A run: one filter state more than there are calls. */
  ghost predicate IsRunOf(fs: seq<seq<bv8>>, calls: seq<FilterCall>) {
    && |fs| == |calls| + 1
    && (forall i | 0 <= i < |fs| :: |fs[i]| == SIZE)
    && forall i | 0 <= i < |calls| :: Legal(calls[i]) && After(fs[i], calls[i], fs[i + 1])
  }

  /** Makes one of the calls. */
  method Make(f: Filter, c: FilterCall)
    requires f.Valid() && Legal(c)
    modifies f.glbFilter
    ensures After(old(f.glbFilter[..]), c, f.glbFilter[..])
  {
    match c {
      case TurnOn(arg) => f.FilterOn(arg);
      case TurnOff(arg) => f.FilterOff(arg);
      case Receive(data) =>
        var payload := new bv8[SIZE](i requires 0 <= i < |data| => data[i]);
        assert payload[..] == data;
        f.Command(payload);
    }
  }

  /** Makes the calls in order. */
  method MakeAll(f: Filter, calls: seq<FilterCall>) returns (ghost fs: seq<seq<bv8>>)
    requires f.Valid() && forall c | c in calls :: Legal(c)
    modifies f.glbFilter
    ensures IsRunOf(fs, calls) && fs[0] == old(f.glbFilter[..]) && fs[|calls|] == f.glbFilter[..]
  {
    fs := [f.glbFilter[..]];
    var i := 0;
    while i < |calls|
      invariant 0 <= i <= |calls| && IsRunOf(fs, calls[..i])
      invariant fs[0] == old(f.glbFilter[..]) && fs[i] == f.glbFilter[..]
    {
      assert calls[i] in calls;
      Make(f, calls[i]);
      OneCallMore(fs, calls[..i], calls[i], f.glbFilter[..]);
      assert calls[..i + 1] == calls[..i] + [calls[i]];
      fs := fs + [f.glbFilter[..]];
      i := i + 1;
    }
    assert calls[..i] == calls;
  }

  lemma OneCallMore(fs: seq<seq<bv8>>, calls: seq<FilterCall>, c: FilterCall, g: seq<bv8>)
    requires IsRunOf(fs, calls) && |g| == SIZE && Legal(c) && After(fs[|calls|], c, g)
    ensures IsRunOf(fs + [g], calls + [c])
  {
    var gs, more := fs + [g], calls + [c];
    forall i | 0 <= i < |more| ensures Legal(more[i]) && After(gs[i], more[i], gs[i + 1]) {
      assert i < |calls| ==> Legal(calls[i]) && After(fs[i], calls[i], fs[i + 1]);
    }
  }

  /** The call decides whether record `r` is on, whatever it was before. */
  predicate Decides(c: FilterCall, r: nat) {
    c.Receive? || c.arg == QS_ALL_RECORDS || Covers(c.arg, r)
  }

  lemma {:induction false} Undecided(fs: seq<seq<bv8>>, calls: seq<FilterCall>, r: nat, p: nat, q: nat)
    requires IsRunOf(fs, calls) && p <= q < |fs| && r < RECORDS
    requires forall i | p <= i < q :: !Decides(calls[i], r)
    ensures Passes(fs[q], r) <==> Passes(fs[p], r)
  {
    if q > p {
      Undecided(fs, calls, r, p, q - 1);
      assert After(fs[q - 1], calls[q - 1], fs[q]) && !Decides(calls[q - 1], r);
    }
  }

  /** In any run of filter calls, whether a record passes is decided by the last call that concerns it:
      it does if that call switched on its group or its number, or all records up to 124; it does not if
      the call switched one of these off, unless it was for all records and this one cannot be masked;
      and after a received command it does if its bit was set in the received filter and it is none of
      the five records that the wrong mask takes out, or if it cannot be masked. */
  lemma RecordFollowsLastCall(fs: seq<seq<bv8>>, calls: seq<FilterCall>, r: nat, p: nat, q: nat)
    requires IsRunOf(fs, calls) && p < q < |fs| && r < RECORDS && Decides(calls[p], r)
    requires forall i | p < i < q :: !Decides(calls[i], r)
    ensures Passes(fs[q], r) <==> match calls[p]
      case TurnOn(arg) => arg != 0xF0 || r <= 124
      case TurnOff(arg) => arg == 0xF0 && SectionOf(r) in {SessionRecords, MiscRecords}
      case Receive(data) =>
        (data[r / 8] & ((1 as bv8) << (r % 8)) != 0 && r !in {120, 121, 122, 123, 124})
        || SectionOf(r) in {SessionRecords, MiscRecords}
  {
    Undecided(fs, calls, r, p + 1, q);
    assert After(fs[p], calls[p], fs[p + 1]) && Legal(calls[p]);
    ShiftedBit(r % 8);
  }

  lemma ShiftedBit(k: nat)
    requires k < 8
    ensures (1 as bv8) << k == Bit(k)
  {
    match k
    case 0 => assert (1 as bv8) << 0 == 0x01;
    case 1 => assert (1 as bv8) << 1 == 0x02;
    case 2 => assert (1 as bv8) << 2 == 0x04;
    case 3 => assert (1 as bv8) << 3 == 0x08;
    case 4 => assert (1 as bv8) << 4 == 0x10;
    case 5 => assert (1 as bv8) << 5 == 0x20;
    case 6 => assert (1 as bv8) << 6 == 0x40;
    case 7 => assert (1 as bv8) << 7 == 0x80;
  }

  /** None of the records 0x7D to 0x7F is on, so no record number collides with a control byte. */
  ghost predicate NoControlRecord(f: seq<bv8>)
    requires |f| == SIZE
  {
    forall r: nat | QS_ESC <= r < RECORDS :: !Passes(f, r)
  }

  /** The host asks for none of the records 0x7D to 0x7F. */
  ghost predicate Modest(c: FilterCall)
    requires Legal(c)
  {
    c.Receive? ==> NoControlRecord(c.data)
  }

  lemma {:induction false} NoControlRecordKept(fs: seq<seq<bv8>>, calls: seq<FilterCall>, i: nat)
    requires IsRunOf(fs, calls) && i < |fs| && NoControlRecord(fs[0])
    requires forall j | 0 <= j < i :: Modest(calls[j])
    ensures NoControlRecord(fs[i])
  {
    if i > 0 {
      NoControlRecordKept(fs, calls, i - 1);
      assert After(fs[i - 1], calls[i - 1], fs[i]);
      assert Modest(calls[i - 1]);
    }
  }

  /** Filter calls never enable the last three records as long as no filter command asks for
      them; and the first command that does ask gets them, because its mask is the wrong one. */
  lemma LastThreeRecordsStayOff(fs: seq<seq<bv8>>, calls: seq<FilterCall>)
    requires IsRunOf(fs, calls) && NoControlRecord(fs[0])
    ensures (forall i | 0 <= i < |fs| :: NoControlRecord(fs[i]))
            <==> (forall i | 0 <= i < |calls| :: Modest(calls[i]))
  {
    if i :| 0 <= i < |calls| && !Modest(calls[i]) {
      assert After(fs[i], calls[i], fs[i + 1]);
      var r: nat :| QS_ESC <= r < RECORDS && Passes(calls[i].data, r);
      assert Passes(fs[i + 1], r) && !NoControlRecord(fs[i + 1]);
    } else {
      forall i | 0 <= i < |fs| ensures NoControlRecord(fs[i]) {
        NoControlRecordKept(fs, calls, i);
      }
    }
  }

  // -------------------------------------------------- the records without a mask

  /** All records that are documented as not maskable are on. */
  ghost predicate AllUnmaskableOn(f: seq<bv8>)
    requires |f| == SIZE
  {
    forall r: nat | r <= 124 && !Documented(QS_ALL_RECORDS, r) :: Passes(f, r)
  }

  /** The call does not switch off a single record that is documented as not maskable. */
  ghost predicate SparesUnmaskable(c: FilterCall) {
    c.TurnOff? ==> c.arg >= QS_ALL_RECORDS || Documented(QS_ALL_RECORDS, c.arg)
  }

  lemma {:induction false} UnmaskableKept(fs: seq<seq<bv8>>, calls: seq<FilterCall>, i: nat)
    requires IsRunOf(fs, calls) && i < |fs| && AllUnmaskableOn(fs[0])
    requires forall j | 0 <= j < i :: SparesUnmaskable(calls[j])
    ensures AllUnmaskableOn(fs[i])
  {
    if i > 0 {
      UnmaskableKept(fs, calls, i - 1);
      assert After(fs[i - 1], calls[i - 1], fs[i]) && SparesUnmaskable(calls[i - 1]);
      forall r: nat | r <= 124 && !Documented(QS_ALL_RECORDS, r) ensures Passes(fs[i], r) {
        assert Unmaskable(r) && Passes(fs[i - 1], r);
      }
    }
  }

  /** The records documented as not maskable stay on throughout a run exactly if no call switches
      off one of them by its own number, which the code does not refuse. */
  lemma UnmaskableStayOn(fs: seq<seq<bv8>>, calls: seq<FilterCall>)
    requires IsRunOf(fs, calls) && AllUnmaskableOn(fs[0])
    ensures (forall i | 0 <= i < |fs| :: AllUnmaskableOn(fs[i]))
            <==> (forall i | 0 <= i < |calls| :: SparesUnmaskable(calls[i]))
  {
    if i :| 0 <= i < |calls| && !SparesUnmaskable(calls[i]) {
      assert After(fs[i], calls[i], fs[i + 1]) && Legal(calls[i]);
      var r := calls[i].arg;
      assert Covers(r, r) && !Passes(fs[i + 1], r) && !AllUnmaskableOn(fs[i + 1]);
    } else {
      forall i | 0 <= i < |fs| ensures AllUnmaskableOn(fs[i]) {
        UnmaskableKept(fs, calls, i);
      }
    }
  }
}
