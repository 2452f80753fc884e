/** Which calls of the tracing macros produce a record (include/qs.h, QS_BEGIN_): the bit of the record
    in the global filter and, for calls that name a local filter, the object. */
module QsSelection {
  import opened Arithmetic
  import opened QsRecord
  import opened QsTrace
  import QsFilter

  /** The two tests of the macros, on the bytes of the global filter. */
  predicate IsChosen(filter: seq<bv8>, c: Call)
    requires |filter| == 16
  {
    && filter[c.rec / 8] & ((1 as bv8) << (c.rec % 8)) != 0
    && (c.objFilter == 0 || c.objFilter == c.obj)
  }

  /** A call produces a record exactly if its record's bit is set and it names no local filter or the
      object it is about. */
  lemma AdmitsIff(filter: seq<bv8>, c: Call)
    requires |filter| == 16
    ensures Admits(filter, c) <==>
      && filter[c.rec / 8] & ((1 as bv8) << (c.rec % 8)) != 0
      && (c.objFilter == 0 || c.objFilter == c.obj)
  {
    QsFilter.ShiftedBit(c.rec % 8);
  }

  ghost predicate AreWithin(at: seq<nat>, n: nat) {
    forall j | 0 <= j < |at| :: at[j] < n
  }

  /** `at` are the positions of the calls that are chosen, in order. */
  ghost predicate IsChoice(filter: seq<bv8>, calls: seq<Call>, at: seq<nat>)
    requires |filter| == 16
  {
    && (forall i, j | 0 <= i < j < |at| :: at[i] < at[j]) && AreWithin(at, |calls|)
    && forall i: nat | i < |calls| :: i in at <==> IsChosen(filter, calls[i])
  }

  ghost function Pick(calls: seq<Call>, at: seq<nat>): (r: seq<Call>)
    requires AreWithin(at, |calls|)
    ensures |r| == |at|
  {
    seq(|at|, j requires 0 <= j < |at| => calls[at[j]])
  }

  lemma {:induction false} AdmittedSnoc(filter: seq<bv8>, calls: seq<Call>, c: Call)
    requires |filter| == 16
    ensures Admitted(filter, calls + [c]) == Admitted(filter, calls) + if Admits(filter, c) then [c] else []
    decreases |calls|
  {
    if calls == [] {
      assert calls + [c] == [c] && [c][1..] == [];
    } else {
      assert (calls + [c])[1..] == calls[1..] + [c];
      AdmittedSnoc(filter, calls[1..], c);
    }
  }

  /** The admitted calls are those at the positions `at`, which are the chosen ones. */
  ghost predicate AreAdmitted(filter: seq<bv8>, calls: seq<Call>, at: seq<nat>)
    requires |filter| == 16
  {
    IsChoice(filter, calls, at) && Admitted(filter, calls) == Pick(calls, at)
  }

  /** The admitted calls of a run are the chosen ones, each once and in order. */
  lemma {:induction false} AdmittedAreChosen(filter: seq<bv8>, calls: seq<Call>) returns (at: seq<nat>)
    requires |filter| == 16
    ensures IsChoice(filter, calls, at) && Admitted(filter, calls) == Pick(calls, at)
    decreases |calls|
  {
    if calls == [] {
      at := [];
    } else {
      var n := |calls| - 1;
      var before := AdmittedAreChosen(filter, calls[..n]);
      at := AdmittedOneMore(filter, calls[..n], calls[n], before);
      assert calls == calls[..n] + [calls[n]];
    }
  }

  lemma {:induction false} AdmittedOneMore(filter: seq<bv8>, calls: seq<Call>, c: Call, before: seq<nat>)
    returns (at: seq<nat>)
    requires |filter| == 16 && AreAdmitted(filter, calls, before)
    ensures AreAdmitted(filter, calls + [c], at)
  {
    at := before + if IsChosen(filter, c) then [|calls|] else [];
    AdmittedSnoc(filter, calls, c);
    ChosenIsAdmitted(filter, c);
    OneChoiceMore(filter, calls, c, before);
    PickOneMore(calls, c, before);
    assert before + [] == before;
  }

  lemma ChosenIsAdmitted(filter: seq<bv8>, c: Call)
    requires |filter| == 16
    ensures Admits(filter, c) <==> IsChosen(filter, c)
  {
    AdmitsIff(filter, c);
  }

  lemma {:induction false} OneChoiceMore(filter: seq<bv8>, calls: seq<Call>, c: Call, at: seq<nat>)
    requires |filter| == 16 && IsChoice(filter, calls, at)
    ensures IsChoice(filter, calls + [c], at + if IsChosen(filter, c) then [|calls|] else [])
  {
    var n, more := |calls|, calls + [c];
    var now := at + if IsChosen(filter, c) then [n] else [];
    forall i: nat | i < |more| ensures i in now <==> IsChosen(filter, more[i]) {
      if i < n {
        assert more[i] == calls[i];
      } else {
        assert i in at ==> i < n;
      }
    }
    assert forall i, j | 0 <= i < j < |now| :: now[i] < now[j];
  }

  lemma {:induction false} PickOneMore(calls: seq<Call>, c: Call, at: seq<nat>)
    requires AreWithin(at, |calls|)
    ensures AreWithin(at, |calls + [c]|) && Pick(calls + [c], at) == Pick(calls, at)
    ensures AreWithin(at + [|calls|], |calls + [c]|)
    ensures Pick(calls + [c], at + [|calls|]) == Pick(calls, at) + [c]
  {}

  // ------------------------------------------------------------ local filters

  /** The same calls with another local filter. */
  function WithFilter(calls: seq<Call>, o: nat): seq<Call> {
    if calls == [] then [] else [calls[0].(objFilter := o)] + WithFilter(calls[1..], o)
  }

  /** Those of the calls that are about object `o`. */
  function About(calls: seq<Call>, o: nat): seq<Call> {
    if calls == [] then [] else (if calls[0].obj == o then [calls[0]] else []) + About(calls[1..], o)
  }

  /** Naming an object in the local filter keeps, of what is produced without one, the records about
      this object, in order; and without one everything is produced whose bit is set. */
  lemma {:induction false} LocalFilterSelects(filter: seq<bv8>, calls: seq<Call>, o: nat)
    requires |filter| == 16 && o != 0
    ensures Admitted(filter, WithFilter(calls, o))
            == WithFilter(About(Admitted(filter, WithFilter(calls, 0)), o), o)
  {
    if calls != [] {
      LocalFilterSelects(filter, calls[1..], o);
      var all, c := Admitted(filter, WithFilter(calls[1..], 0)), calls[0];
      FirstWithFilter(calls, o);
      FirstWithFilter(calls, 0);
      if QsFilter.Passes(filter, c.rec) {
        assert Admitted(filter, WithFilter(calls, 0)) == [c.(objFilter := 0)] + all;
        assert ([c.(objFilter := 0)] + all)[1..] == all;
        if c.obj == o {
          var kept := [c.(objFilter := 0)] + About(all, o);
          assert kept[1..] == About(all, o);
        } else {
          assert [] + About(all, o) == About(all, o);
        }
      } else {
        assert [] + all == all;
      }
    }
  }

  lemma FirstWithFilter(calls: seq<Call>, o: nat)
    requires calls != []
    ensures WithFilter(calls, o)[0] == calls[0].(objFilter := o)
    ensures WithFilter(calls, o)[1..] == WithFilter(calls[1..], o)
  {}

  /** The local filter is not part of a record. */
  lemma {:induction false} BodiesWithFilter(seqNo: byte, calls: seq<Call>, o: nat)
    ensures Bodies(seqNo, WithFilter(calls, o)) == Bodies(seqNo, calls)
    decreases |calls|
  {
    if calls != [] {
      FirstWithFilter(calls, o);
      BodiesWithFilter((seqNo + 1) % 256, calls[1..], o);
    }
  }
}
