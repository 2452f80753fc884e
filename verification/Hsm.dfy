/** The event processor for hierarchical state machines (src/qf/qep_hsm.cpp). */
module Hsm {
  import opened Collections
  import opened StateTree

  const MAX_NEST_DEPTH := 6

  /** What a state-handler function answers. */
  datatype QState = Q_RET_SUPER | Q_RET_UNHANDLED | Q_RET_HANDLED | Q_RET_IGNORED | Q_RET_TRAN

  /** How the state handlers behave during one run-to-completion step. Handlers may read and
      change variables of the machine, so nothing is assumed about the answers of different
      steps; within a step each handler is asked at most once for the event and for each of its
      entry, exit and initial actions. */
  datatype Behaviour = Behaviour(
    react: State -> Reaction,      // the answer to the event
    handlesExit: State -> bool,    // the handler has an exit action
    handlesEntry: State -> bool,   // the handler has an entry action
    initial: State -> Option<State>,  // the target of the initial transition, if there is one
    depth: nat)                    // how deep the states that are targets are nested at most

  datatype Reaction = Super | Unhandled | Handled | Ignored | Transition(target: State)

  /** The rules a state machine has to follow: no transition goes to the top state, initial
      transitions go to proper substates, and the paths to enter fit into the path array. */
  ghost predicate WellFormed(m: Behaviour) {
    && (forall s: State | s.Sub? :: m.react(s).Transition? ==> IsTarget(m, s, m.react(s).target))
    && ValidInitials(m)
    && (forall s: State :: m.initial(s).Some? ==> InitialFits(s, m.initial(s).value))
  }

  ghost predicate ValidInitials(m: Behaviour) {
    forall s: State :: m.initial(s).Some? ==> IsInitialTarget(m, s, m.initial(s).value)
  }

  predicate IsTarget(m: Behaviour, s: State, t: State)
    requires s.Sub?
  {
    t.Sub? && Depth(t) <= m.depth && TransitionFits(s, t)
  }

  predicate IsInitialTarget(m: Behaviour, s: State, t: State) {
    t != s && Contains(s, t) && Depth(t) <= m.depth
  }

  /** Every index that hsm_tran writes for a transition from `s` to `t` is in the path array. */
  predicate TransitionFits(s: State, t: State)
    requires s.Sub? && t.Sub?
  {
    LargestIndex(s, t) < MAX_NEST_DEPTH
  }

  /** So is every index that the drilling loops write for an initial transition. */
  predicate InitialFits(s: State, t: State) {
    Depth(t) - Depth(s) - 1 < MAX_NEST_DEPTH
  }

  // --------------------------------------------------------- the specification

  /** The state whose handler settles the event, found by going outwards. */
  function Settler(react: State -> Reaction, s: State): State {
    if s.Sub? && (react(s).Super? || react(s).Unhandled?) then Settler(react, s.super) else s
  }

  /** The answer that settles the event; the top state ignores everything. */
  function Settled(react: State -> Reaction, s: State): Reaction {
    var h := Settler(react, s);
    if h.Top? then Ignored else react(h)
  }

  /** Going down from `t` along initial transitions. */
  ghost function DrillActions(m: Behaviour, t: State): seq<Action>
    requires ValidInitials(m)
    decreases m.depth - Depth(t)
  {
    if m.initial(t).None? then [Initial(t)]
    else
      var x := m.initial(t).value;
      DeeperTarget(m, t, x);
      [Initial(t)] + EntryPath(t, x) + DrillActions(m, x)
  }

  ghost function DrillEnd(m: Behaviour, t: State): (r: State)
    requires ValidInitials(m)
    ensures m.initial(r).None? && Contains(t, r)
    decreases m.depth - Depth(t)
  {
    if m.initial(t).None? then t
    else
      var x := m.initial(t).value;
      DeeperTarget(m, t, x);
      var r := DrillEnd(m, x);
      ContainsTransitive(t, x, r);
      r
  }

  lemma DeeperTarget(m: Behaviour, s: State, t: State)
    requires IsInitialTarget(m, s, t)
    ensures Depth(s) < Depth(t) <= m.depth
  {
    ContainedIsUp(s, t);
  }

  /** Everything one run-to-completion step does to the configuration. */
  ghost function StepActions(m: Behaviour, s: State): seq<Action>
    requires WellFormed(m)
  {
    match Settled(m.react, s)
    case Transition(t) =>
      var h := Settler(m.react, s);
      SettlerContains(m.react, s);
      ExitPath(s, h) + Exits(h, t) + Entries(h, t) + DrillActions(m, t)
    case _ => []
  }

  ghost function StepEnd(m: Behaviour, s: State): State
    requires WellFormed(m)
  {
    match Settled(m.react, s)
    case Transition(t) => DrillEnd(m, t)
    case _ => s
  }

  lemma {:induction false} SettlerContains(react: State -> Reaction, s: State)
    ensures Contains(Settler(react, s), s)
  {
    if s.Sub? {
      SettlerContains(react, s.super);
    }
  }

  /** The event is offered to a state and then to its superstates, one by one, as long as the handlers
      have no answer or their guards fail. The one that settles it is the first with another answer, or
      the top state. */
  lemma {:induction false} SettlerIsFirst(react: State -> Reaction, s: State) returns (n: nat)
    ensures n <= Depth(s) && Settler(react, s) == Up(s, n)
    ensures forall i: nat | i < n :: react(Up(s, i)).Super? || react(Up(s, i)).Unhandled?
    ensures Up(s, n).Top? || !(react(Up(s, n)).Super? || react(Up(s, n)).Unhandled?)
  {
    n := 0;
    if s.Sub? && (react(s).Super? || react(s).Unhandled?) {
      var m := SettlerIsFirst(react, s.super);
      n := m + 1;
      forall i: nat | i < n ensures react(Up(s, i)).Super? || react(Up(s, i)).Unhandled? {
        assert i > 0 ==> Up(s, i) == Up(s.super, i - 1);
      }
    }
  }

  /** All states between `s` and its n-th superstate pass the event on, and this one settles it. */
  ghost predicate IsSettledAt(react: State -> Reaction, s: State, n: nat) {
    && n <= Depth(s)
    && (forall i: nat | i < n :: react(Up(s, i)).Super? || react(Up(s, i)).Unhandled?)
    && (Up(s, n).Top? || !(react(Up(s, n)).Super? || react(Up(s, n)).Unhandled?))
  }

  lemma {:induction false} SettledAtSettler(react: State -> Reaction, s: State, n: nat)
    requires IsSettledAt(react, s, n)
    ensures Settler(react, s) == Up(s, n)
  {
    if n > 0 {
      assert Up(s, 0) == s && forall i: nat | i < n - 1 :: Up(s, i + 1) == Up(s.super, i);
      SettledAtSettler(react, s.super, n - 1);
    }
  }

  /** The initial transitions from the first of the states on: each leads to the next one, inside the
      state itself, and the last one has none. */
  ghost predicate IsDrillChain(m: Behaviour, xs: seq<State>)
    decreases |xs|
  {
    && xs != []
    && if |xs| == 1 then m.initial(xs[0]).None?
       else m.initial(xs[0]) == Some(xs[1]) && Contains(xs[0], xs[1]) && IsDrillChain(m, xs[1..])
  }

  /** Every state of the chain is asked for its initial transition, and behind all but the last the
      states down to its target are entered. */
  ghost function ChainActions(m: Behaviour, xs: seq<State>): seq<Action>
    requires IsDrillChain(m, xs)
    decreases |xs|
  {
    if |xs| == 1 then [Initial(xs[0])]
    else [Initial(xs[0])] + EntryPath(xs[0], xs[1]) + ChainActions(m, xs[1..])
  }

  /** Drilling follows the chain of initial transitions to its end. */
  lemma {:induction false} DrillFollowsChain(m: Behaviour, t: State) returns (xs: seq<State>)
    requires ValidInitials(m)
    ensures IsDrillChain(m, xs) && xs[0] == t && DrillEnd(m, t) == xs[|xs| - 1]
    ensures DrillActions(m, t) == ChainActions(m, xs)
    decreases m.depth - Depth(t)
  {
    if m.initial(t).None? {
      xs := [t];
    } else {
      var x := m.initial(t).value;
      DeeperTarget(m, t, x);
      var more := DrillFollowsChain(m, x);
      xs := [t] + more;
      assert xs[1..] == more;
    }
  }

  /** What a step does, in terms of the offers of the event. If the first of the states, from the current
      one outwards, whose handler does not pass the event on takes a transition, the states up to it are
      left, then those up to the least common ancestor with the target; the target is entered, and the
      initial transitions lead on to a state inside it that has none. Otherwise nothing happens. */
  lemma StepByOffers(m: Behaviour, s: State, n: nat)
    requires WellFormed(m) && n <= Depth(s)
    requires forall i: nat | i < n :: m.react(Up(s, i)).Super? || m.react(Up(s, i)).Unhandled?
    requires Up(s, n).Top? || !(m.react(Up(s, n)).Super? || m.react(Up(s, n)).Unhandled?)
    ensures Contains(Up(s, n), s)
    ensures var h := Up(s, n);
      if h.Sub? && m.react(h).Transition? then
        var t := m.react(h).target;
        && Contains(t, StepEnd(m, s)) && m.initial(StepEnd(m, s)).None?
        && StepActions(m, s) == ExitPath(s, h) + Exits(h, t) + Entries(h, t) + DrillActions(m, t)
      else
        StepEnd(m, s) == s && StepActions(m, s) == []
  {
    UpIsContained(s, n);
    SettledAtSettler(m.react, s, n);
  }

  // ---------------------------------------------------------------- the machine

  class QHsm {
    var state: State
    var temp: State
    ghost var log: seq<Action>  // the exit, entry and initial signals sent so far

    /** The configuration is stable, and everything done so far led to it: every state was left
        only while it was the innermost active one, and entered only from its superstate. */
    ghost predicate Valid()
      reads this
    {
      temp == state && Replay(Top, log) == Some(state)
    }

    // ------------------------------------------------ the calls of state handlers

    /** The empty signal: every handler but the top one answers with its superstate. */
    method TrigEmpty(s: State) returns (r: QState)
      modifies this`temp
      ensures s.Top? ==> r == Q_RET_IGNORED && temp == old(temp)
      ensures s.Sub? ==> r == Q_RET_SUPER && temp == s.super
    {
      if s.Top? {
        r := Q_RET_IGNORED;
      } else {
        temp := s.super;
        r := Q_RET_SUPER;
      }
    }

    /** The exit signal: a handler without an exit action answers with its superstate. */
    method TrigExit(s: State, handles: State -> bool) returns (r: QState)
      requires s.Sub?
      modifies this`temp, this`log
      ensures log == old(log) + [Exit(s)]
      ensures r == (if handles(s) then Q_RET_HANDLED else Q_RET_SUPER)
      ensures temp == if handles(s) then old(temp) else s.super
    {
      log := log + [Exit(s)];
      if handles(s) {
        r := Q_RET_HANDLED;
      } else {
        temp := s.super;
        r := Q_RET_SUPER;
      }
    }

    method TrigEntry(s: State, handles: State -> bool)
      requires s.Sub?
      modifies this`temp, this`log
      ensures log == old(log) + [Enter(s)]
    {
      log := log + [Enter(s)];
      if !handles(s) {
        temp := s.super;
      }
    }

    method TrigInit(s: State, initial: State -> Option<State>) returns (r: QState)
      modifies this`temp, this`log
      ensures log == old(log) + [Initial(s)]
      ensures initial(s).Some? ==> r == Q_RET_TRAN && temp == initial(s).value
      ensures initial(s).None? ==> r != Q_RET_TRAN
    {
      log := log + [Initial(s)];
      if initial(s).Some? {
        temp := initial(s).value;
        r := Q_RET_TRAN;
      } else if s.Sub? {
        temp := s.super;
        r := Q_RET_SUPER;
      } else {
        r := Q_RET_IGNORED;
      }
    }

    /** Offers the event to the current state and then to its superstates until it is settled. */
    method FindSettler(react: State -> Reaction) returns (s: State, r: QState)
      requires temp == state
      modifies this`temp
      ensures s == Settler(react, state)
      ensures r == Q_RET_TRAN <==> Settled(react, state).Transition?
      ensures r == Q_RET_TRAN ==> temp == Settled(react, state).target && s.Sub?
    {
      r := Q_RET_SUPER;
      s := temp;
      while r == Q_RET_SUPER
        invariant r == Q_RET_SUPER ==> Settler(react, temp) == Settler(react, state)
        invariant r != Q_RET_SUPER ==> s == Settler(react, state)
        invariant r != Q_RET_SUPER ==> (r == Q_RET_TRAN <==> Settled(react, state).Transition?)
        invariant r == Q_RET_TRAN ==> temp == Settled(react, state).target && s.Sub?
        decreases if r == Q_RET_SUPER then 1 + Depth(temp) else 0
      {
        s := temp;
        r := TrigEvent(s, react);
        if r == Q_RET_UNHANDLED {
          r := TrigEmpty(s);
        }
      }
    }

    /** The event itself, sent to one handler. */
    method TrigEvent(s: State, react: State -> Reaction) returns (r: QState)
      modifies this`temp
      ensures s.Top? ==> r == Q_RET_IGNORED && temp == old(temp)
      ensures s.Sub? ==> match react(s)
        case Super => r == Q_RET_SUPER && temp == s.super
        case Unhandled => r == Q_RET_UNHANDLED && temp == old(temp)
        case Handled => r == Q_RET_HANDLED && temp == old(temp)
        case Ignored => r == Q_RET_IGNORED && temp == old(temp)
        case Transition(t) => r == Q_RET_TRAN && temp == t
    {
      if s.Top? {
        r := Q_RET_IGNORED;
      } else {
        match react(s) {
          case Super => temp, r := s.super, Q_RET_SUPER;
          case Unhandled => r := Q_RET_UNHANDLED;
          case Handled => r := Q_RET_HANDLED;
          case Ignored => r := Q_RET_IGNORED;
          case Transition(t) => temp, r := t, Q_RET_TRAN;
        }
      }
    }

    // -------------------------------------------------------- the transition

    /** Leaves the current state and the states around it up to the source of the transition. */
    method ExitToSource(t0: State, s: State, handlesExit: State -> bool)
      requires Contains(s, t0)
      modifies this`temp, this`log
      ensures log == old(log) + ExitPath(t0, s)
    {
      var t := t0;
      while t != s
        invariant Contains(s, t) && Contains(t, t0) && log == old(log) + ExitPath(t0, t)
        decreases Depth(t)
      {
        ExitPathSnoc(t0, t);
        var r := TrigExit(t, handlesExit);
        if r == Q_RET_HANDLED {
          r := TrigEmpty(t);
        }
        t := temp;
      }
    }

    /** Searches the stored path from index `ip` downwards for `t`. */
    method FindInPath(path: array<State>, ip: int, t: State) returns (found: bool, at: int)
      requires 0 <= ip < path.Length
      ensures found ==> 0 <= at <= ip && path[at] == t
      ensures !found ==> forall i | 0 <= i <= ip :: path[i] != t
    {
      var iq := ip;
      found, at := false, 0;
      while iq >= 0 && !found
        invariant -1 <= iq <= ip
        invariant found ==> 0 <= at <= ip && path[at] == t
        invariant !found ==> forall i | iq < i <= ip :: path[i] != t
        decreases if found then 0 else iq + 1
      {
        if t == path[iq] {
          found, at := true, iq;
        } else {
          iq := iq - 1;
        }
      }
    }

    /** Part (e): stores the superstates of the target, from the second on, until the source or
        the top state turns up. The source itself is not to be entered again. */
    method StorePath(path: array<State>, s: State) returns (found: bool, ip: int, ghost top: int)
      requires path.Length > 1 && path[0].Sub? && path[1] == path[0].super
      requires s.Sub? && s != path[0] && s != path[1]
      requires LargestIndexStored(s, path[0]) < path.Length
      modifies this`temp, path
      ensures path[0] == old(path[0])
      ensures found <==> Contains(s, path[0])
      ensures 1 <= ip < path.Length && HoldsPath(path[..], ip)
      ensures found ==> ip < Depth(path[0]) && Up(path[0], ip + 1) == s
      ensures !found ==> ip == Depth(path[0])
      ensures top == LargestIndexStored(s, path[0])
    {
      ghost var t := path[0];
      found, ip, top := false, 1, 1;
      var r := TrigEmpty(path[1]);
      assert Up(t, 1) == t.super;
      if path[1].Sub? {
        UpNext(t, 1);
      }
      while r == Q_RET_SUPER
        invariant path[0] == t && 1 <= ip < path.Length && HoldsPath(path[..], ip)
        invariant found ==> r != Q_RET_SUPER && ip < Depth(t) && Up(t, ip + 1) == s
        invariant top == if found then ip + 1 else ip
        invariant !found ==> forall i | 0 <= i <= ip :: path[i] != s
        invariant r == Q_RET_SUPER ==> !found && ip < Depth(t) && temp == Up(t, ip + 1)
        invariant r != Q_RET_SUPER && !found ==> ip == Depth(t)
        decreases Depth(t) - ip, r == Q_RET_SUPER
      {
        StoredIndex(s, t, ip, path[..]);
        ip := ip + 1;
        path[ip] := temp;
        top := ip;
        if temp == s {
          found := true;
          ip := ip - 1;
          r := Q_RET_HANDLED;
        } else {
          if ip < Depth(t) {
            UpNext(t, ip);
          }
          r := TrigEmpty(temp);
        }
      }
      if found {
        UpIsContained(t, ip + 1);
        ContainedIsUp(s, t);
      } else {
        OnPath(path[..], s);
      }
    }

    /** Part (g): leaves the states around the source one by one until one is on the path. */
    method ExitToPath(path: array<State>, t0: State, top: int, handlesExit: State -> bool)
      returns (ip: int)
      requires 0 <= top < path.Length && HoldsPath(path[..], top) && top == Depth(path[0])
      requires !Contains(t0, path[0])
      modifies this`temp, this`log
      ensures -1 <= ip < top && Up(path[0], ip + 1) == Lca(t0, path[0])
      ensures log == old(log) + ExitPath(t0, Lca(t0, path[0]))
    {
      var t, found := t0, false;
      ip := top;
      while !found
        invariant Contains(t, t0) && log == old(log) + ExitPath(t0, t)
        invariant found <==> Contains(t, path[0])
        invariant !found ==> ip == top && Lca(t0, path[0]) == Lca(t, path[0])
        invariant found ==> -1 <= ip < top && Up(path[0], ip + 1) == t == Lca(t0, path[0])
        decreases if found then 0 else 1 + Depth(t)
      {
        TopContainsAll(path[0]);
        ExitPathSnoc(t0, t);
        var r := TrigExit(t, handlesExit);
        if r == Q_RET_HANDLED {
          r := TrigEmpty(t);
        }
        t := temp;
        var at;
        found, at := FindInPath(path, ip, t);
        OnPath(path[..], t);
        if found {
          ip := at - 1;
        }
      }
    }

    /** Parts (e) to (g): the nearest relatives were ruled out, so the path of the target is stored
        and the source is left until a state on that path is reached. `top` is the largest index
        written. */
    method TranByPath(path: array<State>, s: State, handlesExit: State -> bool)
      returns (ip: int, ghost top: int)
      requires path.Length > 2 && path[0].Sub? && path[1] == path[0].super
      requires s.Sub? && s != path[0] && s != path[1] && temp == s.super
      requires LargestIndexStored(s, path[0]) < path.Length
      modifies this`temp, this`log, path
      ensures path[0] == old(path[0]) && log == old(log) + Exits(s, path[0])
      ensures -1 <= ip < path.Length && HoldsPath(path[..], ip)
      ensures EntersFrom(s, path[0], ip) && top == LargestIndexStored(s, path[0])
    {
      ghost var log0 := log;
      var t := temp;
      var found;
      found, ip, top := StorePath(path, s);
      ExitsOf(s, path[0]);
      if !found {
        var r := TrigExit(s, handlesExit);
        OnPath(path[..], t);
        var at;
        found, at := FindInPath(path, ip, t);
        if found {
          ip := at - 1;
        } else {
          ip := ExitToPath(path, t, ip, handlesExit);
          assert log == log0 + ([Exit(s)] + ExitPath(s.super, Lca(s, path[0])));
        }
      }
    }

    /** Finds the least common ancestor of source and target, leaves the states below it on the
        side of the source, and stores the states to be entered on the side of the target. `top` is
        the largest index written, -1 if there is none. */
    method HsmTran(path: array<State>, handlesExit: State -> bool) returns (ip: int, ghost top: int)
      requires path.Length > 2 && path[0].Sub? && path[2].Sub?
      requires LargestIndex(path[2], path[0]) < path.Length
      modifies this`temp, this`log, path
      ensures path[0] == old(path[0]) && log == old(log) + Exits(old(path[2]), path[0])
      ensures -1 <= ip < path.Length && HoldsPath(path[..], ip)
      ensures EntersFrom(old(path[2]), path[0], ip) && top == LargestIndex(old(path[2]), path[0])
    {
      ip, top := -1, -1;
      var t, s := path[0], path[2];
      ghost var target := t;
      var r;
      if s == t {
        r := TrigExit(s, handlesExit);
        ip := 0;
      } else {
        ExitsOf(s, target);
        r := TrigEmpty(t);
        t := temp;
        if s == t {
          ip := 0;
          assert Contains(s, target);
        } else {
          r := TrigEmpty(s);
          LcaOfSibling(s, target);
          if temp == t {
            r := TrigExit(s, handlesExit);
            ip := 0;
          } else if temp == path[0] {
            r := TrigExit(s, handlesExit);
          } else {
            path[1] := t;
            ip, top := TranByPath(path, s, handlesExit);
          }
        }
      }
    }

    // ------------------------------------------------------ entering and drilling

    /** Retraces the stored path inwards, from index `ip0` down to the target at index 0. */
    method EnterPath(path: array<State>, ip0: int, handlesEntry: State -> bool)
      requires -1 <= ip0 && HoldsPath(path[..], ip0) && path.Length > 0
      requires ip0 < Depth(path[0])
      modifies this`temp, this`log
      ensures UpContainsTarget(path[0], ip0 + 1)
      ensures log == old(log) + EntryPath(Up(path[0], ip0 + 1), path[0])
    {
      ghost var t, a := path[0], Up(path[0], ip0 + 1);
      UpIsContained(t, ip0 + 1);
      var ip := ip0;
      while ip >= 0
        invariant -1 <= ip <= ip0 && Contains(a, Up(t, ip + 1))
        invariant log == old(log) + EntryPath(a, Up(t, ip + 1))
      {
        UpNext(t, ip);
        UpContainsUp(t, ip, ip0 + 1);
        ProperGap(t, ip, ip0 + 1);
        TrigEntry(path[ip], handlesEntry);
        ip := ip - 1;
      }
    }

    /** Stores the target of an initial transition and its superstates below `t`. `top` is the
        largest index written. */
    method StoreDown(path: array<State>, t: State) returns (ip: int, ghost top: int)
      requires temp != t && Contains(t, temp) && path.Length > 0 && Depth(temp) - Depth(t) - 1 < path.Length
      modifies this`temp, path
      ensures path[0] == old(temp) == temp
      ensures 0 <= ip < path.Length && HoldsPath(path[..], ip)
      ensures ip < Depth(path[0]) && Up(path[0], ip + 1) == t
      ensures top == Depth(path[0]) - Depth(t) - 1
    {
      ghost var x := temp;
      ContainedIsUp(t, x);
      ip, top := 0, 0;
      path[0] := temp;
      UpNext(x, 0);
      var r := TrigEmpty(temp);
      while temp != t
        invariant path[0] == x && 0 <= ip < Depth(x) - Depth(t) && top == ip
        invariant HoldsPath(path[..], ip) && temp == Up(x, ip + 1)
        decreases Depth(x) - ip
      {
        ip := ip + 1;
        path[ip] := temp;
        top := ip;
        UpNext(x, ip);
        r := TrigEmpty(temp);
      }
      temp := path[0];
    }

    /** Follows initial transitions downwards until a state without one is reached. */
    method Drill(path: array<State>, t0: State, m: Behaviour) returns (t: State)
      requires path.Length == MAX_NEST_DEPTH && ValidInitials(m)
      requires forall s: State :: m.initial(s).Some? ==> InitialFits(s, m.initial(s).value)
      modifies this`temp, this`log, path
      ensures t == DrillEnd(m, t0)
      ensures log == old(log) + DrillActions(m, t0)
    {
      t := t0;
      var r := TrigInit(t, m.initial);
      while r == Q_RET_TRAN
        invariant r == Q_RET_TRAN <==> m.initial(t).Some?
        invariant r == Q_RET_TRAN ==> temp == m.initial(t).value
        invariant DrillEnd(m, t) == DrillEnd(m, t0)
        invariant log + DrillActions(m, t)[1..] == old(log) + DrillActions(m, t0)
        decreases m.depth - Depth(t)
      {
        ghost var x, log0 := temp, log;
        DeeperTarget(m, t, x);
        var ip, top := StoreDown(path, t);
        EnterPath(path, ip, m.handlesEntry);
        DrillOnce(log0, m, t, x);
        t := path[0];
        r := TrigInit(t, m.initial);
      }
    }

    // ------------------------------------------------------------ the interface

    constructor ()
      ensures Valid() && state == Top && log == []
    {
      state, temp, log := Top, Top, [];
    }

    /** The top-most initial transition, to be executed once. */
    method Init(target: State, m: Behaviour)
      requires Valid() && state == Top && WellFormed(m) && target.Sub? && InitialFits(Top, target)
      modifies this
      ensures Valid() && state == DrillEnd(m, target) && Contains(Top, target)
      ensures log == old(log) + EntryPath(Top, target) + DrillActions(m, target)
    {
      var path := new State[MAX_NEST_DEPTH];
      var t := state;
      temp := target;
      TopContainsAll(target);
      var ip, top := StoreDown(path, t);
      ContainedIsUp(Top, target);
      EnterPath(path, ip, m.handlesEntry);
      t := Drill(path, path[0], m);
      state := t;
      temp := t;
      ReplayEntryPath(Top, target);
      ReplayDrill(m, target);
      ReplayConcat(Top, old(log), EntryPath(Top, target));
      ReplayConcat(Top, old(log) + EntryPath(Top, target), DrillActions(m, target));
    }

    /** The transition from the current state `t0`, whose superstate `s` asked for it. */
    method TakeTransition(t0: State, s: State, m: Behaviour) returns (t: State)
      requires Contains(s, t0) && s.Sub? && temp.Sub? && TransitionFits(s, temp) && ValidInitials(m)
      requires forall s: State :: m.initial(s).Some? ==> InitialFits(s, m.initial(s).value)
      modifies this`temp, this`log
      ensures t == DrillEnd(m, old(temp))
      ensures log == old(log) + (ExitPath(t0, s) + Exits(s, old(temp)) + Entries(s, old(temp))
                                 + DrillActions(m, old(temp)))
    {
      var path := new State[MAX_NEST_DEPTH];
      path[0] := temp;
      path[1] := t0;
      path[2] := s;
      ghost var target := temp;
      ExitToSource(t0, s, m.handlesExit);
      var ip, top := HsmTran(path, m.handlesExit);
      EntersIsEntries(s, target, ip);
      EnterPath(path, ip, m.handlesEntry);
      t := path[0];
      temp := t;
      t := Drill(path, t, m);
      Join(old(log), ExitPath(t0, s), Exits(s, target), Entries(s, target), DrillActions(m, target));
    }

    /** One run-to-completion step. */
    method Dispatch(m: Behaviour)
      requires Valid() && WellFormed(m)
      modifies this
      ensures Valid() && state == StepEnd(m, old(state))
      ensures log == old(log) + StepActions(m, old(state))
    {
      var t := state;
      var s, r := FindSettler(m.react);
      if r == Q_RET_TRAN {
        SettlerContains(m.react, t);
        t := TakeTransition(t, s, m);
        ReplayStep(m, old(state));
        ReplayConcat(Top, old(log), StepActions(m, old(state)));
      }
      state := t;
      temp := t;
    }

    /** Is the machine in state `s`, directly or through one of its substates? */
    method IsIn(s: State) returns (inState: bool)
      requires temp == state
      modifies this`temp
      ensures temp == state && (inState <==> Contains(s, state))
    {
      inState := false;
      var r := Q_RET_SUPER;
      while r != Q_RET_IGNORED
        invariant r != Q_RET_IGNORED ==> !inState && (Contains(s, state) <==> Contains(s, temp))
        invariant r == Q_RET_IGNORED ==> (inState <==> Contains(s, state))
        decreases if r == Q_RET_IGNORED then 0 else 1 + Depth(temp)
      {
        if temp == s {
          inState := true;
          r := Q_RET_IGNORED;
        } else {
          r := TrigEmpty(temp);
        }
      }
      temp := state;
    }

    /** The substate of `parent` on the way to the current state, as shallow history needs it.
        The source asserts that there is one. */
    method ChildState(parent: State) returns (child: State)
      requires Contains(parent, state)
      modifies this`temp
      ensures temp == state && Contains(child, state)
      ensures if parent == state then child == state else child.Sub? && child.super == parent
    {
      child := state;
      var isFound := false;
      temp := state;
      var r := Q_RET_SUPER;
      while r != Q_RET_IGNORED
        invariant Contains(child, state) && Contains(parent, temp) && Contains(temp, state)
        invariant (child == temp == state)
                  || (child.Sub? && child.super == temp && Depth(temp) < Depth(state))
        invariant r == Q_RET_IGNORED ==> temp == parent && isFound
        decreases if r == Q_RET_IGNORED then 0 else 1 + Depth(temp)
      {
        if temp == parent {
          isFound := true;
          r := Q_RET_IGNORED;
        } else {
          child := temp;
          ContainedIsUp(temp, state);
          r := TrigEmpty(temp);
          assert Contains(temp, child);
          ContainsTransitive(temp, child, state);
        }
      }
      temp := state;
      assert isFound;
    }
  }

  /** The largest index of the path array that hsm_tran writes, -1 if it writes none: that is so for
      the nearest relatives; otherwise the target and its superstates are stored, up to the source if
      it is among them and up to the top state if it is not. */
  function LargestIndex(s: State, t: State): int
    requires s.Sub? && t.Sub?
  {
    if s == t || s == t.super || s.super == t.super || s.super == t then -1 else LargestIndexStored(s, t)
  }

  function LargestIndexStored(s: State, t: State): nat {
    if Contains(s, t) then DepthGap(s, t); Depth(t) - Depth(s) else Depth(t)
  }

  /** The path array holds the target and its superstates up to index `ip`. */
  ghost predicate HoldsPath(path: seq<State>, ip: int) {
    ip < |path| && (ip >= 0 ==> ip <= Depth(path[0])) && forall i | 0 <= i <= ip :: path[i] == Up(path[0], i)
  }

  /** Which states of the path are still to be entered: those below the least common ancestor. */
  ghost predicate EntersFrom(s: State, t: State, ip: int) {
    if s == t then ip == 0 else -1 <= ip < Depth(t) && Up(t, ip + 1) == Lca(s, t)
  }

  // ------------------------------------------------------- the size of the path array

  /** A state nested `n` deep. */
  function Nested(n: nat): (s: State)
    ensures Depth(s) == n
  {
    if n == 0 then Top else Sub(0, Nested(n - 1))
  }

  /** No transition between states nested up to `depth` deep writes behind the path array if and only
      if `depth` is at most five, although the array is meant for six. */
  lemma TransitionsFitUpTo(depth: nat)
    ensures (forall s: State, t: State | s.Sub? && t.Sub? && Depth(s) <= depth && Depth(t) <= depth ::
               TransitionFits(s, t))
            <==> depth < MAX_NEST_DEPTH
  {
    if depth >= MAX_NEST_DEPTH {
      SixDeepOverruns(Sub(1, Top), Nested(MAX_NEST_DEPTH));
    }
  }

  /** A target nested six deep and a source that does not contain it, is not contained in it and is not
      its sibling: the index behind the array is written. */
  lemma SixDeepOverruns(s: State, t: State)
    requires Depth(s) == 1 && Depth(t) == MAX_NEST_DEPTH && s.name != Up(t, MAX_NEST_DEPTH - 1).name
    ensures s.Sub? && t.Sub? && LargestIndex(s, t) == MAX_NEST_DEPTH && !TransitionFits(s, t)
  {
    if Contains(s, t) {
      ContainedIsUp(s, t);
    }
    assert Depth(t.super) == MAX_NEST_DEPTH - 1;
  }

  /** The drilling loops are in range exactly if no initial transition skips more than six levels, so
      for all states nested up to `depth` deep exactly if `depth` is at most six. */
  lemma InitialsFitUpTo(depth: nat)
    ensures (forall s: State, t: State | s != t && Contains(s, t) && Depth(t) <= depth :: InitialFits(s, t))
            <==> depth <= MAX_NEST_DEPTH
  {
    if depth > MAX_NEST_DEPTH {
      TopContainsAll(Nested(depth));
      assert !InitialFits(Top, Nested(depth));
    }
  }

  /** A deeper target is no harm if the source contains it closely enough: what counts is the distance
      in this case, and the depth in the others. */
  lemma TransitionFitsIff(s: State, t: State)
    requires s.Sub? && t.Sub? && s != t && s != t.super && s.super != t.super && s.super != t
    ensures TransitionFits(s, t)
            <==> exists n: nat | n < MAX_NEST_DEPTH && n <= Depth(t) :: Up(t, n) == s || Up(t, n) == Top
  {
    if Contains(s, t) {
      ContainedIsUp(s, t);
      assert Up(t, Depth(t) - Depth(s)) == s;
    } else {
      TopContainsAll(t);
      ContainedIsUp(Top, t);
      assert Up(t, Depth(t)) == Top;
    }
    forall n: nat | n < MAX_NEST_DEPTH && n <= Depth(t) && (Up(t, n) == s || Up(t, n) == Top)
      ensures TransitionFits(s, t)
    {
      UpIsContained(t, n);
    }
  }

  /** Retracing the stored path enters what the transition has to enter. */
  lemma EntersIsEntries(s: State, t: State, ip: int)
    requires s.Sub? && t.Sub? && EntersFrom(s, t, ip)
    ensures -1 <= ip < Depth(t) && Contains(Up(t, ip + 1), t)
    ensures EntryPath(Up(t, ip + 1), t) == Entries(s, t)
  {
    UpIsContained(t, ip + 1);
    if s == t {
      assert Up(t, 1) == t.super;
      ProperSuper(t);
      assert EntryPath(t.super, t) == EntryPath(t.super, t.super) + [Enter(t)];
    }
  }

  lemma {:induction false} ReplayDrill(m: Behaviour, t: State)
    requires ValidInitials(m)
    ensures Replay(t, DrillActions(m, t)) == Some(DrillEnd(m, t))
    decreases m.depth - Depth(t)
  {
    ReplayOne(t, Initial(t));
    if m.initial(t).Some? {
      var x := m.initial(t).value;
      DeeperTarget(m, t, x);
      ReplayEntryPath(t, x);
      ReplayDrill(m, x);
      ReplayConcat(t, [Initial(t)], EntryPath(t, x));
      ReplayConcat(t, [Initial(t)] + EntryPath(t, x), DrillActions(m, x));
    }
  }

  /** The actions of a step lead from one configuration to the other, each state being left only
      as the innermost active one and entered only from its superstate. */
  lemma ReplayStep(m: Behaviour, s: State)
    requires WellFormed(m)
    ensures Replay(s, StepActions(m, s)) == Some(StepEnd(m, s))
  {
    match Settled(m.react, s)
    case Transition(t) =>
      var h := Settler(m.react, s);
      SettlerContains(m.react, s);
      assert h.Sub? && IsTarget(m, h, t);
      ReplayExitPath(s, h);
      ReplayTransition(h, t);
      ReplayDrill(m, t);
      ReplayConcat(s, ExitPath(s, h), Exits(h, t) + Entries(h, t));
      assert ExitPath(s, h) + (Exits(h, t) + Entries(h, t)) == ExitPath(s, h) + Exits(h, t) + Entries(h, t);
      ReplayConcat(s, ExitPath(s, h) + Exits(h, t) + Entries(h, t), DrillActions(m, t));
    case _ =>
  }

  lemma Join(log: seq<Action>, a: seq<Action>, b: seq<Action>, c: seq<Action>, d: seq<Action>)
    ensures log + a + b + c + d == log + (a + b + c + d)
  {}

  ghost predicate UpContainsTarget(t: State, n: nat) {
    n <= Depth(t) && Contains(Up(t, n), t)
  }

  lemma ProperGap(t: State, i: nat, j: nat)
    requires i < j <= Depth(t)
    ensures Up(t, i) != Up(t, j)
  {
    assert Depth(Up(t, i)) != Depth(Up(t, j));
  }

  lemma DrillOnce(log: seq<Action>, m: Behaviour, t: State, x: State)
    requires ValidInitials(m) && m.initial(t) == Some(x)
    ensures Contains(t, x) && DrillEnd(m, t) == DrillEnd(m, x)
    ensures log + EntryPath(t, x) + [Initial(x)] + DrillActions(m, x)[1..]
            == log + DrillActions(m, t)[1..]
  {
    assert IsInitialTarget(m, t, x);
    var rest := DrillActions(m, x);
    assert rest[0] == Initial(x) && [Initial(x)] + rest[1..] == rest;
    TailOfDrill(log, t, EntryPath(t, x), x, rest);
  }

  lemma TailOfDrill(log: seq<Action>, t: State, path: seq<Action>, x: State, rest: seq<Action>)
    requires rest != [] && rest[0] == Initial(x)
    ensures log + path + [Initial(x)] + rest[1..] == log + ([Initial(t)] + path + rest)[1..]
  {
    Assoc([Initial(t)], path, rest);
    assert ([Initial(t)] + (path + rest))[1..] == path + rest;
    Assoc(log + path, [Initial(x)], rest[1..]);
    assert [Initial(x)] + rest[1..] == rest;
    Assoc(log, path, rest);
  }

  /** A complete path holds exactly the states that contain its target. */
  lemma OnPath(path: seq<State>, x: State)
    requires path != [] && HoldsPath(path, Depth(path[0]))
    ensures Contains(x, path[0]) <==> exists i | 0 <= i <= Depth(path[0]) :: path[i] == x
  {
    if Contains(x, path[0]) {
      ContainedIsUp(x, path[0]);
      assert path[Depth(path[0]) - Depth(x)] == x;
    } else {
      forall i | 0 <= i <= Depth(path[0]) ensures path[i] != x {
        UpIsContained(path[0], i);
      }
    }
  }

  /** The exits of a transition, one state at a time. */
  lemma ExitsOf(s: State, t: State)
    requires s.Sub? && s != t
    ensures Contains(s, t) ==> Exits(s, t) == []
    ensures !Contains(s, t) ==> Lca(s, t) == Lca(s.super, t) && Exits(s, t) == [Exit(s)] + ExitPath(s.super, Lca(s, t))
    ensures !Contains(s, t) && Contains(s.super, t) ==> Exits(s, t) == [Exit(s)]
  {}

  /** A state that is not deeper than the target and different from it does not contain it. */
  lemma LcaOfSibling(s: State, t: State)
    requires s.Sub? && t.Sub? && s != t && s != t.super
    ensures s.super == t.super ==> Lca(s, t) == s.super
    ensures s.super == t ==> Lca(s, t) == t
  {
    if Contains(s, t) {
      ContainedIsUp(s, t);
    }
  }

  /** As long as the source has not turned up on the way, the next index is still needed. */
  lemma StoredIndex(s: State, t: State, ip: nat, path: seq<State>)
    requires path != [] && path[0] == t && HoldsPath(path, ip) && ip < Depth(t)
    requires forall i | 0 <= i <= ip :: path[i] != s
    ensures ip + 1 <= LargestIndexStored(s, t)
  {
    if Contains(s, t) {
      ContainedIsUp(s, t);
      forall i | 0 <= i <= ip ensures Up(t, i) != s {
        assert path[i] == Up(t, i);
      }
    }
  }

  lemma DepthGap(s: State, t: State)
    requires Contains(s, t)
    ensures Depth(s) <= Depth(t)
  {
    ContainedIsUp(s, t);
  }
}
