/** State hierarchies of the event processor, and what a transition has to do in them. */
module StateTree {

  /** A state together with all its superstates. QHsm::top is the root; the name stands for the
      state-handler function. Equal states have equal names and equal superstates. */
  datatype State = Top | Sub(name: nat, super: State)

  function Depth(s: State): nat {
    if s.Top? then 0 else 1 + Depth(s.super)
  }

  /** `a` is `s` or one of the states that contain `s`. */
  predicate Contains(a: State, s: State) {
    a == s || (s.Sub? && Contains(a, s.super))
  }

  /** The n-th superstate of `s`. */
  function Up(s: State, n: nat): (r: State)
    requires n <= Depth(s)
    ensures Depth(r) == Depth(s) - n
  {
    if n == 0 then s else Up(s.super, n - 1)
  }

  lemma {:induction false} TopContainsAll(s: State)
    ensures Contains(Top, s)
  {
    if s.Sub? {
      TopContainsAll(s.super);
    }
  }

  lemma {:induction false} UpIsContained(s: State, n: nat)
    requires n <= Depth(s)
    ensures Contains(Up(s, n), s)
  {
    if n > 0 {
      UpIsContained(s.super, n - 1);
    }
  }

  lemma {:induction false} ContainedIsUp(a: State, s: State)
    requires Contains(a, s)
    ensures Depth(a) <= Depth(s) && Up(s, Depth(s) - Depth(a)) == a
  {
    if a != s {
      ContainedIsUp(a, s.super);
    }
  }

  lemma {:induction false} UpNext(s: State, n: nat)
    requires n < Depth(s)
    ensures Up(s, n).Sub? && Up(s, n).super == Up(s, n + 1)
  {
    if n > 0 {
      UpNext(s.super, n - 1);
    }
  }

  lemma {:induction false} UpContainsUp(s: State, i: nat, j: nat)
    requires i <= j <= Depth(s)
    ensures Contains(Up(s, j), Up(s, i))
  {
    if i == 0 {
      UpIsContained(s, j);
    } else {
      UpContainsUp(s.super, i - 1, j - 1);
    }
  }

  lemma {:induction false} ContainsTransitive(a: State, b: State, c: State)
    requires Contains(a, b) && Contains(b, c)
    ensures Contains(a, c)
  {
    if b != c {
      ContainsTransitive(a, b, c.super);
    }
  }

  /** States that contain a common state are nested in each other. */
  lemma {:induction false} ContainersAreNested(a: State, b: State, s: State)
    requires Contains(a, s) && Contains(b, s)
    ensures Contains(a, b) || Contains(b, a)
  {
    if a != s && b != s {
      ContainersAreNested(a, b, s.super);
    }
  }

  lemma {:induction false} ContainsBothWays(a: State, b: State)
    requires Contains(a, b) && Contains(b, a)
    ensures a == b
  {
    ContainedIsUp(a, b);
    ContainedIsUp(b, a);
  }

  // -------------------------------------------------- least common ancestor

  /** The innermost state that contains both `s` and `t`. */
  function Lca(s: State, t: State): (a: State)
    ensures Contains(a, s) && Contains(a, t)
  {
    if Contains(s, t) then s
    else
      assert s.Sub? by { TopContainsAll(t); }
      Lca(s.super, t)
  }

  lemma {:induction false} LcaIsInnermost(s: State, t: State, a: State)
    requires Contains(a, s) && Contains(a, t)
    ensures Contains(a, Lca(s, t))
    decreases s
  {
    if !Contains(s, t) {
      TopContainsAll(t);
      LcaIsInnermost(s.super, t, a);
    }
  }

  // ----------------------------------------------------- actions and their order

  /** The signals the event processor sends to state handlers while it changes state. */
  datatype Action = Exit(s: State) | Enter(s: State) | Initial(s: State)

  /** Leaving `s` and the states around it, up to but not including `a`. */
  function ExitPath(s: State, a: State): seq<Action>
    requires Contains(a, s)
  {
    if s == a then [] else [Exit(s)] + ExitPath(s.super, a)
  }

  /** Entering the states below `a` down to `t`. */
  function EntryPath(a: State, t: State): seq<Action>
    requires Contains(a, t)
  {
    if t == a then [] else EntryPath(a, t.super) + [Enter(t)]
  }

  /** The exits and entries of a transition from `s` to `t`: everything up to the least common
      ancestor is left and everything below it entered; a self-transition leaves and re-enters. */
  function Exits(s: State, t: State): seq<Action> {
    if s == t then [Exit(s)] else ExitPath(s, Lca(s, t))
  }

  function Entries(s: State, t: State): seq<Action> {
    if s == t then [Enter(t)] else EntryPath(Lca(s, t), t)
  }

  /** Leaving one state more. */
  lemma {:induction false} ExitPathSnoc(s: State, c: State)
    requires Contains(c, s) && c.Sub?
    ensures Contains(c.super, s) && ExitPath(s, c.super) == ExitPath(s, c) + [Exit(c)]
    decreases s
  {
    if s == c {
      assert Contains(c.super, c.super) && ExitPath(c.super, c.super) == [];
      ProperSuper(c);
    } else {
      ExitPathSnoc(s.super, c);
      ContainedIsUp(c, s);
      assert s != c.super by { ContainedIsUp(c, s.super); }
    }
  }

  lemma ProperSuper(c: State)
    requires c.Sub?
    ensures c != c.super
  {
    assert Depth(c) == 1 + Depth(c.super);
  }

  // ------------------------------------------------------- replaying actions

  datatype Option<T> = None | Some(value: T)

  /** Runs actions against the innermost active state. Only that state may be left or asked for
      its initial transition, and only a direct substate of it may be entered. */
  function Replay(active: State, log: seq<Action>): Option<State>
    decreases |log|
  {
    if log == [] then Some(active)
    else match log[0]
      case Exit(s) => if s == active && s.Sub? then Replay(s.super, log[1..]) else None
      case Enter(s) => if s.Sub? && s.super == active then Replay(s, log[1..]) else None
      case Initial(s) => if s == active then Replay(s, log[1..]) else None
  }

  lemma {:induction false} ReplayConcat(active: State, a: seq<Action>, b: seq<Action>)
    requires Replay(active, a).Some?
    ensures Replay(active, a + b) == Replay(Replay(active, a).value, b)
    decreases |a|
  {
    if a == [] {
      assert a + b == b;
    } else {
      assert (a + b)[1..] == a[1..] + b;
      match a[0]
      case Exit(s) => ReplayConcat(s.super, a[1..], b);
      case Enter(s) => ReplayConcat(s, a[1..], b);
      case Initial(s) => ReplayConcat(s, a[1..], b);
    }
  }

  lemma {:induction false} ReplayExitPath(s: State, a: State)
    requires Contains(a, s)
    ensures Replay(s, ExitPath(s, a)) == Some(a)
  {
    if s != a {
      ReplayExitPath(s.super, a);
      assert ([Exit(s)] + ExitPath(s.super, a))[1..] == ExitPath(s.super, a);
    }
  }

  lemma ReplayOne(active: State, x: Action)
    ensures Replay(active, [x]) == match x
      case Exit(s) => if s == active && s.Sub? then Some(s.super) else None
      case Enter(s) => if s.Sub? && s.super == active then Some(s) else None
      case Initial(s) => if s == active then Some(s) else None
  {
    var rest := [x][1..];
    assert rest == [];
  }

  lemma {:induction false} ReplayEntryPath(a: State, t: State)
    requires Contains(a, t)
    ensures Replay(a, EntryPath(a, t)) == Some(t)
  {
    if t != a {
      ReplayEntryPath(a, t.super);
      ReplayConcat(a, EntryPath(a, t.super), [Enter(t)]);
      ReplayOne(t.super, Enter(t));
    }
  }

  /** The actions of a transition lead from its source to its target, with every exit and entry
      in its proper order. */
  lemma ReplayTransition(s: State, t: State)
    requires s.Sub? && t.Sub?
    ensures Replay(s, Exits(s, t) + Entries(s, t)) == Some(t)
  {
    if s == t {
      ReplayOne(s, Exit(s));
      ReplayOne(s.super, Enter(t));
      ReplayConcat(s, [Exit(s)], [Enter(t)]);
    } else {
      ReplayExitPath(s, Lca(s, t));
      ReplayEntryPath(Lca(s, t), t);
      ReplayConcat(s, ExitPath(s, Lca(s, t)), EntryPath(Lca(s, t), t));
    }
  }

  // --------------------------------------------- which states a transition touches

  lemma {:induction false} ExitPathLeaves(s: State, a: State, x: State)
    requires Contains(a, s)
    ensures Exit(x) in ExitPath(s, a) <==> Contains(x, s) && !Contains(x, a)
  {
    if s == a {
    } else {
      ExitPathLeaves(s.super, a, x);
      if x == s && Contains(x, a) {
        ContainsBothWays(s, a);
      }
    }
  }

  lemma {:induction false} EntryPathEnters(a: State, t: State, x: State)
    requires Contains(a, t)
    ensures Enter(x) in EntryPath(a, t) <==> Contains(x, t) && !Contains(x, a)
  {
    if t == a {
    } else {
      EntryPathEnters(a, t.super, x);
      if x == t && Contains(x, a) {
        ContainsBothWays(t, a);
      }
    }
  }

  /** A transition leaves exactly the states that contain the source but not the target, and enters
      exactly those that contain the target but not the source; a transition from a state to itself
      leaves and enters just this state. */
  lemma TransitionTouches(s: State, t: State, x: State)
    ensures Exit(x) in Exits(s, t) <==> if s == t then x == s else Contains(x, s) && !Contains(x, t)
    ensures Enter(x) in Entries(s, t) <==> if s == t then x == s else Contains(x, t) && !Contains(x, s)
  {
    if s != t {
      var a := Lca(s, t);
      ExitPathLeaves(s, a, x);
      EntryPathEnters(a, t, x);
      if Contains(x, s) && Contains(x, t) {
        LcaIsInnermost(s, t, x);
      }
      if Contains(x, a) {
        ContainsTransitive(x, a, s);
        ContainsTransitive(x, a, t);
      }
    }
  }

  /** The exits go from the state outwards, level by level, and end below the ancestor. */
  lemma {:induction false} ExitPathByLevel(s: State, a: State)
    requires Contains(a, s)
    ensures Depth(a) <= Depth(s) && |ExitPath(s, a)| == Depth(s) - Depth(a)
    ensures forall i: nat | i < |ExitPath(s, a)| :: ExitPath(s, a)[i] == Exit(Up(s, i))
  {
    if s != a {
      ExitPathByLevel(s.super, a);
    }
  }

  /** The entries go from below the ancestor inwards, level by level, down to the state. */
  lemma {:induction false} EntryPathByLevel(a: State, t: State)
    requires Contains(a, t)
    ensures Depth(a) <= Depth(t) && |EntryPath(a, t)| == Depth(t) - Depth(a)
    ensures forall i: nat | i < |EntryPath(a, t)| ::
      EntryPath(a, t)[i] == Enter(Up(t, |EntryPath(a, t)| - 1 - i))
  {
    if t != a {
      EntryPathByLevel(a, t.super);
    }
  }
}
