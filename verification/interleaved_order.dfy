/**
 * When two stores that share an index list are sure to appear in the same order there and in the
 * event list: exactly if the first was finished before the second began.
 */
module InterleavedOrder {
  import opened InterleavedStores

  /** The event list and an index list agree on which of two events is the older. */
  ghost predicate SameOrder(s: State, u: nat, v: nat, l: ListId) {
    || (Precedes(s.events, u, v) && Precedes(NodesIn(s, l), u, v))
    || (Precedes(s.events, v, u) && Precedes(NodesIn(s, l), v, u))
  }

  /** However the stores go on, the two lists agree whenever both events are listed. */
  ghost predicate OrderKept(s: State, u: nat, v: nat, l: ListId) {
    forall more | Legal(s, more) && u in Run(s, more).events && v in Run(s, more).events ::
      SameOrder(Run(s, more), u, v, l)
  }

  // ---- A finished store keeps its place

  /** An event that was stored and has left never comes back, and what was listed before a store is settled. */
  lemma {:induction false} Settled(s: State, more: seq<Step>, u: nat, v: nat)
    requires Known(s) && Legal(s, more) && u in s.lists && u !in s.pending && v in s.before
    ensures var t := Run(s, more);
            v in t.before && t.before[v] == s.before[v] && (u !in s.events ==> u !in t.events)
    decreases |more|
  {
    if more != [] {
      StepKnown(s, more[0]);
      Settled(Apply(s, more[0]), more[1..], u, v);
    }
  }

  lemma FinishedKeepsOrder(s: State, u: nat, v: nat, ls: seq<ListId>, l: ListId)
    requires Inv(s) && u in s.lists && u !in s.pending && v !in s.lists
    ensures OrderKept(Apply(s, Begin(v, ls)), u, v, l)
  {
    var t := Apply(s, Begin(v, ls));
    StepInv(s, Begin(v, ls));
    hide Apply, Precedes;
    forall more | Legal(t, more) && u in Run(t, more).events && v in Run(t, more).events
      ensures SameOrder(Run(t, more), u, v, l)
    {
      Settled(t, more, u, v);
      RunInv(t, more);
    }
  }

  // ---- A store under way can be overtaken

  /** A store under way can enter all its lists while nobody else does anything. */
  lemma {:induction false} EnterAll(s: State, u: nat) returns (steps: seq<Step>)
    requires u in s.pending
    ensures Legal(s, steps)
    ensures var t := Run(s, steps);
            t.pending == s.pending[u := []] && t.events == s.events && t.lists == s.lists
    decreases |s.pending[u]|
  {
    if s.pending[u] == [] {
      steps := [];
    } else {
      var rest := EnterAll(Apply(s, AddNode(u)), u);
      RunCons(s, AddNode(u), rest);
      steps := [AddNode(u)] + rest;
    }
  }

  /** A store that evicts nothing leaves the index lists as they are. */
  lemma FinishQuietly(s: State, u: nat, l: ListId)
    requires Enabled(s, Finish(u, 0))
    ensures var t := Apply(s, Finish(u, 0));
            t.events == s.events + [u] && t.pending == s.pending - {u} && NodesIn(t, l) == NodesIn(s, l)
  {
    assert Elements(s.events[..0]) == {};
    DropNothing(NodesIn(s, l));
  }

  lemma {:induction false} NotPrecedes(nodes: seq<nat>, u: nat, v: nat, i: nat, j: nat)
    requires i < j < |nodes| && nodes[i] == v && nodes[j] == u
    ensures !Precedes(nodes, u, v)
  {
    if i == 0 {
      assert nodes[1..][j - 1] == u;
    } else {
      NotPrecedes(nodes[1..], u, v, i - 1, j - 1);
    }
  }

  /** Both are in the list, a before b; b goes to the event list first. */
  lemma Overtake(s: State, a: nat, b: nat, l: ListId, i: nat, j: nat) returns (steps: seq<Step>)
    requires a in s.pending && b in s.pending && s.pending[a] == [] == s.pending[b]
    requires i < j < |NodesIn(s, l)| && NodesIn(s, l)[i] == a != b == NodesIn(s, l)[j]
    ensures Legal(s, steps)
    ensures var t := Run(s, steps);
            a in t.events && b in t.events && !SameOrder(t, a, b, l) && !SameOrder(t, b, a, l)
  {
    FinishQuietly(s, b, l);
    var t1 := Apply(s, Finish(b, 0));
    FinishQuietly(t1, a, l);
    var t := Apply(t1, Finish(a, 0));
    hide Apply;
    assert Legal(t, []);
    RunCons(t1, Finish(a, 0), []);
    RunCons(s, Finish(b, 0), [Finish(a, 0)]);
    steps := [Finish(b, 0)] + [Finish(a, 0)];
    NotPrecedes(NodesIn(t, l), b, a, i, j);
    NotPrecedes(t.events, a, b, |s.events|, |s.events| + 1);
  }

  /** Once a store has entered all its lists, it has a node in each. */
  lemma Entered(s: State, u: nat, l: ListId) returns (i: nat)
    requires Inv(s) && u in s.pending && s.pending[u] == [] && l in s.lists[u]
    ensures i < |NodesIn(s, l)| && NodesIn(s, l)[i] == u
  {
    assert multiset(NodesIn(s, l))[u] == Due(s, u, l) > 0 by {
      assert Times([], l) == 0;
    }
    assert u in NodesIn(s, l);
    i :| 0 <= i < |NodesIn(s, l)| && NodesIn(s, l)[i] == u;
  }

  /** Of two stores under way that share a list, the one that enters it first need not be listed first. */
  lemma OverlapReverses(s: State, u: nat, v: nat, l: ListId) returns (more: seq<Step>)
    requires Inv(s) && u != v && u in s.pending && v in s.pending && l in s.lists[u] && l in s.lists[v]
    ensures Legal(s, more)
    ensures var t := Run(s, more); u in t.events && v in t.events && !SameOrder(t, u, v, l)
  {
    hide Inv, Legal, Run, Precedes;
    var one := EnterAll(s, v);
    var s1 := Run(s, one);
    var two := EnterAll(s1, u);
    var s2 := Run(s1, two);
    RunInv(s, one);
    RunInv(s1, two);
    var i := Entered(s2, u, l);
    var j := Entered(s2, v, l);
    var rest;
    if i < j {
      rest := Overtake(s2, u, v, l, i, j);
    } else {
      rest := Overtake(s2, v, u, l, j, i);
    }
    RunConcat(s1, two, rest);
    RunConcat(s, one, two + rest);
    more := one + (two + rest);
  }

  /**
   * A store that begins now is sure to keep its order with an earlier one, in a list that both enter and in the event
   * list, exactly if the earlier one is finished.
   */
  lemma OrderKeptExactly(steps: seq<Step>, u: nat, v: nat, ls: seq<ListId>, l: ListId)
    requires Legal(START, steps)
    requires var s := Run(START, steps); u in s.lists && v !in s.lists && l in s.lists[u] && l in ls
    ensures var s := Run(START, steps); OrderKept(Apply(s, Begin(v, ls)), u, v, l) <==> u !in s.pending
  {
    StartInv();
    RunInv(START, steps);
    var s := Run(START, steps);
    hide Run, Legal, Precedes;
    if u !in s.pending {
      FinishedKeepsOrder(s, u, v, ls, l);
    } else {
      StepInv(s, Begin(v, ls));
      var more := OverlapReverses(Apply(s, Begin(v, ls)), u, v, l);
    }
  }
}
