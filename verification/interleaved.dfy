/**
 * Stores by several threads at once. A thread puts its event into the index lists node by node,
 * under its rule's mutex, and only then into the event list, under the event mutex, where it
 * evicts the oldest events with all their nodes. Other threads act in between.
 */
module InterleavedStores {
  type ListId = nat

  /**
   * events are those listed, oldest first; pending are the lists that an event under way still has to enter; lists
   * are all lists of every event ever begun, and before the events that were listed when it was begun.
   */
  datatype State = State(
    index: map<ListId, seq<nat>>,
    events: seq<nat>,
    pending: map<nat, seq<ListId>>,
    lists: map<nat, seq<ListId>>,
    before: map<nat, set<nat>>)

  datatype Step =
    | Begin(u: nat, ls: seq<ListId>)
    | AddNode(u: nat)
    | Finish(u: nat, evicted: nat)

  const START := State(map[], [], map[], map[], map[])

  function NodesIn(s: State, l: ListId): seq<nat> {
    if l in s.index then s.index[l] else []
  }

  /** A list without the nodes of some events, found by the handles saved in them. */
  function Drop(nodes: seq<nat>, gone: set<nat>): seq<nat> {
    if nodes == [] then []
    else (if nodes[0] in gone then [] else [nodes[0]]) + Drop(nodes[1..], gone)
  }

  function Elements(s: seq<nat>): set<nat> {
    set x | x in s
  }

  predicate Enabled(s: State, step: Step) {
    match step
    case Begin(u, _) => u !in s.lists
    case AddNode(u) => u in s.pending && s.pending[u] != []
    case Finish(u, k) => u in s.pending && s.pending[u] == [] && k <= |s.events|
  }

  function Apply(s: State, step: Step): State
    requires Enabled(s, step)
  {
    match step
    case Begin(u, ls) =>
      s.(pending := s.pending[u := ls], lists := s.lists[u := ls], before := s.before[u := Elements(s.events)])
    case AddNode(u) =>
      var l := s.pending[u][0];
      s.(index := s.index[l := NodesIn(s, l) + [u]], pending := s.pending[u := s.pending[u][1..]])
    case Finish(u, k) =>
      s.(events := s.events[k..] + [u],
         pending := s.pending - {u},
         index := map l | l in s.index :: Drop(s.index[l], Elements(s.events[..k])))
  }

  ghost predicate Legal(s: State, steps: seq<Step>)
    decreases |steps|
  {
    steps != [] ==> Enabled(s, steps[0]) && Legal(Apply(s, steps[0]), steps[1..])
  }

  ghost function Run(s: State, steps: seq<Step>): State
    requires Legal(s, steps)
    decreases |steps|
  {
    if steps == [] then s else Run(Apply(s, steps[0]), steps[1..])
  }

  // ---- Contents

  function Times(ls: seq<ListId>, l: ListId): nat {
    multiset(ls)[l]
  }

  /** How many nodes of an event a list is to hold: all of its own, or those added so far, or none. */
  ghost function Due(s: State, u: nat, l: ListId): int {
    if u !in s.lists then 0
    else if u in s.pending then Times(s.lists[u], l) - Times(s.pending[u], l)
    else if u in s.events then Times(s.lists[u], l)
    else 0
  }

  ghost predicate Distinct(events: seq<nat>) {
    forall i, j | 0 <= i < j < |events| :: events[i] != events[j]
  }

  ghost predicate Known(s: State) {
    && Distinct(s.events)
    && s.pending.Keys <= s.lists.Keys && s.before.Keys == s.lists.Keys
    && (forall u | u in s.events :: u in s.lists && u !in s.pending)
    && (forall v, u | v in s.before && u in s.before[v] :: u in s.lists && u !in s.pending)
  }

  ghost predicate Contents(s: State) {
    forall u, l :: multiset(NodesIn(s, l))[u] == Due(s, u, l)
  }

  lemma {:induction false} DropCounts(nodes: seq<nat>, gone: set<nat>, u: nat)
    ensures multiset(Drop(nodes, gone))[u] == if u in gone then 0 else multiset(nodes)[u]
  {
    if nodes != [] {
      DropCounts(nodes[1..], gone, u);
      assert nodes == [nodes[0]] + nodes[1..];
    }
  }

  lemma StepKnown(s: State, step: Step)
    requires Known(s) && Enabled(s, step)
    ensures Known(Apply(s, step))
  {
  }

  lemma TimesRest(ls: seq<ListId>, l: ListId)
    requires ls != []
    ensures Times(ls, l) == (if ls[0] == l then 1 else 0) + Times(ls[1..], l)
  {
    assert ls == [ls[0]] + ls[1..];
  }

  lemma AddContents(s: State, v: nat, u: nat, l: ListId)
    requires multiset(NodesIn(s, l))[u] == Due(s, u, l) && Known(s) && Enabled(s, AddNode(v))
    ensures var t := Apply(s, AddNode(v)); multiset(NodesIn(t, l))[u] == Due(t, u, l)
  {
    var t := Apply(s, AddNode(v));
    TimesRest(s.pending[v], l);
    hide Times;
    if l == s.pending[v][0] {
      assert NodesIn(t, l) == NodesIn(s, l) + [v];
    } else {
      assert NodesIn(t, l) == NodesIn(s, l);
    }
  }

  lemma FinishContents(s: State, v: nat, k: nat, u: nat, l: ListId)
    requires multiset(NodesIn(s, l))[u] == Due(s, u, l) && Known(s) && Enabled(s, Finish(v, k))
    ensures var t := Apply(s, Finish(v, k)); multiset(NodesIn(t, l))[u] == Due(t, u, l)
  {
    var t := Apply(s, Finish(v, k));
    DropCounts(NodesIn(s, l), Elements(s.events[..k]), u);
    ListedAfter(s, v, k, u);
    assert Times([], l) == 0;
    hide Times, Drop;
    if u in s.events[..k] {
      EvictedWereListed(s, k, u);
    }
    assert NodesIn(t, l) == if l in s.index then Drop(s.index[l], Elements(s.events[..k])) else [];
  }

  lemma EvictedWereListed(s: State, k: nat, u: nat)
    requires k <= |s.events| && u in s.events[..k]
    ensures u in s.events
  {
  }

  lemma StepContents(s: State, step: Step, u: nat, l: ListId)
    requires Known(s) && Contents(s) && Enabled(s, step)
    ensures multiset(NodesIn(Apply(s, step), l))[u] == Due(Apply(s, step), u, l)
  {
    assert multiset(NodesIn(s, l))[u] == Due(s, u, l);
    hide Contents;
    match step {
      case Begin(_, _) =>
      case AddNode(v) => AddContents(s, v, u, l);
      case Finish(v, k) => FinishContents(s, v, k, u, l);
    }
  }

  lemma ListedAfter(s: State, v: nat, k: nat, u: nat)
    requires Known(s) && Enabled(s, Finish(v, k))
    ensures u in Apply(s, Finish(v, k)).events <==> u == v || (u in s.events && u !in s.events[..k])
  {
    assert s.events == s.events[..k] + s.events[k..];
  }

  // ---- Order

  /** No node of u stands after a node of v. */
  predicate Precedes(nodes: seq<nat>, u: nat, v: nat) {
    nodes == [] || ((nodes[0] == v ==> u !in nodes[1..]) && Precedes(nodes[1..], u, v))
  }

  /** Events stored one after the other stand in that order, in every index list and in the event list. */
  ghost predicate Orders(s: State) {
    forall v, u | v in s.before && u in s.before[v] ::
      Precedes(s.events, u, v) && forall l :: Precedes(NodesIn(s, l), u, v)
  }

  lemma {:induction false} PrecedesSnoc(nodes: seq<nat>, x: nat, u: nat, v: nat)
    requires Precedes(nodes, u, v) && x != u
    ensures Precedes(nodes + [x], u, v)
  {
    if nodes != [] {
      assert (nodes + [x])[1..] == nodes[1..] + [x];
      PrecedesSnoc(nodes[1..], x, u, v);
    }
  }

  lemma {:induction false} PrecedesWithout(nodes: seq<nat>, u: nat, v: nat)
    requires v !in nodes
    ensures Precedes(nodes, u, v)
  {
    if nodes != [] {
      PrecedesWithout(nodes[1..], u, v);
    }
  }

  lemma {:induction false} DropMembers(nodes: seq<nat>, gone: set<nat>, u: nat)
    requires u in Drop(nodes, gone)
    ensures u in nodes
  {
    if nodes[0] in gone || nodes[0] != u {
      DropMembers(nodes[1..], gone, u);
    }
  }

  lemma {:induction false} DropPrecedes(nodes: seq<nat>, gone: set<nat>, u: nat, v: nat)
    requires Precedes(nodes, u, v)
    ensures Precedes(Drop(nodes, gone), u, v)
  {
    if nodes != [] {
      DropPrecedes(nodes[1..], gone, u, v);
      if u in Drop(nodes[1..], gone) {
        DropMembers(nodes[1..], gone, u);
      }
      var rest := Drop(nodes[1..], gone);
      assert Drop(nodes, gone) == (if nodes[0] in gone then rest else [nodes[0]] + rest);
      assert nodes[0] !in gone ==> Drop(nodes, gone)[0] == nodes[0] && Drop(nodes, gone)[1..] == rest;
    }
  }

  lemma {:induction false} SuffixPrecedes(nodes: seq<nat>, k: nat, u: nat, v: nat)
    requires k <= |nodes| && Precedes(nodes, u, v)
    ensures Precedes(nodes[k..], u, v)
  {
    if k > 0 {
      SuffixPrecedes(nodes[1..], k - 1, u, v);
      assert nodes[1..][k - 1..] == nodes[k..];
    }
  }

  lemma BeginPrecedes(s: State, v: nat, u: nat, l: ListId)
    requires Known(s) && Contents(s) && v !in s.lists
    ensures Precedes(s.events, u, v) && Precedes(NodesIn(s, l), u, v)
  {
    assert multiset(NodesIn(s, l))[v] == Due(s, v, l);
    PrecedesWithout(s.events, u, v);
    PrecedesWithout(NodesIn(s, l), u, v);
  }

  lemma KeepsPrecedes(s: State, step: Step, u: nat, v: nat, l: ListId)
    requires Known(s) && Enabled(s, step) && u in s.lists && u !in s.pending
    requires Precedes(s.events, u, v) && Precedes(NodesIn(s, l), u, v)
    ensures Precedes(Apply(s, step).events, u, v) && Precedes(NodesIn(Apply(s, step), l), u, v)
  {
    match step {
      case Begin(_, _) =>
      case AddNode(x) =>
        if l == s.pending[x][0] {
          PrecedesSnoc(NodesIn(s, l), x, u, v);
        }
      case Finish(x, k) =>
        SuffixPrecedes(s.events, k, u, v);
        PrecedesSnoc(s.events[k..], x, u, v);
        DropPrecedes(NodesIn(s, l), Elements(s.events[..k]), u, v);
    }
  }

  ghost predicate Inv(s: State) {
    Known(s) && Contents(s) && Orders(s)
  }

  lemma StepInv(s: State, step: Step)
    requires Inv(s) && Enabled(s, step)
    ensures Inv(Apply(s, step))
  {
    hide Precedes;
    var t := Apply(s, step);
    StepKnown(s, step);
    forall u, l ensures multiset(NodesIn(t, l))[u] == Due(t, u, l) {
      StepContents(s, step, u, l);
    }
    forall v, u | v in t.before && u in t.before[v]
      ensures Precedes(t.events, u, v) && forall l :: Precedes(NodesIn(t, l), u, v)
    {
      forall l ensures Precedes(t.events, u, v) && Precedes(NodesIn(t, l), u, v) {
        if step.Begin? && step.u == v {
          BeginPrecedes(s, v, u, l);
        }
        KeepsPrecedes(s, step, u, v, l);
      }
      assert Precedes(NodesIn(t, 0), u, v);
    }
  }

  lemma {:induction false} RunInv(s: State, steps: seq<Step>)
    requires Inv(s) && Legal(s, steps)
    ensures Inv(Run(s, steps))
    decreases |steps|
  {
    hide Inv;
    if steps != [] {
      StepInv(s, steps[0]);
      RunInv(Apply(s, steps[0]), steps[1..]);
    }
  }

  lemma StartInv()
    ensures Inv(START)
  {
    forall u, l ensures multiset(NodesIn(START, l))[u] == Due(START, u, l) {}
  }

  /** What a list is to hold when nobody is storing: of every listed event as many nodes as its rule names the list. */
  ghost function Holding(s: State, events: seq<nat>, l: ListId): multiset<nat>
    requires forall u | u in events :: u in s.lists
  {
    if events == [] then multiset{}
    else multiset{}[events[0] := Times(s.lists[events[0]], l)] + Holding(s, events[1..], l)
  }

  lemma {:induction false} HoldingCounts(s: State, events: seq<nat>, l: ListId, u: nat)
    requires Distinct(events) && forall v | v in events :: v in s.lists
    ensures Holding(s, events, l)[u] == if u in events then Times(s.lists[u], l) else 0
  {
    if events != [] {
      HoldingCounts(s, events[1..], l, u);
      assert events == [events[0]] + events[1..];
      assert u in events[1..] ==> u != events[0];
    }
  }

  /**
   * Whatever the interleaving, once no store is under way each list holds the right nodes, if not in the right
   * order.
   */
  lemma SameNodesAtRest(steps: seq<Step>, l: ListId)
    requires Legal(START, steps) && Run(START, steps).pending == map[]
    ensures var s := Run(START, steps);
            && (forall u | u in s.events :: u in s.lists)
            && multiset(NodesIn(s, l)) == Holding(s, s.events, l)
  {
    StartInv();
    RunInv(START, steps);
    var s := Run(START, steps);
    forall u ensures multiset(NodesIn(s, l))[u] == Holding(s, s.events, l)[u] {
      HoldingCounts(s, s.events, l, u);
      assert multiset(NodesIn(s, l))[u] == Due(s, u, l);
    }
  }

  /** An evicted event is in no list, whichever stores were under way. */
  lemma EvictedIsGone(steps: seq<Step>, u: nat, k: nat, v: nat, l: ListId)
    requires Legal(START, steps) && Enabled(Run(START, steps), Finish(u, k)) && v in Run(START, steps).events[..k]
    ensures v !in NodesIn(Apply(Run(START, steps), Finish(u, k)), l)
        && v !in Apply(Run(START, steps), Finish(u, k)).events
  {
    StartInv();
    RunInv(START, steps);
    var s := Run(START, steps);
    DropCounts(NodesIn(s, l), Elements(s.events[..k]), v);
    assert v in s.events;
    ListedAfter(s, u, k, v);
  }

  /** A store that began after another was finished comes after it everywhere. */
  lemma OrderOfSeparateStores(steps: seq<Step>, u: nat, v: nat, l: ListId)
    requires Legal(START, steps) && v in Run(START, steps).before && u in Run(START, steps).before[v]
    ensures Precedes(Run(START, steps).events, u, v) && Precedes(NodesIn(Run(START, steps), l), u, v)
  {
    StartInv();
    RunInv(START, steps);
  }

  // ---- Building runs

  lemma {:induction false} DropNothing(nodes: seq<nat>)
    ensures Drop(nodes, {}) == nodes
  {
    if nodes != [] {
      DropNothing(nodes[1..]);
    }
  }

  lemma RunCons(s: State, step: Step, rest: seq<Step>)
    requires Enabled(s, step) && Legal(Apply(s, step), rest)
    ensures Legal(s, [step] + rest) && Run(s, [step] + rest) == Run(Apply(s, step), rest)
  {
    assert ([step] + rest)[1..] == rest;
  }

  lemma {:induction false} RunConcat(s: State, a: seq<Step>, b: seq<Step>)
    requires Legal(s, a) && Legal(Run(s, a), b)
    ensures Legal(s, a + b) && Run(s, a + b) == Run(Run(s, a), b)
    decreases |a|
  {
    hide Enabled, Apply;
    if a == [] {
      assert a + b == b;
    } else {
      assert (a + b)[0] == a[0] && (a + b)[1..] == a[1..] + b;
      RunConcat(Apply(s, a[0]), a[1..], b);
    }
  }
}
