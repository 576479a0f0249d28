/**
 * Evidence while stores overlap. An event enters the index list and the event list at different
 * times, so that an event can be evicted before an older node leaves the index list.
 */
module EvidenceOverlap {
  import opened Options
  import opened Filters
  import opened EventObjects
  import opened RepeatSearch
  import opened SearchMeaning
  import opened EvidenceRuns
  import opened EvidenceExactly
  import Stores = InterleavedStores

  /** events is the event list, oldest first; listed are all events that were ever in it. */
  datatype Memory = Memory(s: State, events: seq<nat>, listed: set<nat>)

  /** What happens to the index list, other than evictions; and an event that enters the event list and evicts some. */
  datatype Move = Act(a: Action) | List(uid: nat, evicted: nat)

  const EMPTY := Memory(START, [], {})

  ghost predicate Possible(m: Memory, move: Move) {
    Ok(m.s) &&
    match move
    case Act(a) => Enabled(m.s, a) && !a.DropOldest?
    case List(u, k) => u < |m.s.evs| && u !in m.listed && k <= |m.events|
  }

  /** The index list once the k oldest listed events are evicted. */
  function Left(m: Memory, k: nat): seq<nat>
    requires k <= |m.events|
  {
    Stores.Drop(m.s.list, Stores.Elements(m.events[..k]))
  }

  lemma OnlyMembersStay(m: Memory, k: nat)
    requires Ok(m.s) && k <= |m.events|
    ensures Ok(m.s.(list := Left(m, k)))
  {
    var list := Left(m, k);
    forall i | 0 <= i < |list| ensures list[i] < |m.s.evs| {
      Stores.DropMembers(m.s.list, Stores.Elements(m.events[..k]), list[i]);
    }
  }

  ghost function Do(m: Memory, move: Move, r: Rule, feeds: Feeds): (t: Memory)
    requires Possible(m, move)
    ensures Ok(t.s)
  {
    match move
    case Act(a) => m.(s := Apply(m.s, a, r, feeds))
    case List(u, k) =>
      OnlyMembersStay(m, k);
      Memory(m.s.(list := Left(m, k)), m.events[k..] + [u], m.listed + {u})
  }

  ghost predicate Play(m: Memory, moves: seq<Move>, r: Rule, feeds: Feeds)
    decreases |moves|
  {
    moves != [] ==> Possible(m, moves[0]) && Play(Do(m, moves[0], r, feeds), moves[1..], r, feeds)
  }

  ghost function Played(m: Memory, moves: seq<Move>, r: Rule, feeds: Feeds): Memory
    requires Play(m, moves, r, feeds)
    decreases |moves|
  {
    if moves == [] then m else Played(Do(m, moves[0], r, feeds), moves[1..], r, feeds)
  }

  // ---- Safe as long as evicted nodes are the oldest

  /** The nodes of the evicted events are the oldest of the list. */
  ghost predicate OldestLeave(m: Memory, move: Move) {
    move.List? && move.evicted <= |m.events| ==>
      exists n: nat | n <= |m.s.list| :: Left(m, move.evicted) == m.s.list[n..]
  }

  ghost predicate AlwaysOldest(m: Memory, moves: seq<Move>, r: Rule, feeds: Feeds)
    requires Play(m, moves, r, feeds)
    decreases |moves|
  {
    moves != [] ==> OldestLeave(m, moves[0]) && AlwaysOldest(Do(m, moves[0], r, feeds), moves[1..], r, feeds)
  }

  lemma MoveInv(m: Memory, move: Move, r: Rule, feeds: Feeds)
    requires Inv(m.s, r) && Sane(r) && Possible(m, move) && OldestLeave(m, move)
    ensures Inv(Do(m, move, r, feeds).s, r)
  {
    hide Inv;
    match move {
      case Act(a) => StepInv(m.s, a, r, feeds);
      case List(_, k) =>
        var n: nat :| n <= |m.s.list| && Left(m, k) == m.s.list[n..];
        StepInv(m.s, DropOldest(n), r, feeds);
    }
  }

  lemma {:induction false} OldestFirst(m: Memory, moves: seq<Move>, r: Rule, feeds: Feeds)
    requires Inv(m.s, r) && Sane(r) && Play(m, moves, r, feeds) && AlwaysOldest(m, moves, r, feeds)
    ensures Inv(Played(m, moves, r, feeds).s, r)
    decreases |moves|
  {
    hide Inv, Sane, OldestLeave;
    if moves != [] {
      MoveInv(m, moves[0], r, feeds);
      OldestFirst(Do(m, moves[0], r, feeds), moves[1..], r, feeds);
    }
  }

  /** Overlapping stores do no harm as long as evictions take the oldest nodes of the list. */
  lemma NoReuseInOrder(r: Rule, moves: seq<Move>, feeds: Feeds)
    requires Sane(r) && Play(EMPTY, moves, r, feeds) && AlwaysOldest(EMPTY, moves, r, feeds)
    ensures Disjoint(Played(EMPTY, moves, r, feeds).s.firings)
  {
    OldestFirst(EMPTY, moves, r, feeds);
  }

  // ---- Unsafe for every rule otherwise

  lemma PlayNothing(m: Memory, r: Rule, feeds: Feeds)
    ensures Play(m, [], r, feeds) && Played(m, [], r, feeds) == m
  {
  }

  lemma PlayCons(m: Memory, move: Move, rest: seq<Move>, r: Rule, feeds: Feeds)
    requires Possible(m, move) && Play(Do(m, move, r, feeds), rest, r, feeds)
    ensures Play(m, [move] + rest, r, feeds)
    ensures Played(m, [move] + rest, r, feeds) == Played(Do(m, move, r, feeds), rest, r, feeds)
  {
    hide Possible, Do;
    assert ([move] + rest)[1..] == rest;
  }

  lemma {:induction false} PlayConcat(m: Memory, a: seq<Move>, b: seq<Move>, r: Rule, feeds: Feeds)
    requires Play(m, a, r, feeds) && Play(Played(m, a, r, feeds), b, r, feeds)
    ensures Play(m, a + b, r, feeds)
    ensures Played(m, a + b, r, feeds) == Played(Played(m, a, r, feeds), b, r, feeds)
    decreases |a|
  {
    hide Possible, Do;
    if a == [] {
      assert a + b == b;
    } else {
      assert (a + b)[0] == a[0] && (a + b)[1..] == a[1..] + b;
      PlayConcat(Do(m, a[0], r, feeds), a[1..], b, r, feeds);
    }
  }

  /** A run without evictions is also one of the memory. */
  lemma {:induction false} Lift(m: Memory, actions: seq<Action>, r: Rule, feeds: Feeds) returns (moves: seq<Move>)
    requires Legal(m.s, actions, r, feeds) && Ok(m.s) && forall a | a in actions :: !a.DropOldest?
    ensures Play(m, moves, r, feeds)
    ensures Played(m, moves, r, feeds) == m.(s := Run(m.s, actions, r, feeds))
    decreases |actions|
  {
    if actions == [] {
      moves := [];
    } else {
      var a := actions[0];
      assert Enabled(m.s, a);
      hide Enabled, Apply;
      var t := Do(m, Act(a), r, feeds);
      var rest := Lift(t, actions[1..], r, feeds);
      PlayCons(m, Act(a), rest, r, feeds);
      moves := [Act(a)] + rest;
    }
  }

  lemma {:induction false} DropNewest(nodes: seq<nat>, x: nat)
    requires x !in nodes
    ensures Stores.Drop(nodes + [x], {x}) == nodes
  {
    if nodes != [] {
      assert (nodes + [x])[0] == nodes[0] && (nodes + [x])[1..] == nodes[1..] + [x];
      DropNewest(nodes[1..], x);
    }
  }

  lemma PlayTwo(m: Memory, a: Move, b: Move, r: Rule, feeds: Feeds)
    requires Possible(m, a) && Possible(Do(m, a, r, feeds), b)
    ensures Play(m, [a] + [b], r, feeds)
    ensures Played(m, [a] + [b], r, feeds) == Do(Do(m, a, r, feeds), b, r, feeds)
  {
    var t := Do(m, a, r, feeds);
    PlayNothing(Do(t, b, r, feeds), r, feeds);
    hide Possible, Do, Play, Played;
    PlayCons(t, b, [], r, feeds);
    assert [b] + [] == [b];
    PlayCons(m, a, [b], r, feeds);
  }

  lemma ListQuietly(m: Memory, u: nat, r: Rule, feeds: Feeds)
    requires Ok(m.s) && m.events == [] && m.listed == {} && u < |m.s.evs|
    ensures Possible(m, List(u, 0)) && Do(m, List(u, 0), r, feeds) == Memory(m.s, [u], {u})
  {
    assert Stores.Elements(m.events[..0]) == {};
    Stores.DropNothing(m.s.list);
  }

  lemma ListAndEvict(s: State, u: nat, f: nat, rest: seq<nat>, r: Rule, feeds: Feeds)
    requires Ok(s) && u < |s.evs| && u != f && s.list == rest + [f] && f !in rest
    ensures var m := Memory(s, [f], {f});
            && Possible(m, List(u, 1))
            && Do(m, List(u, 1), r, feeds) == Memory(s.(list := rest), [u], {f, u})
  {
    var m := Memory(s, [f], {f});
    assert m.events[..1] == [f] && Stores.Elements([f]) == {f};
    DropNewest(rest, f);
  }

  /** Events 0 to f are in the list, each once, and event f goes to the event list first and is evicted first. */
  lemma NewestLeaves(s: State, f: nat, r: Rule, feeds: Feeds) returns (moves: seq<Move>, t: Memory)
    requires Ok(s) && 0 < f < |s.evs| && |s.list| == f + 1 && forall k | 0 <= k <= f :: s.list[k] == k
    ensures Play(Memory(s, [], {}), moves, r, feeds) && t == Played(Memory(s, [], {}), moves, r, feeds)
    ensures t.s == s.(list := s.list[..f])
  {
    var m := Memory(s, [], {});
    ListQuietly(m, f, r, feeds);
    assert s.list == s.list[..f] + [f];
    ListAndEvict(s, 0, f, s.list[..f], r, feeds);
    hide Possible, Do, Play, Played;
    PlayTwo(m, List(f, 0), List(0, 1), r, feeds);
    moves := [List(f, 0)] + [List(0, 1)];
    t := Played(m, moves, r, feeds);
  }

  /** A fresh event takes the place of the marked one, and the rule fires over the old events again. */
  lemma Again(s: State, my: Event, from: RuleId, clock: seq<int>, r: Rule, feeds: Feeds)
      returns (actions: seq<Action>, t: State)
    requires my == PlainEvent(r) && !Contradictory(r) && 0 < r.level && 0 < r.frequency && feeds(from) == 1
    requires Ok(s) && |s.list| == r.frequency && |s.evs| == r.frequency + 1 && clock == Now(r, r.frequency + 1)
    requires forall k | 0 <= k < r.frequency :: s.list[k] == k && s.evs[k] == my && s.marks[k] == 0
    ensures Legal(s, actions, r, feeds) && t == Run(s, actions, r, feeds)
    ensures forall a | a in actions :: !a.DropOldest?
    ensures |t.firings| == |s.firings| + 1 && t.firings[..|s.firings|] == s.firings && 0 in t.firings[|s.firings|].uids
  {
    hide Contradictory, PlainEvent, Passes, Hits;
    var s1 := Apply(s, Append(my, 0, from), r, feeds);
    assert forall k | 0 <= k < |s1.list| :: s1.evs[s1.list[k]] == my && s1.marks[s1.list[k]] == 0;
    PlainSearch(s1, r);
    FiringStep(s1, r, my, clock, feeds);
    t := Apply(s1, Search(r, my, clock), r, feeds);
    assert s1.list[HitsIn(s1, r, my, clock)[r.frequency]] == 0;
    assert Legal(t, [], r, feeds);
    RunCons(s1, Search(r, my, clock), [], r, feeds);
    RunCons(s, Append(my, 0, from), [Search(r, my, clock)], r, feeds);
    actions := [Append(my, 0, from)] + [Search(r, my, clock)];
  }

  /** The rule fires over all events of the list and marks the newest. */
  lemma First(s: State, my: Event, clock: seq<int>, r: Rule, feeds: Feeds) returns (t: State)
    requires my == PlainEvent(r) && !Contradictory(r) && 0 < r.level && 0 < r.frequency
    requires Plain(s, r, r.frequency + 1) && |s.list| == r.frequency + 1 && clock == Now(r, r.frequency + 1)
    requires forall k | 0 <= k <= r.frequency :: s.list[k] == k
    ensures Enabled(s, Search(r, my, clock)) && t == Apply(s, Search(r, my, clock), r, feeds)
    ensures t.list == s.list && t.evs == s.evs && |t.firings| == 1 && 0 in t.firings[0].uids
    ensures forall k | 0 <= k < r.frequency :: t.marks[k] == 0
  {
    hide Contradictory, PlainEvent, Passes, Hits;
    PlainSearch(s, r);
    FiringStep(s, r, my, clock, feeds);
    t := Apply(s, Search(r, my, clock), r, feeds);
    assert s.list[HitsIn(s, r, my, clock)[r.frequency]] == 0;
  }

  /** The newest event of the list, which a firing has marked, is evicted before all others; an old one is met again. */
  lemma MarkedLeavesFirst(r: Rule, from: RuleId, feeds: Feeds) returns (moves: seq<Move>)
    requires 0 < r.frequency && 0 < r.level && !Contradictory(r) && feeds(from) == 1
    ensures Play(EMPTY, moves, r, feeds) && !Disjoint(Played(EMPTY, moves, r, feeds).s.firings)
  {
    var my, f, clock := PlainEvent(r), r.frequency, Now(r, r.frequency + 1);
    hide Contradictory, PlainEvent, Legal, Run, Enabled, Apply, Hits, Play, Played, Do, Possible;
    var stores := StorePlain(f + 1, from, r, feeds);
    var s := Run(START, stores, r, feeds);
    var s1 := First(s, my, clock, r, feeds);
    var enter := LiftLast(stores, Search(r, my, clock), r, feeds);
    var leave, m := NewestLeaves(s1, f, r, feeds);
    var again, t := Again(m.s, my, from, clock, r, feeds);
    var rest := Lift(m, again, r, feeds);
    PlayConcat(Memory(s1, [], {}), leave, rest, r, feeds);
    PlayConcat(EMPTY, enter, leave + rest, r, feeds);
    moves := enter + (leave + rest);
    assert t.firings[0] == s1.firings[0] && 0 in t.firings[0].uids * t.firings[1].uids;
  }

  lemma LiftLast(actions: seq<Action>, last: Action, r: Rule, feeds: Feeds) returns (moves: seq<Move>)
    requires Legal(START, actions, r, feeds) && Enabled(Run(START, actions, r, feeds), last)
    requires !last.DropOldest? && forall a | a in actions :: !a.DropOldest?
    ensures Play(EMPTY, moves, r, feeds)
    ensures Played(EMPTY, moves, r, feeds) == Memory(Apply(Run(START, actions, r, feeds), last, r, feeds), [], {})
  {
    hide Legal, Run, Enabled, Apply, Play, Played;
    LastAction(START, actions, last, r, feeds);
    moves := Lift(EMPTY, actions + [last], r, feeds);
  }

  /** Evidence is reused in no run with overlapping stores. */
  ghost predicate NeverReusesOverlapping(r: Rule) {
    forall feeds: Feeds, moves | Play(EMPTY, moves, r, feeds) :: Disjoint(Played(EMPTY, moves, r, feeds).s.firings)
  }

  lemma {:induction false} NeverFiresEither(m: Memory, moves: seq<Move>, r: Rule, feeds: Feeds)
    requires Silent(m.s) && (r.level <= 0 || Contradictory(r)) && Play(m, moves, r, feeds)
    ensures Silent(Played(m, moves, r, feeds).s)
    decreases |moves|
  {
    hide Contradictory, Apply, Enabled, Left;
    if moves != [] {
      match moves[0] {
        case Act(a) =>
          RunCons(m.s, a, [], r, feeds);
          NeverFires(m.s, [a] + [], r, feeds);
        case List(_, _) =>
      }
      NeverFiresEither(Do(m, moves[0], r, feeds), moves[1..], r, feeds);
    }
  }

  /** With overlapping stores, only a rule that cannot fire never counts an event twice. */
  lemma OverlapReuseExactly(r: Rule)
    ensures NeverReusesOverlapping(r) <==> r.level <= 0 || Contradictory(r)
  {
    hide Contradictory;
    if r.level <= 0 || Contradictory(r) {
      forall feeds: Feeds, moves | Play(EMPTY, moves, r, feeds)
        ensures Disjoint(Played(EMPTY, moves, r, feeds).s.firings)
      {
        NeverFiresEither(EMPTY, moves, r, feeds);
      }
    } else {
      var feeds: Feeds := _ => 1;
      if r.frequency == 0 {
        var actions := UnmarkedIsReused(r, 0, feeds);
        var moves := Lift(EMPTY, actions, r, feeds);
      } else {
        var moves := MarkedLeavesFirst(r, 0, feeds);
      }
    }
  }
}
