/**
 * Whole runs over one index list: events are stored, the oldest leave, and composite rules
 * search. An event stands in the list as often as its rule names the list, and all its nodes
 * share one mark. The run follows the firings of one rule.
 */
module EvidenceRuns {
  import opened Options
  import opened Filters
  import opened EventObjects
  import opened RepeatSearch
  import opened SearchMeaning

  /** How often the rule that generated an event names the list. */
  type Feeds = RuleId -> nat

  /** The events a firing counted, the newest of them, and the event it fired for. */
  datatype Firing = Firing(my: Event, uids: set<nat>, first: nat)

  /** An event is known by its place in evs; list has its nodes, oldest first; marks are the fields matched. */
  datatype State = State(list: seq<nat>, evs: seq<Event>, marks: seq<int>, firings: seq<Firing>)

  /**
   * Raise is what a search through another index list can do to an event that is
   * in both lists; nodes leave from the old end only.
   */
  datatype Action =
    | Append(ev: Event, matched: nat, from: RuleId)
    | DropOldest(n: nat)
    | Raise(uid: nat, matched: nat)
    | Search(rule: Rule, my: Event, clock: seq<int>)

  ghost predicate Ok(s: State) {
    |s.evs| == |s.marks| && forall i | 0 <= i < |s.list| :: s.list[i] < |s.evs|
  }

  ghost function Events(s: State): (l: seq<Event>)
    requires Ok(s)
    ensures |l| == |s.list|
  {
    seq(|s.list|, i requires 0 <= i < |s.list| => s.evs[s.list[i]])
  }

  ghost function Matched(s: State): (m: seq<int>)
    requires Ok(s)
    ensures |m| == |s.list|
  {
    seq(|s.list|, i requires 0 <= i < |s.list| => s.marks[s.list[i]])
  }

  function Copies(u: nat, n: nat): (c: seq<nat>)
    ensures |c| == n && forall i | 0 <= i < n :: c[i] == u
  {
    seq(n, _ => u)
  }

  ghost predicate Enabled(s: State, a: Action) {
    Ok(s) &&
    match a
    case Append(_, _, _) => true
    case DropOldest(n) => n <= |s.list|
    case Raise(u, m) => u < |s.evs| && s.marks[u] <= m
    case Search(_, _, clock) => |clock| == |s.list|
  }

  ghost function HitsIn(s: State, r: Rule, my: Event, clock: seq<int>): seq<nat>
    requires Ok(s) && |clock| == |s.list|
  {
    Hits(Events(s), clock, r, my, |s.list|)
  }

  /** The events behind the first f + 1 hits. */
  ghost function Evidence(list: seq<nat>, hs: seq<nat>, f: nat): set<nat>
    requires InRange(hs, |list|) && f < |hs|
  {
    set k | 0 <= k <= f :: list[hs[k]]
  }

  /** The marks after a firing: the newest counted event carries the rule's level. */
  ghost function MarkFirst(s: State, at: nat, r: Rule): seq<int>
    requires Ok(s) && at < |s.list|
  {
    if 0 < r.frequency then s.marks[s.list[at] := r.level] else s.marks
  }

  /** One action; firings are recorded for the followed rule only. */
  ghost function Apply(s: State, a: Action, followed: Rule, feeds: Feeds): (u: State)
    requires Enabled(s, a)
    ensures Ok(u)
  {
    match a
    case Append(ev, m, rule) =>
      s.(list := s.list + Copies(|s.evs|, feeds(rule)), evs := s.evs + [ev], marks := s.marks + [m])
    case DropOldest(n) => s.(list := s.list[n..])
    case Raise(u, m) => s.(marks := s.marks[u := m])
    case Search(r, my, clock) =>
      var hs := HitsIn(s, r, my, clock);
      if !Fires(hs, Matched(s), r) then s
      else
        var t := s.(marks := MarkFirst(s, hs[0], r));
        if r != followed then t
        else t.(firings := s.firings + [Firing(my, Evidence(s.list, hs, r.frequency), s.list[hs[0]])])
  }

  /** The effect of a search that fires for the followed rule. */
  lemma FiringStep(s: State, r: Rule, my: Event, clock: seq<int>, feeds: Feeds)
    requires Ok(s) && |clock| == |s.list| && Fires(HitsIn(s, r, my, clock), Matched(s), r)
    ensures var hs := HitsIn(s, r, my, clock);
            Apply(s, Search(r, my, clock), r, feeds) ==
            State(s.list, s.evs, MarkFirst(s, hs[0], r),
                  s.firings + [Firing(my, Evidence(s.list, hs, r.frequency), s.list[hs[0]])])
  {
  }

  ghost predicate Legal(s: State, actions: seq<Action>, followed: Rule, feeds: Feeds)
    decreases |actions|
  {
    actions != [] ==>
      Enabled(s, actions[0])
      && Legal(Apply(s, actions[0], followed, feeds), actions[1..], followed, feeds)
  }

  ghost function Run(s: State, actions: seq<Action>, followed: Rule, feeds: Feeds): State
    requires Legal(s, actions, followed, feeds)
    decreases |actions|
  {
    if actions == [] then s else Run(Apply(s, actions[0], followed, feeds), actions[1..], followed, feeds)
  }

  const START := State([], [], [], [])

  lemma RunCons(s: State, a: Action, rest: seq<Action>, r: Rule, feeds: Feeds)
    requires Enabled(s, a) && Legal(Apply(s, a, r, feeds), rest, r, feeds)
    ensures Legal(s, [a] + rest, r, feeds) && Run(s, [a] + rest, r, feeds) == Run(Apply(s, a, r, feeds), rest, r, feeds)
  {
    assert ([a] + rest)[1..] == rest;
  }

  // ---- Invariant

  ghost predicate Sorted(list: seq<nat>) {
    forall i, j | 0 <= i < j < |list| :: list[i] <= list[j]
  }

  ghost predicate Identified(s: State) {
    Ok(s) && Sorted(s.list) && forall u | 0 <= u < |s.marks| :: 0 <= s.marks[u]
  }

  /** A node of event u stands at or after position i. */
  ghost predicate From(list: seq<nat>, i: nat, u: nat) {
    exists j :: i <= j < |list| && list[j] == u
  }

  /** Evidence still listed passes the filters of its firing, and its first event is marked and listed no earlier. */
  ghost predicate Remembers(s: State, f: Firing, r: Rule)
    requires Ok(s)
  {
    && f.first < |s.evs| && Passes(r, s.evs[f.first], f.my) && r.level <= s.marks[f.first]
    && forall i | 0 <= i < |s.list| && s.list[i] in f.uids :: Passes(r, s.evs[s.list[i]], f.my)
        && From(s.list, i, f.first)
  }

  ghost predicate Disjoint(firings: seq<Firing>) {
    forall x, y | 0 <= x < y < |firings| :: firings[x].uids !! firings[y].uids
  }

  ghost predicate Known(s: State) {
    forall x, u | 0 <= x < |s.firings| && u in s.firings[x].uids :: u < |s.evs|
  }

  ghost predicate Inv(s: State, r: Rule) {
    && Identified(s) && Disjoint(s.firings) && Known(s)
    && forall x | 0 <= x < |s.firings| :: Remembers(s, s.firings[x], r)
  }

  /** The rules the invariant is about: they mark what they count, and their filters group events. */
  ghost predicate Sane(r: Rule) {
    0 < r.frequency && !Differs(r)
  }

  /** No rule names the list twice. */
  ghost predicate FedOnce(feeds: Feeds) {
    forall rule :: feeds(rule) <= 1
  }

  /** What storing, dropping and raising do to one remembered firing. */
  lemma AppendRemembers(s: State, ev: Event, m: nat, n: nat, f: Firing, r: Rule)
    requires Ok(s) && Remembers(s, f, r) && forall u | u in f.uids :: u < |s.evs|
    ensures var t := s.(list := s.list + Copies(|s.evs|, n), evs := s.evs + [ev], marks := s.marks + [m]);
            Ok(t) && Remembers(t, f, r)
  {
    hide Passes;
    var list := s.list + Copies(|s.evs|, n);
    forall i | 0 <= i < |list| && list[i] in f.uids ensures i < |s.list| && From(list, i, f.first) {
      assert i < |s.list| && list[i] == s.list[i];
      var j :| i <= j < |s.list| && s.list[j] == f.first;
      assert list[j] == f.first;
    }
  }

  lemma DropRemembers(s: State, n: nat, f: Firing, r: Rule)
    requires Ok(s) && n <= |s.list| && Remembers(s, f, r)
    ensures Ok(s.(list := s.list[n..])) && Remembers(s.(list := s.list[n..]), f, r)
  {
    hide Passes;
    var list := s.list[n..];
    forall i | 0 <= i < |list| && list[i] in f.uids ensures Passes(r, s.evs[list[i]], f.my) && From(list, i, f.first) {
      assert list[i] == s.list[n + i];
      var j :| n + i <= j < |s.list| && s.list[j] == f.first;
      assert list[j - n] == f.first;
    }
  }

  lemma QuietStepRemembers(s: State, a: Action, f: Firing, r: Rule, followed: Rule, feeds: Feeds)
    requires Enabled(s, a) && !a.Search? && Remembers(s, f, r)
    requires forall u | u in f.uids :: u < |s.evs|
    ensures Remembers(Apply(s, a, followed, feeds), f, r)
  {
    hide Passes, Copies;
    match a {
      case Append(ev, m, from) =>
        AppendRemembers(s, ev, m, feeds(from), f, r);
      case DropOldest(n) => DropRemembers(s, n, f, r);
      case Raise(_, _) =>
    }
  }

  lemma MarkRemembers(s: State, at: nat, other: Rule, f: Firing, r: Rule)
    requires Ok(s) && Remembers(s, f, r) && at < |s.list| && s.marks[s.list[at]] < other.level
    ensures Remembers(s.(marks := MarkFirst(s, at, other)), f, r)
  {
    hide Passes;
  }

  /** Counting an event that an earlier firing counted brings a used event among the newer hits. */
  lemma SharedEvidenceIsUsed(s: State, r: Rule, my: Event, clock: seq<int>, f: Firing, k: nat)
    requires Ok(s) && !Differs(r) && |clock| == |s.list| && Remembers(s, f, r)
    requires var hs := HitsIn(s, r, my, clock); k < |hs| && s.list[hs[k]] in f.uids
    ensures var hs := HitsIn(s, r, my, clock);
      exists m | 0 <= m <= k :: r.level <= Matched(s)[hs[m]]
  {
    var hs := HitsIn(s, r, my, clock);
    var l := Events(s);
    var i := hs[k];
    HitsSound(l, clock, r, my, |l|);
    assert From(s.list, i, f.first);
    var j :| i <= j < |s.list| && s.list[j] == f.first;
    ClassesOfEvents(r, s.evs[s.list[i]], s.evs[f.first], f.my, my);
    HitsReach(l, clock, r, my, |l|, i, j);
    var m :| 0 <= m < |hs| && hs[m] == j;
    assert m <= k;
  }

  /** A firing cannot count an event that an earlier firing of the rule counted. */
  lemma NoSharedEvidence(s: State, r: Rule, my: Event, clock: seq<int>, f: Firing)
    requires Ok(s) && !Differs(r) && |clock| == |s.list| && Remembers(s, f, r)
    requires Fires(HitsIn(s, r, my, clock), Matched(s), r)
    ensures Evidence(s.list, HitsIn(s, r, my, clock), r.frequency) !! f.uids
  {
    hide Passes;
    var hs := HitsIn(s, r, my, clock);
    forall k | 0 <= k <= r.frequency ensures s.list[hs[k]] !in f.uids {
      if s.list[hs[k]] in f.uids {
        SharedEvidenceIsUsed(s, r, my, clock, f, k);
      }
    }
  }

  /** Of what was counted, the newest event has a node no older than any. */
  lemma EvidenceIsOlder(list: seq<nat>, hs: seq<nat>, f: nat, i: nat)
    requires Sorted(list) && InRange(hs, |list|) && Descending(hs)
    requires f < |hs| && i < |list| && list[i] in Evidence(list, hs, f)
    ensures From(list, i, list[hs[0]])
  {
    var k :| 0 <= k <= f && list[hs[k]] == list[i];
    assert k == 0 || hs[k] < hs[0];
    assert list[if i <= hs[0] then hs[0] else i] == list[hs[0]];
  }

  /** The new firing is remembered from the start. */
  lemma NewFiringRemembered(s: State, r: Rule, my: Event, clock: seq<int>)
    requires Identified(s) && 0 < r.frequency && |clock| == |s.list|
    requires Fires(HitsIn(s, r, my, clock), Matched(s), r)
    ensures var hs := HitsIn(s, r, my, clock);
      var f := Firing(my, Evidence(s.list, hs, r.frequency), s.list[hs[0]]);
      Remembers(s.(marks := MarkFirst(s, hs[0], r)), f, r) && forall u | u in f.uids :: u < |s.evs|
  {
    hide Passes, Hits, InTime, From, Sorted;
    var hs := HitsIn(s, r, my, clock);
    var first := s.list[hs[0]];
    HitsSound(Events(s), clock, r, my, |s.list|);
    forall k | 0 <= k <= r.frequency ensures Passes(r, s.evs[s.list[hs[k]]], my) {
      assert Events(s)[hs[k]] == s.evs[s.list[hs[k]]];
    }
    forall i | 0 <= i < |s.list| && s.list[i] in Evidence(s.list, hs, r.frequency)
      ensures Passes(r, s.evs[s.list[i]], my) && From(s.list, i, first)
    {
      EvidenceIsOlder(s.list, hs, r.frequency, i);
    }
  }

  lemma MarkKeeps(s: State, r: Rule, other: Rule, at: nat)
    requires Inv(s, r) && at < |s.list| && s.marks[s.list[at]] < other.level
    ensures Inv(s.(marks := MarkFirst(s, at, other)), r)
  {
    hide Passes;
    forall x | 0 <= x < |s.firings| ensures Remembers(s.(marks := MarkFirst(s, at, other)), s.firings[x], r) {
      MarkRemembers(s, at, other, s.firings[x], r);
    }
  }

  lemma FiringKeeps(t: State, r: Rule, f: Firing)
    requires Inv(t, r) && Remembers(t, f, r)
    requires forall u | u in f.uids :: u < |t.evs|
    requires forall x | 0 <= x < |t.firings| :: t.firings[x].uids !! f.uids
    ensures Inv(t.(firings := t.firings + [f]), r)
  {
    hide Passes;
  }

  /** A firing of the followed rule. */
  lemma OwnFiringKeeps(s: State, r: Rule, my: Event, clock: seq<int>)
    requires Inv(s, r) && Sane(r) && |clock| == |s.list| && Fires(HitsIn(s, r, my, clock), Matched(s), r)
    ensures var hs := HitsIn(s, r, my, clock);
            var f := Firing(my, Evidence(s.list, hs, r.frequency), s.list[hs[0]]);
            Inv(s.(marks := MarkFirst(s, hs[0], r), firings := s.firings + [f]), r)
  {
    hide Passes, Hits, Differs;
    var hs := HitsIn(s, r, my, clock);
    assert Matched(s)[hs[0]] == s.marks[s.list[hs[0]]] < r.level;
    MarkKeeps(s, r, r, hs[0]);
    NewFiringRemembered(s, r, my, clock);
    forall x | 0 <= x < |s.firings| ensures s.firings[x].uids !! Evidence(s.list, hs, r.frequency) {
      NoSharedEvidence(s, r, my, clock, s.firings[x]);
    }
    hide Fires, Evidence, MarkFirst;
    var f := Firing(my, Evidence(s.list, hs, r.frequency), s.list[hs[0]]);
    FiringKeeps(s.(marks := MarkFirst(s, hs[0], r)), r, f);
  }

  lemma SearchKeeps(s: State, r: Rule, other: Rule, my: Event, clock: seq<int>, feeds: Feeds)
    requires Inv(s, r) && Sane(r) && |clock| == |s.list| && Fires(HitsIn(s, other, my, clock), Matched(s), other)
    ensures Inv(Apply(s, Search(other, my, clock), r, feeds), r)
  {
    hide Passes, Hits, Sane;
    if other == r {
      OwnFiringKeeps(s, r, my, clock);
    } else {
      var hs := HitsIn(s, other, my, clock);
      assert Matched(s)[hs[0]] == s.marks[s.list[hs[0]]] < other.level;
      MarkKeeps(s, r, other, hs[0]);
    }
  }

  lemma StepInv(s: State, a: Action, r: Rule, feeds: Feeds)
    requires Inv(s, r) && Sane(r) && Enabled(s, a)
    ensures Inv(Apply(s, a, r, feeds), r)
  {
    hide Passes;
    if a.Search? {
      if Fires(HitsIn(s, a.rule, a.my, a.clock), Matched(s), a.rule) {
        SearchKeeps(s, r, a.rule, a.my, a.clock, feeds);
      }
    } else {
      forall x | 0 <= x < |s.firings| ensures Remembers(Apply(s, a, r, feeds), s.firings[x], r) {
        QuietStepRemembers(s, a, s.firings[x], r, r, feeds);
      }
    }
  }

  lemma {:induction false} RunInv(s: State, actions: seq<Action>, r: Rule, feeds: Feeds)
    requires Inv(s, r) && Sane(r) && Legal(s, actions, r, feeds)
    ensures Inv(Run(s, actions, r, feeds), r)
    decreases |actions|
  {
    hide Inv;
    if actions != [] {
      StepInv(s, actions[0], r, feeds);
      RunInv(Apply(s, actions[0], r, feeds), actions[1..], r, feeds);
    }
  }

  // ---- How much evidence a firing has

  ghost predicate Strict(list: seq<nat>) {
    forall i, j | 0 <= i < j < |list| :: list[i] < list[j]
  }

  /** Every event is listed once, and every firing has counted as many events as the rule asks for. */
  ghost predicate Full(s: State, r: Rule) {
    Identified(s) && Strict(s.list) && forall x | 0 <= x < |s.firings| :: |s.firings[x].uids| == r.frequency + 1
  }

  lemma {:induction false} EvidenceSize(list: seq<nat>, hs: seq<nat>, f: nat)
    requires InRange(hs, |list|) && f < |hs| && Descending(hs) && Strict(list)
    ensures |Evidence(list, hs, f)| == f + 1
  {
    if f == 0 {
      assert Evidence(list, hs, 0) == {list[hs[0]]};
    } else {
      EvidenceSize(list, hs, f - 1);
      assert Evidence(list, hs, f) == Evidence(list, hs, f - 1) + {list[hs[f]]};
      forall k | 0 <= k < f ensures list[hs[f]] < list[hs[k]] {
        assert hs[f] < hs[k];
      }
    }
  }

  lemma StepFull(s: State, a: Action, r: Rule, feeds: Feeds)
    requires Full(s, r) && Enabled(s, a) && FedOnce(feeds)
    ensures Full(Apply(s, a, r, feeds), r)
  {
    hide Passes, Hits;
    if a.Search? {
      var hs := HitsIn(s, a.rule, a.my, a.clock);
      HitsSound(Events(s), a.clock, a.rule, a.my, |s.list|);
      if Fires(hs, Matched(s), a.rule) {
        assert Matched(s)[hs[0]] == s.marks[s.list[hs[0]]] < a.rule.level;
        EvidenceSize(s.list, hs, a.rule.frequency);
      }
    }
  }

  lemma {:induction false} RunFull(s: State, actions: seq<Action>, r: Rule, feeds: Feeds)
    requires Full(s, r) && FedOnce(feeds) && Legal(s, actions, r, feeds)
    ensures Full(Run(s, actions, r, feeds), r)
    decreases |actions|
  {
    hide Full;
    if actions != [] {
      StepFull(s, actions[0], r, feeds);
      RunFull(Apply(s, actions[0], r, feeds), actions[1..], r, feeds);
    }
  }

  // ---- Rules that never fire

  ghost predicate Silent(s: State) {
    Ok(s) && s.firings == [] && forall u | 0 <= u < |s.marks| :: 0 <= s.marks[u]
  }

  lemma {:induction false} NeverFires(s: State, actions: seq<Action>, r: Rule, feeds: Feeds)
    requires Silent(s) && (r.level <= 0 || Contradictory(r)) && Legal(s, actions, r, feeds)
    ensures Silent(Run(s, actions, r, feeds))
    decreases |actions|
  {
    hide Passes, Hits, Contradictory;
    if actions != [] {
      var a := actions[0];
      if a.Search? && Fires(HitsIn(s, a.rule, a.my, a.clock), Matched(s), a.rule) {
        var hs := HitsIn(s, a.rule, a.my, a.clock);
        HitsSound(Events(s), a.clock, a.rule, a.my, |s.list|);
        assert Matched(s)[hs[0]] == s.marks[s.list[hs[0]]] < a.rule.level;
        if Contradictory(a.rule) {
          NothingPasses(a.rule, Events(s)[hs[0]], a.my);
        }
      }
      NeverFires(Apply(s, a, r, feeds), actions[1..], r, feeds);
    }
  }
}
