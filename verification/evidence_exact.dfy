/**
 * When evidence is never counted twice, and when firings are paid for in events: exact
 * conditions on the rule and on how often the rules that feed the list name it.
 */
module EvidenceExactly {
  import opened Options
  import opened Filters
  import opened EventObjects
  import opened RepeatSearch
  import opened SearchMeaning
  import opened EvidenceRuns

  /** No event is counted by two firings, each firing counted frequency + 1 events, and all of those were stored. */
  ghost predicate PaidFor(s: State, r: Rule) {
    && Disjoint(s.firings)
    && (forall x | 0 <= x < |s.firings| :: |s.firings[x].uids| == r.frequency + 1)
    && |s.firings| * (r.frequency + 1) <= |s.evs|
  }

  /** No event is counted by two firings of a rule that marks its evidence and whose filters group events. */
  lemma NoEvidenceReuse(r: Rule, actions: seq<Action>, feeds: Feeds)
    requires Sane(r) && Legal(START, actions, r, feeds)
    ensures Disjoint(Run(START, actions, r, feeds).firings)
    ensures FedOnce(feeds) ==> PaidFor(Run(START, actions, r, feeds), r)
  {
    RunInv(START, actions, r, feeds);
    if FedOnce(feeds) {
      RunFull(START, actions, r, feeds);
      var s := Run(START, actions, r, feeds);
      var u := UnionOf(s, r, |s.firings|);
      BoundedSet(u, |s.evs|);
    }
  }

  lemma {:induction false} UnionOf(s: State, r: Rule, n: nat) returns (u: set<nat>)
    requires Disjoint(s.firings) && Known(s) && n <= |s.firings|
    requires forall x | 0 <= x < |s.firings| :: |s.firings[x].uids| == r.frequency + 1
    ensures |u| == n * (r.frequency + 1)
    ensures forall x | x in u :: x < |s.evs|
    ensures forall y | n <= y < |s.firings| :: u !! s.firings[y].uids
    decreases n
  {
    if n == 0 {
      u := {};
    } else {
      var v := UnionOf(s, r, n - 1);
      u := v + s.firings[n - 1].uids;
    }
  }

  lemma {:induction false} BoundedSet(u: set<nat>, n: nat)
    requires forall x | x in u :: x < n
    ensures |u| <= n
    decreases n
  {
    if n == 0 {
      assert u == {};
    } else {
      BoundedSet(u - {n - 1}, n - 1);
      if n - 1 in u {
        assert |u - {n - 1}| == |u| - 1;
      }
    }
  }

  // ---- Building runs

  lemma {:induction false} RunConcat(s: State, a: seq<Action>, b: seq<Action>, r: Rule, feeds: Feeds)
    requires Legal(s, a, r, feeds) && Legal(Run(s, a, r, feeds), b, r, feeds)
    ensures Legal(s, a + b, r, feeds) && Run(s, a + b, r, feeds) == Run(Run(s, a, r, feeds), b, r, feeds)
    decreases |a|
  {
    hide Enabled, Apply;
    if a == [] {
      assert a + b == b;
    } else {
      assert (a + b)[0] == a[0] && (a + b)[1..] == a[1..] + b;
      RunConcat(Apply(s, a[0], r, feeds), a[1..], b, r, feeds);
    }
  }

  /** u is s after n fresh copies of an event were stored. */
  ghost predicate Grown(s: State, u: State, ev: Event, n: nat, times: nat) {
    && Ok(u) && u.firings == s.firings
    && |u.evs| == |s.evs| + n && |u.marks| == |s.marks| + n
    && (forall k | 0 <= k < |s.evs| :: u.evs[k] == s.evs[k])
    && (forall k | 0 <= k < |s.marks| :: u.marks[k] == s.marks[k])
    && (forall k | |s.evs| <= k < |u.evs| :: u.evs[k] == ev)
    && (forall k | |s.marks| <= k < |u.marks| :: u.marks[k] == 0)
    && |u.list| == |s.list| + n * times
    && (forall k | 0 <= k < |s.list| :: u.list[k] == s.list[k])
    && (times == 1 ==> forall k | |s.list| <= k < |u.list| :: u.list[k] == |s.evs| + (k - |s.list|))
  }

  lemma GrownOk(s: State, u: State, ev: Event, n: nat, times: nat)
    requires Grown(s, u, ev, n, times)
    ensures Ok(u)
  {
  }

  lemma {:induction false} Store(s: State, ev: Event, n: nat, from: RuleId, r: Rule, feeds: Feeds)
      returns (actions: seq<Action>)
    requires Ok(s)
    ensures Legal(s, actions, r, feeds) && Grown(s, Run(s, actions, r, feeds), ev, n, feeds(from))
    ensures forall a | a in actions :: a.Append?
    decreases n
  {
    if n == 0 {
      actions := [];
    } else {
      var a := Append(ev, 0, from);
      var t := Apply(s, a, r, feeds);
      var rest := Store(t, ev, n - 1, from, r, feeds);
      RunCons(s, a, rest, r, feeds);
      actions := [a] + rest;
      GrownStep(s, t, Run(t, rest, r, feeds), ev, n, feeds(from));
    }
  }

  lemma GrownStep(s: State, t: State, u: State, ev: Event, n: nat, times: nat)
    requires 0 < n && Ok(s) && Grown(t, u, ev, n - 1, times)
    requires t == s.(list := s.list + Copies(|s.evs|, times), evs := s.evs + [ev], marks := s.marks + [0])
    ensures Grown(s, u, ev, n, times)
  {
    assert n * times == (n - 1) * times + times;
    if times == 1 {
      forall k | |s.list| <= k < |u.list| ensures u.list[k] == |s.evs| + (k - |s.list|) {
        if k == |s.list| {
          assert u.list[k] == t.list[k];
        }
      }
    }
  }

  /** A clock at which every event of time 0 is just within the timeframe. */
  function Now(r: Rule, n: nat): (clock: seq<int>)
    ensures |clock| == n && forall i | 0 <= i < n :: clock[i] == r.timeframe
  {
    seq(n, _ => r.timeframe)
  }

  lemma {:induction false} AllHit(l: seq<Event>, clock: seq<int>, r: Rule, my: Event, p: nat)
    requires p <= |l| == |clock| && forall i | 0 <= i < p :: InTime(l, clock, r, i) && Passes(r, l[i], my)
    ensures |Hits(l, clock, r, my, p)| == p
    ensures forall k | 0 <= k < p :: Hits(l, clock, r, my, p)[k] == p - 1 - k
  {
    hide InTime, Passes;
    if p > 0 {
      AllHit(l, clock, r, my, p - 1);
    }
  }

  /** Nothing but n plain events was stored, and nothing fired. */
  ghost predicate Plain(s: State, r: Rule, n: nat) {
    && Ok(s) && s.firings == [] && |s.evs| == n
    && forall k | 0 <= k < n :: s.evs[k] == PlainEvent(r) && s.marks[k] == 0
  }

  lemma StorePlain(n: nat, from: RuleId, r: Rule, feeds: Feeds) returns (stores: seq<Action>)
    ensures Legal(START, stores, r, feeds) && forall a | a in stores :: a.Append?
    ensures var s := Run(START, stores, r, feeds);
            && Plain(s, r, n) && |s.list| == n * feeds(from)
            && (feeds(from) == 1 ==> forall k | 0 <= k < n :: s.list[k] == k)
  {
    hide PlainEvent, Legal, Run;
    stores := Store(START, PlainEvent(r), n, from, r, feeds);
  }

  /** A search over unmarked plain events counts all of them. */
  lemma PlainSearch(s: State, r: Rule)
    requires Ok(s) && !Contradictory(r) && 0 < r.level && r.frequency < |s.list|
    requires forall k | 0 <= k < |s.list| :: s.evs[s.list[k]] == PlainEvent(r) && s.marks[s.list[k]] == 0
    ensures var hs := HitsIn(s, r, PlainEvent(r), Now(r, |s.list|));
            |hs| == |s.list| && Fires(hs, Matched(s), r) && forall k | 0 <= k < |hs| :: hs[k] == |hs| - 1 - k
  {
    PlainEventPasses(r);
    hide Passes, Contradictory, PlainEvent;
    AllHit(Events(s), Now(r, |s.list|), r, PlainEvent(r), |s.list|);
  }

  /** Two searches in a row that both fire for the followed rule, and what they record. */
  lemma TwoFirings(s: State, t: State, r: Rule, my: Event, my': Event, clock: seq<int>, feeds: Feeds)
    requires Ok(s) && s.firings == [] && |clock| == |s.list| && Fires(HitsIn(s, r, my, clock), Matched(s), r)
    requires t == Apply(s, Search(r, my, clock), r, feeds)
    requires |clock| == |t.list| && Fires(HitsIn(t, r, my', clock), Matched(t), r)
    ensures var searches := [Search(r, my, clock)] + [Search(r, my', clock)];
            var hs, hs' := HitsIn(s, r, my, clock), HitsIn(t, r, my', clock);
            && Legal(s, searches, r, feeds)
            && Run(s, searches, r, feeds).firings ==
               [Firing(my, Evidence(s.list, hs, r.frequency), s.list[hs[0]])]
               + [Firing(my', Evidence(t.list, hs', r.frequency), t.list[hs'[0]])]
  {
    FiringStep(s, r, my, clock, feeds);
    FiringStep(t, r, my', clock, feeds);
    hide Fires, HitsIn, Matched, Apply, Evidence;
    var first, second := Search(r, my, clock), Search(r, my', clock);
    assert Legal(Apply(t, second, r, feeds), [], r, feeds);
    RunCons(t, second, [], r, feeds);
    RunCons(s, first, [second], r, feeds);
  }

  /** With stored frequency 0, that is 2 in the rule file, nothing is marked, and one event is evidence twice. */
  lemma UnmarkedIsReused(r: Rule, from: RuleId, feeds: Feeds) returns (actions: seq<Action>)
    requires r.frequency == 0 && 0 < r.level && !Contradictory(r) && 0 < feeds(from)
    ensures Legal(START, actions, r, feeds) && !Disjoint(Run(START, actions, r, feeds).firings)
    ensures forall a | a in actions :: !a.DropOldest?
  {
    var my := PlainEvent(r);
    var stores := StorePlain(1, from, r, feeds);
    var s := Run(START, stores, r, feeds);
    hide Passes, Hits, Contradictory, PlainEvent, Legal, Run;
    var clock := Now(r, |s.list|);
    PlainSearch(s, r);
    var t := SameAgain(s, r, my, clock, feeds);
    TwoFirings(s, t, r, my, my, clock, feeds);
    actions := stores + ([Search(r, my, clock)] + [Search(r, my, clock)]);
    RunConcat(START, stores, [Search(r, my, clock)] + [Search(r, my, clock)], r, feeds);
    var u := Run(START, actions, r, feeds);
    assert s.list[HitsIn(s, r, my, clock)[0]] in u.firings[0].uids * u.firings[1].uids;
  }

  /** A firing that marks nothing can be had again. */
  lemma SameAgain(s: State, r: Rule, my: Event, clock: seq<int>, feeds: Feeds) returns (t: State)
    requires Ok(s) && r.frequency == 0 && |clock| == |s.list| && Fires(HitsIn(s, r, my, clock), Matched(s), r)
    ensures t == Apply(s, Search(r, my, clock), r, feeds) && t.list == s.list
    ensures HitsIn(t, r, my, clock) == HitsIn(s, r, my, clock) && Matched(t) == Matched(s)
  {
    FiringStep(s, r, my, clock, feeds);
    t := Apply(s, Search(r, my, clock), r, feeds);
    hide Apply, Fires, Hits;
    assert Events(t) == Events(s) && Matched(t) == Matched(s);
  }

  /** With a list named twice, a firing counts some event twice, and so fewer events than it asks for. */
  lemma RepeatedIsUnderpaid(r: Rule, from: RuleId, feeds: Feeds) returns (actions: seq<Action>)
    requires 0 < r.frequency && 0 < r.level && !Contradictory(r) && 2 <= feeds(from)
    ensures Legal(START, actions, r, feeds)
    ensures var s := Run(START, actions, r, feeds);
            |s.firings| == 1 && |s.firings[0].uids| <= r.frequency == |s.evs|
  {
    var my := PlainEvent(r);
    var stores := StorePlain(r.frequency, from, r, feeds);
    var s := Run(START, stores, r, feeds);
    assert |s.list| >= r.frequency + 1 by {
      MoreNodes(r.frequency, feeds(from));
    }
    hide Passes, Hits, Contradictory, PlainEvent, Legal, Run, Fires;
    PlainSearch(s, r);
    var clock := Now(r, |s.list|);
    var search := Search(r, my, clock);
    var t := Apply(s, search, r, feeds);
    FiringStep(s, r, my, clock, feeds);
    LastAction(START, stores, search, r, feeds);
    actions := stores + [search];
    BoundedSet(t.firings[0].uids, r.frequency);
  }

  lemma MoreNodes(n: nat, times: nat)
    requires 0 < n && 2 <= times
    ensures n < n * times
  {
    assert n * times == n * (times - 1) + n && 0 < n * (times - 1);
  }

  lemma LastAction(s: State, actions: seq<Action>, last: Action, r: Rule, feeds: Feeds)
    requires Legal(s, actions, r, feeds) && Enabled(Run(s, actions, r, feeds), last)
    ensures Legal(s, actions + [last], r, feeds)
    ensures Run(s, actions + [last], r, feeds) == Apply(Run(s, actions, r, feeds), last, r, feeds)
  {
    hide Enabled, Apply;
    var t := Run(s, actions, r, feeds);
    assert Legal(Apply(t, last, r, feeds), [], r, feeds);
    RunCons(t, last, [], r, feeds);
    assert [last] + [] == [last];
    RunConcat(s, actions, [last], r, feeds);
  }

  /** The list and the marks that TellingIsReused works on: plain events, and a telling one as the newest. */
  ghost predicate Baited(s: State, r: Rule)
    requires Differs(r)
  {
    && Ok(s) && s.firings == [] && |s.list| == |s.evs| == r.frequency + 2
    && (forall k | 0 <= k < |s.list| :: s.list[k] == k && s.marks[k] == 0)
    && (forall k | 0 <= k <= r.frequency :: s.evs[k] == PlainEvent(r))
    && s.evs[r.frequency + 1] == TellingEvent(r)
  }

  lemma GrownIsBaited(s: State, t: State, r: Rule)
    requires Differs(r) && Grown(START, s, PlainEvent(r), r.frequency + 1, 1) && Grown(s, t, TellingEvent(r), 1, 1)
    ensures Baited(t, r)
  {
    hide Differs, PlainEvent, TellingEvent;
  }

  lemma Bait(r: Rule, from: RuleId, feeds: Feeds) returns (stores: seq<Action>)
    requires Differs(r) && feeds(from) == 1
    ensures Legal(START, stores, r, feeds) && Baited(Run(START, stores, r, feeds), r)
  {
    hide Differs, PlainEvent, TellingEvent, Grown;
    var plain := Store(START, PlainEvent(r), r.frequency + 1, from, r, feeds);
    var s := Run(START, plain, r, feeds);
    GrownOk(START, s, PlainEvent(r), r.frequency + 1, 1);
    var telling := Store(s, TellingEvent(r), 1, from, r, feeds);
    hide Legal, Run;
    RunConcat(START, plain, telling, r, feeds);
    stores := plain + telling;
    GrownIsBaited(s, Run(START, stores, r, feeds), r);
  }

  /** The first search counts the telling event too, marks it alone, and so counts the newest plain one unmarked. */
  lemma FirstBite(s: State, r: Rule)
    requires Differs(r) && Baited(s, r) && !Contradictory(r) && 0 < r.level
    ensures var hs := HitsIn(s, r, PlainEvent(r), Now(r, |s.list|));
            && |hs| == |s.list| && Fires(hs, Matched(s), r)
            && s.list[hs[0]] == r.frequency + 1 && s.list[hs[1]] == r.frequency
  {
    PlainEventPasses(r);
    TellingEventPasses(r);
    hide Passes, Contradictory, Differs, PlainEvent, TellingEvent;
    AllHit(Events(s), Now(r, |s.list|), r, PlainEvent(r), |s.list|);
  }

  lemma PassedOver(l: seq<Event>, clock: seq<int>, r: Rule, my: Event, p: nat)
    requires p < |l| == |clock| && InTime(l, clock, r, p) && !Passes(r, l[p], my)
    ensures Hits(l, clock, r, my, p + 1) == Hits(l, clock, r, my, p)
  {
  }

  /** The second search passes over the telling event and finds the plain ones as fresh as before. */
  lemma SecondBite(s: State, t: State, r: Rule)
    requires Differs(r) && Baited(s, r) && !Contradictory(r) && 0 < r.level
    requires t == s.(marks := t.marks, firings := t.firings) && |t.marks| == |s.marks|
    requires forall k | 0 <= k <= r.frequency :: t.marks[k] == 0
    ensures Ok(t)
    ensures var hs := HitsIn(t, r, TellingEvent(r), Now(r, |t.list|));
            Fires(hs, Matched(t), r) && t.list[hs[0]] == r.frequency
  {
    PlainEventPasses(r);
    TellingEventPasses(r);
    var my, clock := TellingEvent(r), Now(r, |t.list|);
    hide Passes, Contradictory, Differs, PlainEvent, TellingEvent, Hits;
    AllHit(Events(t), clock, r, my, r.frequency + 1);
    PassedOver(Events(t), clock, r, my, r.frequency + 1);
  }

  /** With an effective different_* or not_same condition, an event counted but not marked is counted again. */
  lemma TellingIsReused(r: Rule, from: RuleId, feeds: Feeds) returns (actions: seq<Action>)
    requires Differs(r) && !Contradictory(r) && 0 < r.level && 0 < r.frequency && feeds(from) == 1
    ensures Legal(START, actions, r, feeds) && !Disjoint(Run(START, actions, r, feeds).firings)
  {
    var stores := Bait(r, from, feeds);
    var s := Run(START, stores, r, feeds);
    hide Passes, Hits, Differs, Contradictory, PlainEvent, TellingEvent, Legal, Run;
    var clock := Now(r, |s.list|);
    FirstBite(s, r);
    FiringStep(s, r, PlainEvent(r), clock, feeds);
    var t := Apply(s, Search(r, PlainEvent(r), clock), r, feeds);
    SecondBite(s, t, r);
    TwoFirings(s, t, r, PlainEvent(r), TellingEvent(r), clock, feeds);
    var searches := [Search(r, PlainEvent(r), clock)] + [Search(r, TellingEvent(r), clock)];
    actions := stores + searches;
    RunConcat(START, stores, searches, r, feeds);
    var u := Run(START, actions, r, feeds);
    assert s.list[HitsIn(s, r, PlainEvent(r), clock)[1]] in u.firings[0].uids;
    assert t.list[HitsIn(t, r, TellingEvent(r), clock)[0]] in u.firings[1].uids;
  }

  // ---- The exact conditions

  /** Evidence is reused in no run, however often rules name the list. */
  ghost predicate NeverReuses(r: Rule) {
    forall feeds: Feeds, actions | Legal(START, actions, r, feeds) :: Disjoint(Run(START, actions, r, feeds).firings)
  }

  /**
   * Evidence is never reused exactly if the rule cannot fire at all, for its level or for conditions that contradict
   * each other, or its stored frequency is positive and no effective condition asks for a difference.
   */
  lemma ReuseExactly(r: Rule)
    ensures NeverReuses(r) <==> r.level <= 0 || Contradictory(r) || (0 < r.frequency && !Differs(r))
  {
    hide Contradictory, Differs;
    if r.level <= 0 || Contradictory(r) || (0 < r.frequency && !Differs(r)) {
      forall feeds: Feeds, actions | Legal(START, actions, r, feeds)
        ensures Disjoint(Run(START, actions, r, feeds).firings)
      {
        if r.level <= 0 || Contradictory(r) {
          NeverFires(START, actions, r, feeds);
        } else {
          NoEvidenceReuse(r, actions, feeds);
        }
      }
    } else {
      var feeds: Feeds := _ => 1;
      if r.frequency == 0 {
        var actions := UnmarkedIsReused(r, 0, feeds);
      } else {
        var actions := TellingIsReused(r, 0, feeds);
      }
    }
  }

  /** In every run over a list fed in this way, firings are paid for in events. */
  ghost predicate AlwaysPaidFor(r: Rule, feeds: Feeds) {
    forall actions | Legal(START, actions, r, feeds) :: PaidFor(Run(START, actions, r, feeds), r)
  }

  /** No rule feeds the list at all. */
  ghost predicate Unfed(feeds: Feeds) {
    forall rule :: feeds(rule) == 0
  }

  /** They are exactly if the rule cannot fire, or its evidence is never reused and no rule names the list twice. */
  lemma PaidForExactly(r: Rule, feeds: Feeds)
    ensures AlwaysPaidFor(r, feeds) <==>
      r.level <= 0 || Contradictory(r) || Unfed(feeds) || (0 < r.frequency && !Differs(r) && FedOnce(feeds))
  {
    hide Contradictory, Differs;
    if r.level <= 0 || Contradictory(r) || Unfed(feeds) || (0 < r.frequency && !Differs(r) && FedOnce(feeds)) {
      forall actions | Legal(START, actions, r, feeds) ensures PaidFor(Run(START, actions, r, feeds), r) {
        if r.level <= 0 || Contradictory(r) {
          NeverFires(START, actions, r, feeds);
        } else if Unfed(feeds) {
          NothingListed(START, actions, r, feeds);
        } else {
          NoEvidenceReuse(r, actions, feeds);
        }
      }
    } else {
      var from: RuleId :| feeds(from) != 0;
      if r.frequency == 0 {
        var actions := UnmarkedIsReused(r, from, feeds);
      } else if !FedOnce(feeds) {
        var twice: RuleId :| feeds(twice) > 1;
        var actions := RepeatedIsUnderpaid(r, twice, feeds);
      } else {
        var actions := TellingIsReused(r, from, feeds);
      }
    }
  }

  lemma {:induction false} NothingListed(s: State, actions: seq<Action>, r: Rule, feeds: Feeds)
    requires Unfed(feeds) && s.list == [] && s.firings == [] && Legal(s, actions, r, feeds)
    ensures Run(s, actions, r, feeds).firings == []
    decreases |actions|
  {
    if actions != [] {
      NothingListed(Apply(s, actions[0], r, feeds), actions[1..], r, feeds);
    }
  }
}
