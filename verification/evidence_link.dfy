/**
 * The runs are about the methods: a search and a store have the effect of the run's actions.
 * And what a frequency asks for, in events rather than in nodes of the list.
 */
module EvidenceOfMethods {
  import opened Options
  import opened Filters
  import opened EventObjects
  import opened RepeatSearch
  import opened SearchMeaning
  import opened EvidenceRuns
  import EvidenceExactly
  import M = CorrelationMemory

  // ---- A search of the heap is a search of the run

  /** The state of a run says what the event records and the nodes of the index list hold. */
  ghost predicate Shows(s: State, objects: seq<Eventinfo>, nodes: seq<OSListNode>)
    reads objects
  {
    && Ok(s) && |objects| == |s.evs| && |nodes| == |s.list|
    && (forall u, v | 0 <= u < v < |objects| :: objects[u] != objects[v])
    && (forall u | 0 <= u < |objects| :: objects[u].attrs == s.evs[u] && objects[u].matched == s.marks[u])
    && (forall i | 0 <= i < |nodes| :: nodes[i].data == objects[s.list[i]])
  }

  /** The event that searches is not stored yet; its search does to the records what the action does to the state. */
  method SearchInRun(nodes: seq<OSListNode>, my: Eventinfo, rule: Rule, clock: seq<int>,
                     ghost s: State, ghost objects: seq<Eventinfo>, ghost followed: Rule, ghost feeds: Feeds)
    returns (found: Eventinfo?)
    requires Shows(s, objects, nodes) && my !in objects && |clock| == |nodes|
    modifies my`matched, my`lastEvents, (set i | 0 <= i < |nodes| :: nodes[i].data)`matched
    ensures Shows(Apply(s, Search(rule, my.attrs, clock), followed, feeds), objects, nodes)
    ensures found != null <==> Fires(HitsIn(s, rule, my.attrs, clock), Matched(s), rule)
    ensures found != null ==> found == objects[s.list[HitsIn(s, rule, my.attrs, clock)[rule.frequency]]]
  {
    hide Hits, Passes, LastEvents, Counted, Fires, CountedUpTo, Recorded;
    assert AttrsOf(nodes) == Events(s) && MatchedOf(nodes) == Matched(s);
    ghost var hs := HitsIn(s, rule, my.attrs, clock);
    found := SearchLast(nodes, my, rule, clock);
    if Fires(hs, Matched(s), rule) {
      FiresHits(hs, Matched(s), rule);
      assert forall i | 0 <= i < |nodes| :: nodes[i].data == objects[s.list[i]] && nodes[i].data != my;
      assert forall u | 0 <= u < |objects| ::
        objects[u].matched == if 0 < rule.frequency && u == s.list[hs[0]] then rule.level else s.marks[u];
    }
  }

  lemma FiresHits(hs: seq<nat>, matched: seq<int>, r: Rule)
    requires InRange(hs, |matched|) && Fires(hs, matched, r)
    ensures r.frequency < |hs|
  {
  }

  // ---- A store is an append and a drop of the run

  /** How often a rule names the list. */
  function FeedsOf(rules: M.Rules, l: M.ListId): Feeds {
    (rule: RuleId) => M.Times(rules, rule, l)
  }

  ghost predicate Lists(s: State, objects: seq<Eventinfo>, indexed: seq<Eventinfo>) {
    && Ok(s) && |objects| == |s.evs| && |indexed| == |s.list|
    && forall i | 0 <= i < |indexed| :: indexed[i] == objects[s.list[i]]
  }

  /**
   * What Memory.Store makes of an index list is what storing the event and dropping old nodes make of the run's
   * list.
   */
  lemma StoreInRun(events: seq<Eventinfo>, lf: Eventinfo, matched: nat, k: nat, rules: M.Rules, l: M.ListId,
                   s: State, objects: seq<Eventinfo>, followed: Rule) returns (d: nat)
    requires k <= |events| + 1 && Lists(s, objects, M.Indexed(events, rules, l))
    ensures var feeds := FeedsOf(rules, l);
            var t := Apply(s, Append(lf.attrs, matched, lf.generatedRule), followed, feeds);
            && d <= |t.list|
            && Lists(Apply(t, DropOldest(d), followed, feeds), objects + [lf],
                     M.Indexed((events + [lf])[k..], rules, l))
  {
    d := M.StoreIsAppendThenDrop(events, lf, k, rules, l);
    hide M.Indexed, M.Times;
    var before := M.Indexed(events, rules, l);
    var appended := before + M.Repeat(lf, M.Times(rules, lf.generatedRule, l));
    var t := Apply(s, Append(lf.attrs, matched, lf.generatedRule), followed, FeedsOf(rules, l));
    assert Lists(t, objects + [lf], appended);
  }

  // ---- What a frequency asks for

  /** An event in the order of storing, and the rule that generated it. */
  datatype Stored = Stored(ev: Event, from: RuleId)

  /** The nodes of the first n stored events, each as often as its rule names the list. */
  ghost function Nodes(h: seq<Stored>, feeds: Feeds, n: nat): (nodes: seq<nat>)
    requires n <= |h|
    ensures forall i | 0 <= i < |nodes| :: nodes[i] < n
  {
    if n == 0 then [] else Nodes(h, feeds, n - 1) + Copies(n - 1, feeds(h[n - 1].from))
  }

  ghost function Listed(h: seq<Stored>, feeds: Feeds): (l: seq<Event>)
    ensures |l| == |Nodes(h, feeds, |h|)|
  {
    var nodes := Nodes(h, feeds, |h|);
    seq(|nodes|, i requires 0 <= i < |nodes| => h[nodes[i]].ev)
  }

  ghost function Image(list: seq<nat>, q: set<nat>): set<nat> {
    set i | i in q && i < |list| :: list[i]
  }

  /** The events, each once, that have a node in time and pass the filters. */
  ghost function EligibleEvents(h: seq<Stored>, feeds: Feeds, clock: seq<int>, r: Rule, my: Event): set<nat>
    requires |clock| == |Nodes(h, feeds, |h|)|
  {
    Image(Nodes(h, feeds, |h|), Eligible(Listed(h, feeds), clock, r, my))
  }

  /** An unused list in order of generation, searched for a rule of a frequency the rule file accepts. */
  ghost predicate Searchable(h: seq<Stored>, feeds: Feeds, clock: seq<int>, matched: seq<int>, r: Rule, xml: int) {
    var l := Listed(h, feeds);
    && |clock| == |matched| == |l| && Ordered(l) && Monotone(clock)
    && StoredFrequency(xml) == Some(r.frequency) && forall i | 0 <= i < |l| :: matched[i] < r.level
  }

  /** Frequency n asks for n events, the current one included. */
  ghost predicate AsksForEvents(h: seq<Stored>, feeds: Feeds, clock: seq<int>, matched: seq<int>, r: Rule, xml: int,
                                my: Event)
    requires Searchable(h, feeds, clock, matched, r, xml)
  {
    var l := Listed(h, feeds);
    Fires(Hits(l, clock, r, my, |l|), matched, r) <==> xml <= |EligibleEvents(h, feeds, clock, r, my)| + 1
  }

  ghost predicate FrequencyCountsEvents(feeds: Feeds) {
    forall h, clock, matched, r, xml, my: Event | Searchable(h, feeds, clock, matched, r, xml) ::
      AsksForEvents(h, feeds, clock, matched, r, xml, my)
  }

  lemma {:induction false} NodesOnce(h: seq<Stored>, feeds: Feeds, n: nat)
    requires n <= |h| && FedOnce(feeds)
    ensures Strict(Nodes(h, feeds, n))
  {
    if n > 0 {
      NodesOnce(h, feeds, n - 1);
      assert feeds(h[n - 1].from) <= 1;
    }
  }

  /** A strict list has as many events as nodes, whatever the selection. */
  lemma {:induction false} StrictImage(list: seq<nat>, q: set<nat>)
    requires Strict(list) && forall i | i in q :: i < |list|
    ensures |Image(list, q)| == |q|
    decreases q
  {
    if q == {} {
      assert Image(list, q) == {};
    } else {
      var x :| x in q;
      StrictImage(list, q - {x});
      assert Image(list, q) == Image(list, q - {x}) + {list[x]};
      forall i | i in q - {x} ensures list[i] != list[x] {
        assert i < x || x < i;
      }
    }
  }

  /** The rule without conditions, of stored frequency 1, that a repeated list deceives. */
  const BARE := Rule(1, 1, 0, true, false, 0, 0, [], [])

  lemma BarePasses(a: Event, my: Event)
    ensures Passes(BARE, a, my)
  {
    forall i: nat ensures !Bit(0, i) {
      NoBitsInZero(i);
    }
  }

  lemma OneEventListed(feeds: Feeds, from: RuleId, e: Event)
    ensures var h, n := [Stored(e, from)], feeds(from);
            Nodes(h, feeds, 1) == Copies(0, n) && |Listed(h, feeds)| == n
            && forall i | 0 <= i < n :: Listed(h, feeds)[i] == e
  {
    assert Nodes([Stored(e, from)], feeds, 1) == Nodes([Stored(e, from)], feeds, 0) + Copies(0, feeds(from));
  }

  function Zeros(n: nat): (z: seq<int>)
    ensures |z| == n && forall i | 0 <= i < n :: z[i] == 0
  {
    seq(n, _ => 0)
  }

  /** Any n nodes of one event satisfy a search for the bare rule, if there are two of them. */
  lemma NodesFire(l: seq<Event>, e: Event)
    requires 2 <= |l| && e.generateTime == 0 && forall i | 0 <= i < |l| :: l[i] == e
    ensures Ordered(l) && Monotone(Zeros(|l|))
    ensures Fires(Hits(l, Zeros(|l|), BARE, e, |l|), Zeros(|l|), BARE)
  {
    BarePasses(e, e);
    hide Passes, Hits, Zeros;
    EvidenceExactly.AllHit(l, Zeros(|l|), BARE, e, |l|);
  }

  /** One event whose rule names the list twice is as good as two. */
  lemma OneEventFires(feeds: Feeds, from: RuleId, e: Event)
    requires 2 <= feeds(from) && e.generateTime == 0
    ensures var h := [Stored(e, from)]; var zeros := Zeros(feeds(from));
            Searchable(h, feeds, zeros, zeros, BARE, 3) && !AsksForEvents(h, feeds, zeros, zeros, BARE, 3, e)
  {
    var h, zeros := [Stored(e, from)], Zeros(feeds(from));
    OneEventListed(feeds, from, e);
    NodesFire(Listed(h, feeds), e);
    hide Passes, Hits, Nodes, Listed, Eligible, Zeros, Fires, Ordered, Monotone;
    assert EligibleEvents(h, feeds, zeros, BARE, e) <= {0};
    SubsetOfOne(EligibleEvents(h, feeds, zeros, BARE, e), 0);
  }

  lemma SubsetOfOne(a: set<nat>, x: nat)
    requires a <= {x}
    ensures |a| <= 1
  {
    assert a == {} || a == {x};
  }

  /** A frequency counts events, for all rules and histories, exactly if no rule names the list twice. */
  lemma FrequencyCountsEventsExactly(feeds: Feeds)
    ensures FrequencyCountsEvents(feeds) <==> FedOnce(feeds)
  {
    if FedOnce(feeds) {
      forall h, clock, matched, r, xml, my: Event | Searchable(h, feeds, clock, matched, r, xml)
        ensures AsksForEvents(h, feeds, clock, matched, r, xml, my)
      {
        var l := Listed(h, feeds);
        FrequencyCountsNodes(l, matched, clock, r, my, xml);
        NodesOnce(h, feeds, |h|);
        StrictImage(Nodes(h, feeds, |h|), Eligible(l, clock, r, my));
      }
    } else {
      var from: RuleId :| feeds(from) > 1;
      OneEventFires(feeds, from, PlainEvent(BARE));
    }
  }
}
