/** What a search decides, said without scanning. */
module SearchMeaning {
  import opened Options
  import opened Filters
  import opened EventObjects
  import opened RepeatSearch

  ghost predicate Ordered(l: seq<Event>) {
    forall i, j | 0 <= i <= j < |l| :: l[i].generateTime <= l[j].generateTime
  }

  ghost predicate Monotone(clock: seq<int>) {
    forall i, j | 0 <= i <= j < |clock| :: clock[i] <= clock[j]
  }

  /** All positions whose event is within the timeframe and passes the filters. */
  ghost function Eligible(l: seq<Event>, clock: seq<int>, r: Rule, my: Event): set<nat>
    requires |l| == |clock|
  {
    set i: nat | i < |l| && clock[|l| - 1 - i] - l[i].generateTime <= r.timeframe && Passes(r, l[i], my)
  }

  /** How many members of q are newer than position i. */
  ghost function Newer(q: set<nat>, i: nat): nat {
    |NewerThan(q, i)|
  }

  ghost function NewerThan(q: set<nat>, i: nat): set<nat> {
    set j | j in q && i < j
  }

  ghost predicate Descending(hs: seq<nat>) {
    forall k, m | 0 <= k < m < |hs| :: hs[m] < hs[k]
  }

  lemma {:induction false} HitsSound(l: seq<Event>, clock: seq<int>, r: Rule, my: Event, p: nat)
    requires p <= |l| == |clock|
    ensures var hs := Hits(l, clock, r, my, p);
      && Descending(hs)
      && forall k | 0 <= k < |hs| :: hs[k] < p && InTime(l, clock, r, hs[k]) && Passes(r, l[hs[k]], my)
  {
    if p != 0 && InTime(l, clock, r, p - 1) {
      HitsSound(l, clock, r, my, p - 1);
    }
  }

  /** The scan reached every position from a hit upwards. */
  lemma {:induction false} HitsReach(l: seq<Event>, clock: seq<int>, r: Rule, my: Event, p: nat, i: nat, j: nat)
    requires p <= |l| == |clock|
    requires i in Hits(l, clock, r, my, p) && i <= j < p
    ensures InTime(l, clock, r, j)
    ensures Passes(r, l[j], my) ==> j in Hits(l, clock, r, my, p)
  {
    if j < p - 1 {
      HitsSound(l, clock, r, my, p - 1);
      HitsReach(l, clock, r, my, p - 1, i, j);
    }
  }

  lemma {:induction false} HitsComplete(l: seq<Event>, clock: seq<int>, r: Rule, my: Event, p: nat, i: nat)
    requires i < p <= |l| == |clock|
    requires Ordered(l) && Monotone(clock)
    requires InTime(l, clock, r, i) && Passes(r, l[i], my)
    ensures i in Hits(l, clock, r, my, p)
  {
    assert InTime(l, clock, r, p - 1) by {
      assert l[i].generateTime <= l[p - 1].generateTime && clock[|l| - p] <= clock[|l| - 1 - i];
    }
    if i < p - 1 {
      HitsComplete(l, clock, r, my, p - 1, i);
    }
  }

  ghost function Elements(hs: seq<nat>): set<nat> {
    set x | x in hs
  }

  lemma {:induction false} DescendingSize(hs: seq<nat>)
    requires Descending(hs)
    ensures |Elements(hs)| == |hs|
  {
    if hs != [] {
      DescendingSize(hs[1..]);
      assert Elements(hs) == {hs[0]} + Elements(hs[1..]);
      assert hs[0] !in Elements(hs[1..]);
    }
  }

  /** In a descending sequence the k-th element has exactly k newer ones. */
  lemma Rank(hs: seq<nat>, k: nat)
    requires Descending(hs) && k < |hs|
    ensures Newer(Elements(hs), hs[k]) == k
  {
    var newer := NewerThan(Elements(hs), hs[k]);
    assert newer == Elements(hs[..k]) by {
      forall x | x in Elements(hs[..k]) ensures x in newer {
        var m :| 0 <= m < k && hs[..k][m] == x;
        assert hs[m] == x;
      }
      forall x | x in newer ensures x in Elements(hs[..k]) {
        var m :| 0 <= m < |hs| && hs[m] == x;
        assert m < k;
        assert hs[..k][m] == x;
      }
    }
    DescendingSize(hs[..k]);
  }

  lemma HitsAreEligible(l: seq<Event>, clock: seq<int>, r: Rule, my: Event)
    requires |l| == |clock| && Ordered(l) && Monotone(clock)
    ensures Elements(Hits(l, clock, r, my, |l|)) == Eligible(l, clock, r, my)
  {
    HitsSound(l, clock, r, my, |l|);
    var hs := Hits(l, clock, r, my, |l|);
    forall i | i in Eligible(l, clock, r, my) ensures i in Elements(hs) {
      HitsComplete(l, clock, r, my, |l|, i);
    }
    forall i | i in Elements(hs) ensures i in Eligible(l, clock, r, my) {
      var k :| 0 <= k < |hs| && hs[k] == i;
    }
    assert Elements(hs) == Eligible(l, clock, r, my);
  }

  /** More than frequency members, and none of the newest frequency + 1 already used. */
  ghost predicate EnoughFresh(q: set<nat>, matched: seq<int>, r: Rule)
    requires forall i | i in q :: i < |matched|
  {
    r.frequency < |q| && forall i | i in q && Newer(q, i) <= r.frequency :: matched[i] < r.level
  }

  lemma FiresIsEnoughFresh(hs: seq<nat>, matched: seq<int>, r: Rule)
    requires Descending(hs) && InRange(hs, |matched|)
    ensures Fires(hs, matched, r) <==> EnoughFresh(Elements(hs), matched, r)
  {
    var q := Elements(hs);
    DescendingSize(hs);
    if Fires(hs, matched, r) {
      forall i | i in q && Newer(q, i) <= r.frequency ensures matched[i] < r.level {
        var k :| 0 <= k < |hs| && hs[k] == i;
        Rank(hs, k);
      }
    }
    if EnoughFresh(q, matched, r) {
      forall k | 0 <= k <= r.frequency ensures matched[hs[k]] < r.level {
        Rank(hs, k);
        assert hs[k] in q;
      }
    }
  }

  /**
   * Over a list in order of generation, a search succeeds exactly when more than
   * frequency events are eligible and none of the newest frequency + 1 of them was
   * used by a rule of this level; its result is the oldest of those.
   */
  lemma SearchDecides(l: seq<Event>, matched: seq<int>, clock: seq<int>, r: Rule, my: Event)
    requires |l| == |clock| == |matched| && Ordered(l) && Monotone(clock)
    ensures var hs := Hits(l, clock, r, my, |l|);
      var q := Eligible(l, clock, r, my);
      && (Fires(hs, matched, r) <==> EnoughFresh(q, matched, r))
      && (Fires(hs, matched, r) ==>
            && hs[r.frequency] in q && Newer(q, hs[r.frequency]) == r.frequency
            && hs[0] in q && Newer(q, hs[0]) == 0)
  {
    var hs := Hits(l, clock, r, my, |l|);
    HitsSound(l, clock, r, my, |l|);
    HitsAreEligible(l, clock, r, my);
    FiresIsEnoughFresh(hs, matched, r);
    if Fires(hs, matched, r) {
      Rank(hs, r.frequency);
      Rank(hs, 0);
    }
  }

  /** The hit of rank k is the eligible event with exactly k newer ones. */
  lemma HitOfRank(hs: seq<nat>, i: nat)
    requires Descending(hs) && i in Elements(hs)
    ensures var k := Newer(Elements(hs), i); k < |hs| && hs[k] == i
  {
    var k :| 0 <= k < |hs| && hs[k] == i;
    Rank(hs, k);
  }

  /** Over an ordered list a search counts the newest eligible events, up to the first used one or as many as asked. */
  lemma CountsNewest(l: seq<Event>, matched: seq<int>, clock: seq<int>, r: Rule, my: Event, c: nat)
    requires |l| == |clock| == |matched| && Ordered(l) && Monotone(clock)
    requires CountedUpTo(Hits(l, clock, r, my, |l|), matched, r, c)
    ensures var q := Eligible(l, clock, r, my);
      && c <= |q| && c <= r.frequency + 1
      && (forall i | i in q && Newer(q, i) < c :: matched[i] < r.level)
      && (c == |q| || c == r.frequency + 1 || exists i :: i in q && Newer(q, i) == c && matched[i] >= r.level)
  {
    var hs, q := Hits(l, clock, r, my, |l|), Eligible(l, clock, r, my);
    HitsSound(l, clock, r, my, |l|);
    HitsAreEligible(l, clock, r, my);
    DescendingSize(hs);
    hide Hits, Passes, InTime, Eligible, Newer;
    forall i | i in q && Newer(q, i) < c ensures matched[i] < r.level {
      HitOfRank(hs, i);
    }
    if c < |hs| {
      Rank(hs, c);
      assert hs[c] in q;
    }
  }

  /** Entry k of the recorded logs, unless it was set before, is the log of the eligible event with k newer ones. */
  lemma RecordsNewest(nodes: seq<OSListNode>, clock: seq<int>, r: Rule, my: Event, c: nat,
                      before: seq<string>, after: seq<string>, i: nat)
    requires |nodes| == |clock| && Ordered(AttrsOf(nodes)) && Monotone(clock)
    requires var hs := Hits(AttrsOf(nodes), clock, r, my, |nodes|); c <= |hs| && Recorded(nodes, hs, c, before, after)
    requires var q := Eligible(AttrsOf(nodes), clock, r, my); i in q && |before| <= Newer(q, i) < c
    requires Newer(Eligible(AttrsOf(nodes), clock, r, my), i) < MAX_LAST_EVENTS
    ensures var k := Newer(Eligible(AttrsOf(nodes), clock, r, my), i);
      k < |after| && after[k] == nodes[i].data.attrs.fullLog
  {
    var l := AttrsOf(nodes);
    HitsSound(l, clock, r, my, |l|);
    HitsAreEligible(l, clock, r, my);
    hide Hits, Passes, InTime, Eligible, Newer;
    HitOfRank(Hits(l, clock, r, my, |l|), i);
  }

  /** How the frequency attribute of a rule is stored: values outside 2..9999 are rejected. */
  function StoredFrequency(xml: int): Option<nat> {
    if 2 <= xml <= 9999 then Some(xml - 2) else None
  }

  /** Frequency n in the rule file asks for n - 1 eligible nodes of the list, besides the current event. */
  lemma FrequencyCountsNodes(l: seq<Event>, matched: seq<int>, clock: seq<int>, r: Rule, my: Event, xml: int)
    requires |l| == |clock| == |matched| && Ordered(l) && Monotone(clock)
    requires StoredFrequency(xml) == Some(r.frequency)
    requires forall i | 0 <= i < |l| :: matched[i] < r.level
    ensures Fires(Hits(l, clock, r, my, |l|), matched, r) <==> xml <= |Eligible(l, clock, r, my)| + 1
  {
    SearchDecides(l, matched, clock, r, my);
  }
}
