/**
 * The backward search of a composite rule over the index list it watches, its
 * meaning without the scan, and the promise that evidence is not used twice.
 */
module RepeatSearch {
  import opened Options
  import opened Filters
  import opened EventObjects

  const MAX_LAST_EVENTS: nat := 11

  // ---- The scan, on values

  /** The reading of the clock when the event at position i is examined is within the timeframe. */
  predicate InTime(l: seq<Event>, clock: seq<int>, r: Rule, i: nat)
    requires i < |l| == |clock|
  {
    clock[|l| - 1 - i] - l[i].generateTime <= r.timeframe
  }

  /** Positions below p that pass the filters, newest first, up to the first one out of time. */
  ghost function Hits(l: seq<Event>, clock: seq<int>, r: Rule, my: Event, p: nat): (hs: seq<nat>)
    requires p <= |l| == |clock|
    ensures InRange(hs, p)
    decreases p
  {
    if p == 0 || !InTime(l, clock, r, p - 1) then []
    else if Passes(r, l[p - 1], my) then [p - 1] + Hits(l, clock, r, my, p - 1)
    else Hits(l, clock, r, my, p - 1)
  }

  ghost predicate InRange(hs: seq<nat>, n: nat) {
    forall k | 0 <= k < |hs| :: hs[k] < n
  }

  /** Enough hits, and none of the newest of them already used by a rule of this level. */
  ghost predicate Fires(hs: seq<nat>, matched: seq<int>, r: Rule)
    requires InRange(hs, |matched|)
  {
    r.frequency < |hs| && forall k | 0 <= k <= r.frequency :: matched[hs[k]] < r.level
  }

  /** How many hits are counted before the scan stops. */
  ghost function Counted(hs: seq<nat>, matched: seq<int>, r: Rule, from: nat): nat
    requires from <= |hs| && InRange(hs, |matched|)
    decreases |hs| - from
  {
    if from == |hs| || r.frequency < from || matched[hs[from]] >= r.level then from
    else Counted(hs, matched, r, from + 1)
  }

  /** The recorded logs: position k is filled by the k-th counted hit unless it was set before. */
  ghost function Logged(before: seq<string>, logs: seq<string>): seq<string> {
    var m := if |logs| < MAX_LAST_EVENTS then |logs| else MAX_LAST_EVENTS;
    if |before| <= m then before + logs[|before|..m] else before
  }

  /** The recorded logs once the first c hits are counted. */
  ghost function LastEvents(before: seq<string>, l: seq<Event>, hs: seq<nat>, c: nat): seq<string>
    requires InRange(hs, |l|) && c <= |hs|
  {
    Logged(before, LogsOf(l, hs, c))
  }

  ghost function AttrsOf(nodes: seq<OSListNode>): (l: seq<Event>)
    ensures |l| == |nodes| && forall i | 0 <= i < |l| :: l[i] == nodes[i].data.attrs
  {
    seq(|nodes|, i requires 0 <= i < |nodes| => nodes[i].data.attrs)
  }

  ghost function MatchedOf(nodes: seq<OSListNode>): (m: seq<int>)
    reads set i | 0 <= i < |nodes| :: nodes[i].data
    ensures |m| == |nodes| && forall i | 0 <= i < |m| :: m[i] == nodes[i].data.matched
  {
    seq(|nodes|, i requires 0 <= i < |nodes| reads set i | 0 <= i < |nodes| :: nodes[i].data => nodes[i].data.matched)
  }

  ghost function LogsOf(l: seq<Event>, hs: seq<nat>, c: nat): (logs: seq<string>)
    requires InRange(hs, |l|) && c <= |hs|
    ensures |logs| == c
  {
    seq(c, k requires 0 <= k < c => l[hs[k]].fullLog)
  }

  /** The array grows by the k-th counted log unless an earlier search already set entry k. */
  method AddLastEvent(my: Eventinfo, k: nat, log: string, ghost before: seq<string>, ghost l: seq<Event>,
                      ghost hs: seq<nat>)
    requires InRange(hs, |l|) && k < |hs| && log == l[hs[k]].fullLog
    requires my.lastEvents == LastEvents(before, l, hs, k)
    modifies my`lastEvents
    ensures my.lastEvents == LastEvents(before, l, hs, k + 1)
    ensures my.lastEvents ==
      if k < MAX_LAST_EVENTS && |old(my.lastEvents)| <= k then old(my.lastEvents) + [log] else old(my.lastEvents)
  {
    assert LogsOf(l, hs, k + 1) == LogsOf(l, hs, k) + [log];
    LoggedStep(before, LogsOf(l, hs, k), log);
    if k <= 10 && |my.lastEvents| <= k {
      my.lastEvents := my.lastEvents + [log];
    }
  }

  /** One turn of the scan: what the event at p - 1 contributes to the remaining hits. */
  lemma HitsStep(l: seq<Event>, matched: seq<int>, clock: seq<int>, r: Rule, my: Event, p: nat, hs: seq<nat>, k: nat)
    requires 0 < p <= |l| == |clock| == |matched| && k <= |hs| && InRange(hs, |matched|)
    requires Hits(l, clock, r, my, p) == hs[k..]
    ensures match Judge(l, matched, clock, r, my, p - 1)
      case OutOfTime => k == |hs|
      case Filtered => Hits(l, clock, r, my, p - 1) == hs[k..]
      case Used => k < |hs| && hs[k] == p - 1 && matched[hs[k]] >= r.level
      case Fresh => k < |hs| && hs[k] == p - 1 && matched[hs[k]] < r.level
                    && Hits(l, clock, r, my, p - 1) == hs[k + 1..]
  {
    if InTime(l, clock, r, p - 1) && Passes(r, l[p - 1], my) {
      assert hs[k..][0] == p - 1;
      assert hs[k..][1..] == hs[k + 1..];
    }
  }

  /** The first c hits are fresh, and c is the number asked for, or of all hits, or the next hit is used. */
  ghost predicate CountedUpTo(hs: seq<nat>, matched: seq<int>, r: Rule, c: nat)
    requires InRange(hs, |matched|)
  {
    && c <= |hs| && c <= r.frequency + 1 && AllFresh(hs, matched, r, c)
    && (c == |hs| || c == r.frequency + 1 || matched[hs[c]] >= r.level)
  }

  /**
   * Entries that were there stay; up to the eleventh, entry k is the log of the k-th hit, as far as hits were
   * counted; and nothing else is added.
   */
  ghost predicate Recorded(nodes: seq<OSListNode>, hs: seq<nat>, c: nat, before: seq<string>, after: seq<string>)
    requires InRange(hs, |nodes|) && c <= |hs|
  {
    && before <= after
    && |after| == Larger(|before|, if c < MAX_LAST_EVENTS then c else MAX_LAST_EVENTS)
    && forall k | |before| <= k < |after| :: after[k] == nodes[hs[k]].data.attrs.fullLog
  }

  function Larger(a: nat, b: nat): nat {
    if a < b then b else a
  }

  lemma RecordedMeans(nodes: seq<OSListNode>, hs: seq<nat>, c: nat, before: seq<string>)
    requires InRange(hs, |nodes|) && c <= |hs|
    ensures Recorded(nodes, hs, c, before, LastEvents(before, AttrsOf(nodes), hs, c))
  {
  }

  lemma {:induction false} CountedMeans(hs: seq<nat>, matched: seq<int>, r: Rule, from: nat)
    requires from <= |hs| && from <= r.frequency + 1 && InRange(hs, |matched|) && AllFresh(hs, matched, r, from)
    ensures CountedUpTo(hs, matched, r, Counted(hs, matched, r, from))
    decreases |hs| - from
  {
    if !(from == |hs| || r.frequency < from || matched[hs[from]] >= r.level) {
      CountedMeans(hs, matched, r, from + 1);
    }
  }

  /** Search_LastSids and Search_LastGroups: the two differ only in the list they scan. */
  method SearchLast(nodes: seq<OSListNode>, my: Eventinfo, rule: Rule, clock: seq<int>)
    returns (found: Eventinfo?)
    requires |clock| == |nodes|
    modifies my`matched, my`lastEvents, (set i | 0 <= i < |nodes| :: nodes[i].data)`matched
    ensures var hs := Hits(AttrsOf(nodes), clock, rule, my.attrs, |nodes|);
      var matched := old(MatchedOf(nodes));
      var c := Counted(hs, matched, rule, 0);
      && CountedUpTo(hs, matched, rule, c)
      && Recorded(nodes, hs, c, old(my.lastEvents), my.lastEvents)
      && my.lastEvents == LastEvents(old(my.lastEvents), AttrsOf(nodes), hs, c)
      && if Fires(hs, matched, rule) then
           && found == nodes[hs[rule.frequency]].data
           && my.matched == rule.level
           && forall i | 0 <= i < |nodes| :: nodes[i].data.matched ==
                if nodes[i].data == my || (0 < rule.frequency && nodes[i].data == nodes[hs[0]].data)
                then rule.level else matched[i]
         else
           found == null && my.matched == old(my.matched) && MatchedOf(nodes) == matched
  {
    ghost var l := AttrsOf(nodes);
    ghost var matched := MatchedOf(nodes);
    ghost var hs := Hits(l, clock, rule, my.attrs, |nodes|);
    var firstMatched: Eventinfo?;
    found, firstMatched := Scan(nodes, my, rule, clock, l, matched, hs);
    CountedMeans(hs, matched, rule, 0);
    RecordedMeans(nodes, hs, Counted(hs, matched, rule, 0), old(my.lastEvents));
    if found != null {
      my.matched := rule.level;
      if firstMatched != null {
        firstMatched.matched := rule.level;
      }
    }
  }

  /** What the checks of one turn say about an earlier event. */
  datatype Verdict = OutOfTime | Filtered | Used | Fresh

  ghost function Judge(l: seq<Event>, matched: seq<int>, clock: seq<int>, r: Rule, my: Event, i: nat): Verdict
    requires i < |l| == |clock| == |matched|
  {
    if !InTime(l, clock, r, i) then OutOfTime
    else if !Passes(r, l[i], my) then Filtered
    else if matched[i] >= r.level then Used
    else Fresh
  }

  method Examine(lf: Eventinfo, my: Event, rule: Rule, currentTime: int,
                 ghost l: seq<Event>, ghost matched: seq<int>, ghost clock: seq<int>, ghost i: nat)
    returns (v: Verdict)
    requires i < |l| == |clock| == |matched|
    requires l[i] == lf.attrs && matched[i] == lf.matched && currentTime == clock[|l| - 1 - i]
    ensures v == Judge(l, matched, clock, rule, my, i)
  {
    if currentTime - lf.attrs.generateTime > rule.timeframe {
      return OutOfTime;
    }
    var pass := CheckFilters(rule, lf.attrs, my);
    if !pass {
      return Filtered;
    }
    v := if lf.matched >= rule.level then Used else Fresh;
  }

  /** The loop of the search: counts, records logs, and stops. */
  method Scan(nodes: seq<OSListNode>, my: Eventinfo, rule: Rule, clock: seq<int>,
              ghost l: seq<Event>, ghost matched: seq<int>, ghost hs: seq<nat>)
    returns (found: Eventinfo?, firstMatched: Eventinfo?)
    requires |clock| == |nodes| == |l| == |matched|
    requires forall i | 0 <= i < |nodes| :: l[i] == nodes[i].data.attrs && matched[i] == nodes[i].data.matched
    requires hs == Hits(l, clock, rule, my.attrs, |nodes|)
    modifies my`lastEvents
    ensures Counted(hs, matched, rule, 0) <= |hs|
    ensures my.lastEvents == LastEvents(old(my.lastEvents), l, hs, Counted(hs, matched, rule, 0))
    ensures Fires(hs, matched, rule) ==>
      && found == nodes[hs[rule.frequency]].data
      && firstMatched == if rule.frequency == 0 then null else nodes[hs[0]].data
    ensures !Fires(hs, matched, rule) ==> found == null
  {
    ghost var before := my.lastEvents;
    LastEvents0(before, l, hs);
    hide Judge, Passes, InTime, LastEvents, Logged;
    var frequencyCount: nat := 0;
    CountedBound(hs, matched, rule, 0);
    found, firstMatched := null, null;
    var p := |nodes|;
    while 0 < p
      invariant 0 <= p <= |nodes|
      invariant frequencyCount <= rule.frequency && frequencyCount <= |hs|
      invariant Hits(l, clock, rule, my.attrs, p) == hs[frequencyCount..]
      invariant AllFresh(hs, matched, rule, frequencyCount)
      invariant Counted(hs, matched, rule, frequencyCount) == Counted(hs, matched, rule, 0)
      invariant firstMatched == if frequencyCount == 0 then null else nodes[hs[0]].data
      invariant my.lastEvents == LastEvents(before, l, hs, frequencyCount)
    {
      var lf := nodes[p - 1].data;
      var v := Examine(lf, my.attrs, rule, clock[|nodes| - p], l, matched, clock, p - 1);
      HitsStep(l, matched, clock, rule, my.attrs, p, hs, frequencyCount);
      if v == OutOfTime || v == Used {
        Stopped(hs, matched, rule, frequencyCount);
        return null, firstMatched;
      }
      if v == Fresh {
        FreshOne(hs, matched, rule, frequencyCount);
        AddLastEvent(my, frequencyCount, lf.attrs.fullLog, before, l, hs);
        if frequencyCount == rule.frequency {
          return lf, firstMatched;
        }
        frequencyCount := frequencyCount + 1;
        if firstMatched == null {
          firstMatched := lf;
        }
      }
      p := p - 1;
    }
    Stopped(hs, matched, rule, frequencyCount);
  }

  lemma LastEvents0(before: seq<string>, l: seq<Event>, hs: seq<nat>)
    requires InRange(hs, |l|)
    ensures LastEvents(before, l, hs, 0) == before
  {
  }

  ghost predicate AllFresh(hs: seq<nat>, matched: seq<int>, r: Rule, k: nat)
    requires InRange(hs, |matched|) && k <= |hs|
  {
    forall j | 0 <= j < k :: matched[hs[j]] < r.level
  }

  lemma Stopped(hs: seq<nat>, matched: seq<int>, r: Rule, k: nat)
    requires InRange(hs, |matched|) && k <= |hs| && k <= r.frequency
    requires k < |hs| ==> matched[hs[k]] >= r.level
    ensures !Fires(hs, matched, r) && Counted(hs, matched, r, k) == k
  {
  }

  lemma FreshOne(hs: seq<nat>, matched: seq<int>, r: Rule, k: nat)
    requires InRange(hs, |matched|) && k < |hs| && k <= r.frequency && matched[hs[k]] < r.level
    requires AllFresh(hs, matched, r, k)
    ensures Counted(hs, matched, r, k) == Counted(hs, matched, r, k + 1)
    ensures AllFresh(hs, matched, r, k + 1)
    ensures k == r.frequency ==> Counted(hs, matched, r, k) == k + 1 && Fires(hs, matched, r)
  {
  }

  lemma {:induction false} CountedBound(hs: seq<nat>, matched: seq<int>, r: Rule, from: nat)
    requires from <= |hs| && InRange(hs, |matched|)
    ensures from <= Counted(hs, matched, r, from) <= |hs|
    decreases |hs| - from
  {
    if !(from == |hs| || r.frequency < from || matched[hs[from]] >= r.level) {
      CountedBound(hs, matched, r, from + 1);
    }
  }

  lemma LoggedStep(before: seq<string>, logs: seq<string>, log: string)
    ensures Logged(before, logs + [log]) ==
      if |logs| < MAX_LAST_EVENTS && |Logged(before, logs)| <= |logs| then Logged(before, logs) + [log]
      else Logged(before, logs)
  {
    if |logs| < MAX_LAST_EVENTS && |before| <= |logs| {
      assert (logs + [log])[|before|..|logs| + 1] == logs[|before|..] + [log];
    }
  }
}
