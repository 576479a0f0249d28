/**
 * Matching an event against the rule tree, and the hourly counters that follow it.
 * A rule record may stand at several nodes: its counter is shared by all of them.
 */
module RuleTrees {
  import opened Options
  import opened Filters
  import opened Sums

  type RuleId = nat
  type Path = seq<nat>

  /** passes is the outcome of the node's own conditions for the event at hand. */
  datatype Node = Node(rule: RuleId, passes: bool, children: seq<Node>)

  // ---- What a match is

  /** Every node on the path passes and the last one may alert. */
  ghost predicate Alerting(ns: seq<Node>, noAlert: set<RuleId>, p: Path)
    decreases |p|
  {
    && p != [] && p[0] < |ns| && ns[p[0]].passes
    && if |p| == 1 then ns[p[0]].rule !in noAlert else Alerting(ns[p[0]].children, noAlert, p[1..])
  }

  /** q is met before p: below it, or to its left. */
  ghost predicate Before(q: Path, p: Path)
    decreases |p|
  {
    if p == [] then q != []
    else q != [] && (q[0] < p[0] || (q[0] == p[0] && Before(q[1..], p[1..])))
  }

  /** The path that is met before every other alerting one. */
  ghost predicate FirstAlerting(ns: seq<Node>, noAlert: set<RuleId>, p: Path) {
    Alerting(ns, noAlert, p) && forall q | Alerting(ns, noAlert, q) && q != p :: Before(p, q)
  }

  ghost predicate NoneAlerts(ns: seq<Node>, noAlert: set<RuleId>) {
    forall q :: !Alerting(ns, noAlert, q)
  }

  ghost predicate ValidBelow(n: Node, p: Path)
    decreases |p|
  {
    p == [] || (p[0] < |n.children| && ValidBelow(n.children[p[0]], p[1..]))
  }

  /** The rule at the end of a path that starts below n. */
  ghost function RuleBelow(n: Node, p: Path): RuleId
    requires ValidBelow(n, p)
    decreases |p|
  {
    if p == [] then n.rule else RuleBelow(n.children[p[0]], p[1..])
  }

  lemma {:induction false} PrefixIsValid(n: Node, p: Path, k: nat)
    requires ValidBelow(n, p) && k <= |p|
    ensures ValidBelow(n, p[..k])
    decreases |p|
  {
    if 0 < k {
      PrefixIsValid(n.children[p[0]], p[1..], k - 1);
      assert p[..k][1..] == p[1..][..k - 1];
    }
  }

  /** The node above the end of a path: its immediate parent. */
  ghost function ParentBelow(n: Node, p: Path): RuleId
    requires p != [] && ValidBelow(n, p)
  {
    PrefixIsValid(n, p, |p| - 1);
    RuleBelow(n, p[..|p| - 1])
  }

  /** The recursion of OS_CheckIfRuleMatch: first child that matches, else the rule itself. */
  ghost function MatchNode(n: Node, noAlert: set<RuleId>): Option<Path>
    decreases n, 0
  {
    if !n.passes then None
    else
      match MatchList(n.children, noAlert, 0)
      case Some(p) => Some(p)
      case None => if n.rule in noAlert then None else Some([])
  }

  ghost function MatchList(ns: seq<Node>, noAlert: set<RuleId>, i: nat): Option<Path>
    requires i <= |ns|
    decreases ns, |ns| - i
  {
    if i == |ns| then None
    else
      match MatchNode(ns[i], noAlert)
      case Some(p) => Some([i] + p)
      case None => MatchList(ns, noAlert, i + 1)
  }

  // ---- The recursion finds the first alerting path

  /** Alerting paths of a node, given relative to it. */
  ghost predicate AlertingBelow(n: Node, noAlert: set<RuleId>, p: Path) {
    n.passes && if p == [] then n.rule !in noAlert else Alerting(n.children, noAlert, p)
  }

  lemma AlertingSplit(ns: seq<Node>, noAlert: set<RuleId>, p: Path)
    ensures Alerting(ns, noAlert, p) <==> p != [] && p[0] < |ns| && AlertingBelow(ns[p[0]], noAlert, p[1..])
  {
  }

  lemma {:induction false} MatchNodeFirst(n: Node, noAlert: set<RuleId>)
    ensures match MatchNode(n, noAlert)
      case None => forall q :: !AlertingBelow(n, noAlert, q)
      case Some(p) => AlertingBelow(n, noAlert, p) && forall q | AlertingBelow(n, noAlert, q) && q != p :: Before(p, q)
    decreases n, 0
  {
    if n.passes {
      MatchListFirst(n.children, noAlert, 0);
    }
  }

  lemma {:induction false} MatchListFirst(ns: seq<Node>, noAlert: set<RuleId>, i: nat)
    requires i <= |ns|
    ensures match MatchList(ns, noAlert, i)
      case None => forall q | q != [] && i <= q[0] :: !Alerting(ns, noAlert, q)
      case Some(p) =>
        && Alerting(ns, noAlert, p) && i <= p[0]
        && forall q | Alerting(ns, noAlert, q) && i <= q[0] && q != p :: Before(p, q)
    decreases ns, |ns| - i
  {
    if i < |ns| {
      MatchNodeFirst(ns[i], noAlert);
      match MatchNode(ns[i], noAlert) {
        case Some(p0) =>
          var p := [i] + p0;
          assert p[1..] == p0;
          AlertingSplit(ns, noAlert, p);
          forall q | Alerting(ns, noAlert, q) && i <= q[0] && q != p ensures Before(p, q) {
            AlertingSplit(ns, noAlert, q);
            if q[0] == i {
              assert q == [i] + q[1..];
              assert q[1..] != p0;
            }
          }
        case None =>
          MatchListFirst(ns, noAlert, i + 1);
          forall q | Alerting(ns, noAlert, q) && i <= q[0] ensures i + 1 <= q[0] {
            AlertingSplit(ns, noAlert, q);
          }
      }
    }
  }

  lemma {:induction false} BeforeIsStrict(p: Path, q: Path)
    requires Before(p, q)
    ensures p != q && !Before(q, p)
    decreases |p|
  {
    if p != [] && q != [] && p[0] == q[0] {
      BeforeIsStrict(p[1..], q[1..]);
    }
  }

  /** The match is the alerting path met first; there is none exactly when no path alerts. */
  lemma MatchMeaning(roots: seq<Node>, noAlert: set<RuleId>, p: Path)
    ensures MatchList(roots, noAlert, 0) == Some(p) <==> FirstAlerting(roots, noAlert, p)
    ensures MatchList(roots, noAlert, 0) == None <==> NoneAlerts(roots, noAlert)
  {
    MatchListFirst(roots, noAlert, 0);
    match MatchList(roots, noAlert, 0) {
      case None =>
        forall q ensures !Alerting(roots, noAlert, q) {
          AlertingSplit(roots, noAlert, q);
        }
      case Some(m) =>
        forall q | Alerting(roots, noAlert, q) && q != m ensures Before(m, q) {
          AlertingSplit(roots, noAlert, q);
        }
        assert FirstAlerting(roots, noAlert, m);
        assert !NoneAlerts(roots, noAlert) by {
          assert Alerting(roots, noAlert, m);
        }
        if FirstAlerting(roots, noAlert, p) && p != m {
          assert Before(p, m) && Before(m, p);
          BeforeIsStrict(p, m);
        }
    }
  }

  // ---- The engine with its counters

  ghost function RulesOf(n: Node): set<RuleId>
    decreases n, 0
  {
    {n.rule} + RulesOfAll(n.children)
  }

  ghost function RulesOfAll(ns: seq<Node>): set<RuleId>
    decreases ns, 1
  {
    if ns == [] then {} else RulesOf(ns[0]) + RulesOfAll(ns[1..])
  }

  lemma {:induction false} RulesOfPrefix(ns: seq<Node>, i: nat)
    requires i < |ns|
    ensures RulesOfAll(ns[..i + 1]) == RulesOfAll(ns[..i]) + RulesOf(ns[i])
    ensures RulesOf(ns[i]) <= RulesOfAll(ns)
  {
    if i == 0 {
      assert ns[..1] == [ns[0]] && ns[..1][1..] == [] && ns[..0] == [];
    } else {
      RulesOfPrefix(ns[1..], i - 1);
      assert ns[..i + 1][1..] == ns[1..][..i] && ns[..i][1..] == ns[1..][..i - 1];
    }
  }

  lemma {:induction false} RuleBelowInTree(n: Node, p: Path)
    requires ValidBelow(n, p)
    ensures RuleBelow(n, p) in RulesOf(n)
    decreases |p|
  {
    if p != [] {
      RuleBelowInTree(n.children[p[0]], p[1..]);
      RulesOfPrefix(n.children, p[0]);
    }
  }

  /** The top-level rules with those of another category taken to fail. */
  ghost function Offered(roots: seq<Node>, categories: seq<nat>, kind: nat): (ns: seq<Node>)
    requires |categories| == |roots|
    ensures |ns| == |roots|
    ensures forall i | 0 <= i < |ns| :: ns[i] == if categories[i] == kind then roots[i] else roots[i].(passes := false)
  {
    seq(|roots|, i requires 0 <= i < |roots| =>
      if categories[i] == kind then roots[i] else roots[i].(passes := false))
  }

  datatype Line = Line(rule: RuleId, count: nat)

  ghost function SumLines(log: seq<Line>): nat {
    if log == [] then 0 else log[0].count + SumLines(log[1..])
  }

  lemma {:induction false} SumLinesConcat(a: seq<Line>, b: seq<Line>)
    ensures SumLines(a + b) == SumLines(a) + SumLines(b)
  {
    if a == [] {
      assert a + b == b;
    } else {
      assert (a + b)[1..] == a[1..] + b;
      SumLinesConcat(a[1..], b);
    }
  }

  /** The event fields a match writes. */
  class MatchedEvent {
    var prevRule: Option<RuleId>
    var firedtimes: int

    constructor ()
      ensures prevRule == None && firedtimes == -1
    {
      prevRule, firedtimes := None, -1;
    }
  }

  class RuleEngine {
    const noAlert: set<RuleId>
    const firedtimes: array<nat>   // by rule record
    var hourlyAlerts: nat

    /** Every rule of the tree has its counter. */
    ghost predicate Covers(rules: set<RuleId>) {
      forall r | r in rules :: r < firedtimes.Length
    }

    ghost predicate Conserves()
      reads this, firedtimes
    {
      hourlyAlerts == Sum(firedtimes[..])
    }

    /** Only rules of the tree have fired. */
    ghost predicate FiredWithin(rules: set<RuleId>)
      reads firedtimes
    {
      forall r | 0 <= r < firedtimes.Length && firedtimes[r] != 0 :: r in rules
    }

    constructor (rules: nat, noAlert: set<RuleId>)
      ensures this.noAlert == noAlert && firedtimes.Length == rules && fresh(firedtimes)
      ensures Conserves() && forall r | 0 <= r < rules :: firedtimes[r] == 0
    {
      this.noAlert := noAlert;
      firedtimes := new nat[rules](_ => 0);
      hourlyAlerts := 0;
      new;
      SumZeros(firedtimes[..]);
    }

    /** The effect of a match at the given path below the node: one counter and the total go up. */
    twostate predicate Counted(lf: MatchedEvent, rule: RuleId)
      requires rule < firedtimes.Length
      reads this, firedtimes, lf
    {
      && firedtimes[..] == old(firedtimes[..])[rule := old(firedtimes[rule]) + 1]
      && hourlyAlerts == old(hourlyAlerts) + 1
      && lf.firedtimes == firedtimes[rule]
    }

    method CheckIfRuleMatch(n: Node, lf: MatchedEvent) returns (r: Option<RuleId>, ghost path: Path)
      requires Covers(RulesOf(n))
      modifies this`hourlyAlerts, firedtimes, lf
      ensures r.Some? <==> MatchNode(n, noAlert).Some?
      ensures r == None ==>
        && firedtimes[..] == old(firedtimes[..]) && hourlyAlerts == old(hourlyAlerts)
        && lf.prevRule == old(lf.prevRule) && lf.firedtimes == old(lf.firedtimes)
      ensures r.Some? ==>
        && MatchNode(n, noAlert) == Some(path)
        && ValidBelow(n, path) && r.value == RuleBelow(n, path)
        && r.value < firedtimes.Length && Counted(lf, r.value)
      ensures r.Some? ==>
        && (old(lf.prevRule).Some? || path == [] ==> lf.prevRule == old(lf.prevRule))
        && (old(lf.prevRule) == None && path != [] ==> lf.prevRule == Some(ParentBelow(n, path)))
      ensures old(Conserves()) ==> Conserves()
      decreases n
    {
      path := [];
      if !n.passes {
        return None, path;
      }
      var i := 0;
      while i < |n.children|
        invariant 0 <= i <= |n.children|
        invariant MatchList(n.children, noAlert, 0) == MatchList(n.children, noAlert, i)
        invariant firedtimes[..] == old(firedtimes[..]) && hourlyAlerts == old(hourlyAlerts)
        invariant lf.prevRule == old(lf.prevRule) && lf.firedtimes == old(lf.firedtimes)
      {
        RulesOfPrefix(n.children, i);
        var childRule;
        ghost var p;
        childRule, p := CheckIfRuleMatch(n.children[i], lf);
        if childRule.Some? {
          path := [i] + p;
          ChildPath(n, i, p);
          if lf.prevRule == None {
            lf.prevRule := Some(n.rule);
          }
          return childRule, path;
        }
        i := i + 1;
      }
      if n.rule in noAlert {
        return None, path;
      }
      hourlyAlerts := hourlyAlerts + 1;
      SumUpdate(firedtimes[..], n.rule, firedtimes[n.rule] + 1);
      firedtimes[n.rule] := firedtimes[n.rule] + 1;
      lf.firedtimes := firedtimes[n.rule];
      r := Some(n.rule);
    }

    lemma ChildPath(n: Node, i: nat, p: Path)
      requires i < |n.children| && ValidBelow(n.children[i], p)
      ensures ValidBelow(n, [i] + p)
      ensures RuleBelow(n, [i] + p) == RuleBelow(n.children[i], p)
      ensures ParentBelow(n, [i] + p) == if p == [] then n.rule else ParentBelow(n.children[i], p)
    {
      var q := [i] + p;
      assert q[1..] == p;
      PrefixIsValid(n, q, |p|);
      if p == [] {
        assert q[..|p|] == [];
      } else {
        PrefixIsValid(n.children[i], p, |p| - 1);
        assert q[..|p|][1..] == p[..|p| - 1];
      }
    }

    /** The loop over the top-level rules for one event; those of another category are passed over. */
    method MatchEvent(roots: seq<Node>, categories: seq<nat>, kind: nat, lf: MatchedEvent)
      returns (r: Option<RuleId>, ghost path: Path)
      requires |categories| == |roots|
      requires Covers(RulesOfAll(roots)) && lf.prevRule == None
      requires Conserves() && FiredWithin(RulesOfAll(roots))
      modifies this`hourlyAlerts, firedtimes, lf
      ensures r == None <==> NoneAlerts(Offered(roots, categories, kind), noAlert)
      ensures r == None ==> firedtimes[..] == old(firedtimes[..]) && hourlyAlerts == old(hourlyAlerts)
      ensures r.Some? ==>
        && FirstAlerting(Offered(roots, categories, kind), noAlert, path)
        && path[0] < |roots| && categories[path[0]] == kind && ValidBelow(roots[path[0]], path[1..])
        && r.value == RuleBelow(roots[path[0]], path[1..])
        && r.value < firedtimes.Length && Counted(lf, r.value)
        && lf.prevRule == if |path| == 1 then None else Some(ParentBelow(roots[path[0]], path[1..]))
      ensures Conserves() && FiredWithin(RulesOfAll(roots))
    {
      ghost var offered := Offered(roots, categories, kind);
      path := [];
      var i := 0;
      while i < |roots|
        invariant 0 <= i <= |roots|
        invariant MatchList(offered, noAlert, 0) == MatchList(offered, noAlert, i)
        invariant firedtimes[..] == old(firedtimes[..]) && hourlyAlerts == old(hourlyAlerts)
        invariant lf.prevRule == None
      {
        if categories[i] == kind {
          RulesOfPrefix(roots, i);
          ghost var p;
          ghost var before := firedtimes[..];
          r, p := CheckIfRuleMatch(roots[i], lf);
          if r.Some? {
            path := [i] + p;
            assert path[1..] == p;
            MatchMeaning(offered, noAlert, path);
            RuleBelowInTree(roots[i], p);
            assert firedtimes[..] == before[r.value := before[r.value] + 1];
            return;
          }
        }
        i := i + 1;
      }
      r := None;
      MatchMeaning(offered, noAlert, path);
    }

    /** Print and clear the counters of a subtree; a shared record is printed where it is met first. */
    method LoopRule(n: Node) returns (log: seq<Line>)
      requires Covers(RulesOf(n))
      modifies firedtimes
      ensures Cleared(old(firedtimes[..]), firedtimes[..], RulesOf(n), log)
      decreases n
    {
      ghost var start := firedtimes[..];
      log := [];
      if firedtimes[n.rule] != 0 {
        log := [Line(n.rule, firedtimes[n.rule])];
        SumUpdate(firedtimes[..], n.rule, 0);
        firedtimes[n.rule] := 0;
      }
      var i := 0;
      assert n.children[..0] == [];
      while i < |n.children|
        invariant 0 <= i <= |n.children|
        invariant Cleared(start, firedtimes[..], {n.rule} + RulesOfAll(n.children[..i]), log)
      {
        RulesOfPrefix(n.children, i);
        ghost var middle := firedtimes[..];
        var more := LoopRule(n.children[i]);
        ClearedThen(start, middle, firedtimes[..],
                    {n.rule} + RulesOfAll(n.children[..i]), RulesOf(n.children[i]), log, more);
        assert {n.rule} + RulesOfAll(n.children[..i + 1]) ==
            {n.rule} + RulesOfAll(n.children[..i]) + RulesOf(n.children[i]);
        log := log + more;
        i := i + 1;
      }
      assert n.children[..i] == n.children;
    }

    /** The hourly dump; ok is false when the log directory or file cannot be opened. */
    method DumpLogstats(roots: seq<Node>, ok: bool) returns (log: seq<Line>, total: nat)
      requires Covers(RulesOfAll(roots)) && Conserves() && FiredWithin(RulesOfAll(roots))
      modifies this`hourlyAlerts, firedtimes
      ensures Conserves() && FiredWithin(RulesOfAll(roots))
      ensures !ok ==> log == [] && firedtimes[..] == old(firedtimes[..]) && hourlyAlerts == old(hourlyAlerts)
      ensures ok ==>
        && total == old(hourlyAlerts) == SumLines(log)
        && hourlyAlerts == 0 && (forall r | 0 <= r < firedtimes.Length :: firedtimes[r] == 0)
        && (forall k | 0 <= k < |log| ::
            log[k].rule < firedtimes.Length && 0 < log[k].count == old(firedtimes[log[k].rule]))
        && (forall k, m | 0 <= k < m < |log| :: log[k].rule != log[m].rule)
    {
      log, total := [], 0;
      if !ok {
        return;
      }
      ghost var start := firedtimes[..];
      var i := 0;
      assert roots[..0] == [];
      while i < |roots|
        invariant 0 <= i <= |roots|
        invariant Cleared(start, firedtimes[..], RulesOfAll(roots[..i]), log)
        invariant hourlyAlerts == old(hourlyAlerts)
      {
        RulesOfPrefix(roots, i);
        ghost var middle := firedtimes[..];
        var more := LoopRule(roots[i]);
        ClearedThen(start, middle, firedtimes[..], RulesOfAll(roots[..i]), RulesOf(roots[i]), log, more);
        log := log + more;
        i := i + 1;
      }
      assert roots[..i] == roots;
      assert forall r | 0 <= r < firedtimes.Length :: firedtimes[..][r] == 0;
      SumZeros(firedtimes[..]);
      forall k | 0 <= k < |log| ensures log[k].rule < firedtimes.Length && 0 < log[k].count == start[log[k].rule] {
        assert PrintedFrom(start, RulesOfAll(roots), log[k]);
      }
      total := hourlyAlerts;
      hourlyAlerts := 0;
    }
  }

  /** The counters of the given rules are printed once each and cleared, the others are untouched. */
  ghost predicate Cleared(before: seq<nat>, after: seq<nat>, rules: set<RuleId>, log: seq<Line>) {
    && |after| == |before|
    && (forall r | 0 <= r < |before| :: after[r] == if r in rules then 0 else before[r])
    && SumLines(log) + Sum(after) == Sum(before)
    && (forall k | 0 <= k < |log| :: PrintedFrom(before, rules, log[k]))
    && (forall k, m | 0 <= k < m < |log| :: log[k].rule != log[m].rule)
  }

  ghost predicate PrintedFrom(before: seq<nat>, rules: set<RuleId>, line: Line) {
    line.rule in rules && line.rule < |before| && 0 < line.count == before[line.rule]
  }

  lemma ClearedThen(a: seq<nat>, b: seq<nat>, c: seq<nat>, first: set<RuleId>, second: set<RuleId>, log: seq<Line>,
                    more: seq<Line>)
    requires Cleared(a, b, first, log) && Cleared(b, c, second, more)
    ensures Cleared(a, c, first + second, log + more)
  {
    SumLinesConcat(log, more);
    var all := log + more;
    forall k | 0 <= k < |all| ensures PrintedFrom(a, first + second, all[k]) {
      if |log| <= k {
        assert PrintedFrom(b, second, more[k - |log|]);
      } else {
        assert PrintedFrom(a, first, log[k]);
      }
    }
    forall k, m | 0 <= k < m < |all| ensures all[k].rule != all[m].rule {
      if m < |log| {
      } else if k < |log| {
        assert PrintedFrom(a, first, log[k]) && PrintedFrom(b, second, more[m - |log|]);
      } else {
        assert more[k - |log|].rule != more[m - |log|].rule;
      }
    }
  }

  // ---- Which nodes feed a group list

  /** How many nodes of the tree carry the rule. */
  ghost function Places(n: Node, r: RuleId): nat
    decreases n, 0
  {
    (if n.rule == r then 1 else 0) + PlacesAll(n.children, r)
  }

  ghost function PlacesAll(ns: seq<Node>, r: RuleId): nat
    decreases ns, 1
  {
    if ns == [] then 0 else Places(ns[0], r) + PlacesAll(ns[1..], r)
  }

  lemma {:induction false} PlacesPrefix(ns: seq<Node>, i: nat, r: RuleId)
    requires i < |ns|
    ensures PlacesAll(ns[..i + 1], r) == PlacesAll(ns[..i], r) + Places(ns[i], r)
  {
    if i == 0 {
      assert ns[..1] == [ns[0]] && ns[..1][1..] == [] && ns[..0] == [];
    } else {
      PlacesPrefix(ns[1..], i - 1, r);
      assert ns[..i + 1][1..] == ns[1..][..i] && ns[..i][1..] == ns[1..][..i - 1];
    }
  }

  ghost predicate LeadsTo(n: Node, p: Path, r: RuleId) {
    ValidBelow(n, p) && RuleBelow(n, p) == r
  }

  ghost predicate LeadsToWithin(ns: seq<Node>, i: nat, p: Path, r: RuleId)
    requires i <= |ns|
  {
    p != [] && p[0] < i && LeadsTo(ns[p[0]], p[1..], r)
  }

  /** The places of a rule are the paths that lead to it: as many as are counted. */
  lemma {:induction false} PlacesArePaths(n: Node, r: RuleId) returns (paths: set<Path>)
    ensures forall p :: p in paths <==> LeadsTo(n, p, r)
    ensures |paths| == Places(n, r)
    decreases n, 0
  {
    paths := PlacesWithin(n.children, |n.children|, r);
    assert n.children[..|n.children|] == n.children;
    forall p ensures p in paths <==> p != [] && LeadsTo(n, p, r) {
      if p != [] && ValidBelow(n, p) {
        assert p in paths <==> LeadsTo(n.children[p[0]], p[1..], r);
      }
    }
    if n.rule == r {
      assert [] !in paths;
      paths := paths + {[]};
    }
  }

  lemma {:induction false} PlacesWithin(ns: seq<Node>, i: nat, r: RuleId) returns (paths: set<Path>)
    requires i <= |ns|
    ensures forall p :: p in paths <==> LeadsToWithin(ns, i, p, r)
    ensures |paths| == PlacesAll(ns[..i], r)
    decreases ns, i
  {
    if i == 0 {
      paths := {};
    } else {
      var before := PlacesWithin(ns, i - 1, r);
      var below := PlacesArePaths(ns[i - 1], r);
      var last := Under(i - 1, below);
      PlacesPrefix(ns, i - 1, r);
      paths := before + last;
      forall p ensures p in paths <==> LeadsToWithin(ns, i, p, r) {
        if p != [] && p[0] == i - 1 {
          assert p == [i - 1] + p[1..];
        }
      }
      assert before !! last;
    }
  }

  lemma {:induction false} Under(i: nat, below: set<Path>) returns (paths: set<Path>)
    ensures forall p :: p in paths <==> p != [] && p[0] == i && p[1..] in below
    ensures |paths| == |below|
    decreases below
  {
    if below == {} {
      paths := {};
    } else {
      var q :| q in below;
      var rest := Under(i, below - {q});
      assert ([i] + q)[1..] == q;
      paths := rest + {[i] + q};
      forall p ensures p in paths <==> p != [] && p[0] == i && p[1..] in below {
        if p != [] && p[0] == i {
          assert p == [i] + p[1..];
        }
      }
      assert below == (below - {q}) + {q};
    }
  }

  /** The array group_prev_matched of each rule record. */
  type ListsOfRules = map<RuleId, seq<nat>>

  function ListsOf(m: ListsOfRules, r: RuleId): seq<nat> {
    if r in m then m[r] else []
  }

  /** Each matching rule got the list as often as it stands in the nodes. */
  ghost predicate Marked(before: ListsOfRules, after: ListsOfRules, ns: seq<Node>, matching: set<RuleId>, list: nat) {
    forall r :: MarkedAt(before, after, ns, matching, list, r)
  }

  ghost predicate MarkedAt(before: ListsOfRules, after: ListsOfRules, ns: seq<Node>, matching: set<RuleId>,
                           list: nat, r: RuleId) {
    ListsOf(after, r) == ListsOf(before, r) + if r in matching then Copies(list, PlacesAll(ns, r)) else []
  }

  lemma MarkedThenAt(a: ListsOfRules, b: ListsOfRules, c: ListsOfRules, d: ListsOfRules,
                     ns: seq<Node>, i: nat, matching: set<RuleId>, list: nat, r: RuleId)
    requires i < |ns| && MarkedAt(a, b, ns[..i], matching, list, r)
    requires ListsOf(c, r) == ListsOf(b, r) + if r in matching && r == ns[i].rule then [list] else []
    requires MarkedAt(c, d, ns[i].children, matching, list, r)
    ensures MarkedAt(a, d, ns[..i + 1], matching, list, r)
  {
    PlacesPrefix(ns, i, r);
    if r in matching {
      var own := if ns[i].rule == r then 1 else 0;
      assert ListsOf(c, r) == ListsOf(b, r) + Copies(list, own);
      CopiesAdd(ListsOf(a, r), list, PlacesAll(ns[..i], r), own, PlacesAll(ns[i].children, r));
    }
  }

  lemma MarkedThen(a: ListsOfRules, b: ListsOfRules, c: ListsOfRules, d: ListsOfRules,
                   ns: seq<Node>, i: nat, matching: set<RuleId>, list: nat)
    requires i < |ns| && Marked(a, b, ns[..i], matching, list)
    requires c == if ns[i].rule in matching then b[ns[i].rule := ListsOf(b, ns[i].rule) + [list]] else b
    requires Marked(c, d, ns[i].children, matching, list)
    ensures Marked(a, d, ns[..i + 1], matching, list)
  {
    var done := ns[..i + 1];
    forall r ensures MarkedAt(a, d, done, matching, list, r) {
      var before := ns[..i];
      assert MarkedAt(a, b, before, matching, list, r) && MarkedAt(c, d, ns[i].children, matching, list, r);
      MarkedThenAt(a, b, c, d, ns, i, matching, list, r);
    }
  }

  lemma CopiesAdd(s: seq<nat>, list: nat, x: nat, y: nat, z: nat)
    ensures ((s + Copies(list, x)) + Copies(list, y)) + Copies(list, z) == s + Copies(list, x + y + z)
  {
  }

  class GroupMarker {
    var groupPrevMatched: ListsOfRules

    constructor ()
      ensures groupPrevMatched == map[]
    {
      groupPrevMatched := map[];
    }

    /**
     * OS_MarkGroup appends the list once for every node of a matching rule, so a
     * record that stands at several nodes gets the same list several times.
     */
    method MarkGroup(ns: seq<Node>, matching: set<RuleId>, list: nat)
      modifies this
      ensures Marked(old(groupPrevMatched), groupPrevMatched, ns, matching, list)
      decreases ns
    {
      ghost var start := groupPrevMatched;
      var i := 0;
      assert ns[..0] == [];
      while i < |ns|
        invariant 0 <= i <= |ns|
        invariant Marked(start, groupPrevMatched, ns[..i], matching, list)
      {
        ghost var middle := groupPrevMatched;
        var rule := ns[i].rule;
        if rule in matching {
          groupPrevMatched := groupPrevMatched[rule := ListsOf(groupPrevMatched, rule) + [list]];
        }
        ghost var added := groupPrevMatched;
        MarkGroup(ns[i].children, matching, list);
        MarkedThen(start, middle, added, groupPrevMatched, ns, i, matching, list);
        i := i + 1;
      }
      assert ns[..i] == ns;
    }
  }

  ghost function Copies(x: nat, n: nat): seq<nat> {
    seq(n, _ => x)
  }
}
