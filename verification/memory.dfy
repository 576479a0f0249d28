/**
 * The correlation memory: every alerting event goes to the global event list and
 * to the index lists its rule feeds; an evicted event leaves all of them.
 */
module CorrelationMemory {
  import opened Options
  import opened Filters
  import opened EventObjects
  import opened EventLists
  import RuleTrees

  type ListId = nat

  /** The lists of one rule: its own (sid_prev_matched) or the group lists it feeds. */
  datatype RuleLists = RuleLists(sid: Option<ListId>, groups: seq<ListId>)

  type Rules = map<RuleId, RuleLists>
  type Index = map<ListId, seq<OSListNode>>

  function ListsOf(rules: Rules, r: RuleId): RuleLists {
    if r in rules then rules[r] else RuleLists(None, [])
  }

  function Count(s: seq<ListId>, l: ListId): nat {
    if s == [] then 0 else (if s[0] == l then 1 else 0) + Count(s[1..], l)
  }

  /** How often an event of the rule is put into the list. */
  function Times(rules: Rules, r: RuleId, l: ListId): nat {
    var ls := ListsOf(rules, r);
    if ls.sid.Some? then (if ls.sid.value == l then 1 else 0) else Count(ls.groups, l)
  }

  function Repeat(e: Eventinfo, n: nat): (s: seq<Eventinfo>)
    ensures |s| == n && forall i | 0 <= i < n :: s[i] == e
  {
    seq(n, _ => e)
  }

  /** What an index list should hold for these events, oldest first. */
  ghost function Indexed(events: seq<Eventinfo>, rules: Rules, l: ListId): seq<Eventinfo> {
    if events == [] then []
    else Repeat(events[0], Times(rules, events[0].generatedRule, l)) + Indexed(events[1..], rules, l)
  }

  ghost function DataOf(nodes: seq<OSListNode>): (s: seq<Eventinfo>)
    ensures |s| == |nodes| && forall i | 0 <= i < |s| :: s[i] == nodes[i].data
  {
    seq(|nodes|, i requires 0 <= i < |nodes| => nodes[i].data)
  }

  // ---- Indexed, as events come and go

  lemma {:induction false} IndexedConcat(a: seq<Eventinfo>, b: seq<Eventinfo>, rules: Rules, l: ListId)
    ensures Indexed(a + b, rules, l) == Indexed(a, rules, l) + Indexed(b, rules, l)
  {
    if a == [] {
      assert a + b == b;
    } else {
      assert (a + b)[1..] == a[1..] + b;
      IndexedConcat(a[1..], b, rules, l);
    }
  }

  lemma IndexedOne(e: Eventinfo, rules: Rules, l: ListId)
    ensures Indexed([e], rules, l) == Repeat(e, Times(rules, e.generatedRule, l))
  {
  }

  lemma {:induction false} IndexedOnly(events: seq<Eventinfo>, rules: Rules, l: ListId, e: Eventinfo)
    requires e !in events
    ensures e !in Indexed(events, rules, l)
  {
    if events != [] {
      IndexedOnly(events[1..], rules, l, e);
    }
  }

  /** Dropping the oldest events drops a front part of every list. */
  lemma IndexedSuffix(events: seq<Eventinfo>, k: nat, rules: Rules, l: ListId) returns (d: nat)
    requires k <= |events|
    ensures d <= |Indexed(events, rules, l)| && Indexed(events[k..], rules, l) == Indexed(events, rules, l)[d..]
  {
    assert events == events[..k] + events[k..];
    IndexedConcat(events[..k], events[k..], rules, l);
    d := |Indexed(events[..k], rules, l)|;
  }

  /** One store step, seen from one list: append what the event contributes, then drop oldest entries. */
  lemma StoreIsAppendThenDrop(events: seq<Eventinfo>, lf: Eventinfo, k: nat, rules: Rules, l: ListId) returns (d: nat)
    requires k <= |events| + 1
    ensures var appended := Indexed(events, rules, l) + Repeat(lf, Times(rules, lf.generatedRule, l));
      d <= |appended| && Indexed((events + [lf])[k..], rules, l) == appended[d..]
  {
    IndexedConcat(events, [lf], rules, l);
    IndexedOne(lf, rules, l);
    d := IndexedSuffix(events + [lf], k, rules, l);
  }

  // ---- When the lists are plain filters of the history

  /** The events whose rule feeds the list, each once. */
  ghost function Feeding(events: seq<Eventinfo>, rules: Rules, l: ListId): seq<Eventinfo> {
    if events == [] then []
    else (if 0 < Times(rules, events[0].generatedRule, l) then [events[0]] else []) + Feeding(events[1..], rules, l)
  }

  lemma {:induction false} IndexedLonger(events: seq<Eventinfo>, rules: Rules, l: ListId)
    ensures |Feeding(events, rules, l)| <= |Indexed(events, rules, l)|
  {
    if events != [] {
      IndexedLonger(events[1..], rules, l);
    }
  }

  /** An index list is the filtered history exactly when no listed event's rule names the list twice. */
  lemma {:induction false} IndexedIsFilterExactly(events: seq<Eventinfo>, rules: Rules, l: ListId)
    ensures Indexed(events, rules, l) == Feeding(events, rules, l)
            <==> forall e | e in events :: Times(rules, e.generatedRule, l) <= 1
  {
    if events != [] {
      var e, rest := events[0], events[1..];
      IndexedLonger(rest, rules, l);
      IndexedIsFilterExactly(rest, rules, l);
      assert events == [e] + rest;
      var n := Times(rules, e.generatedRule, l);
      if n <= 1 {
        var head := Repeat(e, n);
        assert head == if 0 < n then [e] else [];
        assert Indexed(events, rules, l)[n..] == Indexed(rest, rules, l);
        assert Feeding(events, rules, l)[n..] == Feeding(rest, rules, l);
      } else {
        assert |Feeding(events, rules, l)| < |Indexed(events, rules, l)|;
      }
    }
  }

  lemma {:induction false} CountConcat(a: seq<ListId>, b: seq<ListId>, l: ListId)
    ensures Count(a + b, l) == Count(a, l) + Count(b, l)
  {
    if a == [] {
      assert a + b == b;
    } else {
      assert (a + b)[1..] == a[1..] + b;
      CountConcat(a[1..], b, l);
    }
  }

  lemma {:induction false} CountCopies(l: ListId, n: nat)
    ensures Count(RuleTrees.Copies(l, n), l) == n
  {
    if n != 0 {
      assert RuleTrees.Copies(l, n)[1..] == RuleTrees.Copies(l, n - 1);
      CountCopies(l, n - 1);
    }
  }

  /** After marking, a rule feeds the list once for every node of the tree it stands at. */
  lemma FeedsOncePerNode(before: RuleTrees.ListsOfRules, after: RuleTrees.ListsOfRules, tree: seq<RuleTrees.Node>,
                         matching: set<RuleId>, l: ListId, r: RuleId)
    requires RuleTrees.Marked(before, after, tree, matching, l) && r in matching
    requires Count(RuleTrees.ListsOf(before, r), l) == 0
    ensures Times(map[r := RuleLists(None, RuleTrees.ListsOf(after, r))], r, l) == RuleTrees.PlacesAll(tree, r)
  {
    assert RuleTrees.MarkedAt(before, after, tree, matching, l, r);
    CountConcat(RuleTrees.ListsOf(before, r), RuleTrees.Copies(l, RuleTrees.PlacesAll(tree, r)), l);
    CountCopies(l, RuleTrees.PlacesAll(tree, r));
  }

  // ---- The index lists

  ghost predicate Distinct(nodes: seq<OSListNode>) {
    forall i, j | 0 <= i < j < |nodes| :: nodes[i] != nodes[j]
  }

  /** OSList_DeleteThisNode: the list without that node. */
  function Without(nodes: seq<OSListNode>, node: OSListNode): seq<OSListNode> {
    if nodes == [] then []
    else if nodes[0] == node then nodes[1..]
    else [nodes[0]] + Without(nodes[1..], node)
  }

  lemma {:induction false} WithoutNode(nodes: seq<OSListNode>, node: OSListNode)
    requires Distinct(nodes)
    ensures Distinct(Without(nodes, node))
    ensures forall n :: n in Without(nodes, node) <==> n in nodes && n != node
  {
    if nodes != [] && nodes[0] != node {
      WithoutNode(nodes[1..], node);
      assert nodes == [nodes[0]] + nodes[1..];
      assert nodes[0] !in nodes[1..];
    } else if nodes != [] {
      assert nodes == [node] + nodes[1..];
    }
  }

  lemma {:induction false} WithoutAt(nodes: seq<OSListNode>, node: OSListNode) returns (k: nat)
    requires node in nodes
    ensures k < |nodes| && nodes[k] == node && Without(nodes, node) == nodes[..k] + nodes[k + 1..]
  {
    if nodes[0] == node {
      k := 0;
    } else {
      var j := WithoutAt(nodes[1..], node);
      k := j + 1;
      assert nodes[..k] == [nodes[0]] + nodes[1..][..j] && nodes[k + 1..] == nodes[1..][j + 1..];
    }
  }

  /** Deleting any node of the oldest event shortens that event's part of the list. */
  lemma WithoutData(nodes: seq<OSListNode>, node: OSListNode, e: Eventinfo, m: nat, rest: seq<Eventinfo>)
    requires DataOf(nodes) == Repeat(e, m) + rest && e !in rest
    requires node in nodes && node.data == e
    ensures 0 < m && DataOf(Without(nodes, node)) == Repeat(e, m - 1) + rest
  {
    var k := WithoutAt(nodes, node);
    var data := DataOf(nodes);
    assert data[k] == e;
    InRepeat(e, m, k, rest);
    RepeatWithout(e, m, k, rest);
    DataOfWithout(nodes, k);
  }

  lemma DataOfWithout(nodes: seq<OSListNode>, k: nat)
    requires k < |nodes|
    ensures DataOf(nodes[..k] + nodes[k + 1..]) == DataOf(nodes)[..k] + DataOf(nodes)[k + 1..]
  {
  }

  lemma InRepeat(e: Eventinfo, m: nat, k: nat, rest: seq<Eventinfo>)
    requires k < m + |rest| && (Repeat(e, m) + rest)[k] == e && e !in rest
    ensures k < m
  {
  }

  lemma RepeatWithout(e: Eventinfo, m: nat, k: nat, rest: seq<Eventinfo>)
    requires k < m
    ensures var s := Repeat(e, m) + rest; s[..k] + s[k + 1..] == Repeat(e, m - 1) + rest
  {
  }

  // ---- The memory

  /** The handles saved in a listed event point at its own nodes in the lists it feeds. */
  ghost predicate HandlesOk(e: Eventinfo, rules: Rules, index: Index)
    reads e`sidNodeToDelete, e`groupNodeToDelete
  {
    var ls := ListsOf(rules, e.generatedRule);
    if ls.sid.Some? then
      && e.sidNodeToDelete != null && e.sidNodeToDelete.data == e
      && ls.sid.value in index && e.sidNodeToDelete in index[ls.sid.value]
    else
      && e.sidNodeToDelete == null
      && GroupHandlesOk(e, ls.groups, e.groupNodeToDelete, index)
  }

  ghost predicate GroupHandlesOk(e: Eventinfo, groups: seq<ListId>, nodes: seq<OSListNode>, index: Index) {
    && |nodes| == |groups|
    && Distinct(nodes)
    && forall j | 0 <= j < |groups| ::
         nodes[j].data == e && groups[j] in index && nodes[j] in index[groups[j]]
  }

  ghost predicate Agrees(index: Index, events: seq<Eventinfo>, rules: Rules) {
    forall l | l in index :: Distinct(index[l]) && DataOf(index[l]) == Indexed(events, rules, l)
  }

  class Memory {
    const rules: Rules
    const list: EventList
    var index: Index

    ghost predicate Valid()
      reads this, list, list.Repr, list.Nodes, list.Contents
    {
      && list.Valid()
      && Unique(list.Contents)
      && HasLists(rules, index)
      && Agrees(index, list.Contents, rules)
      && forall e | e in list.Contents :: HandlesOk(e, rules, index)
    }

    constructor (rules: Rules, maxsize: int, maxFreq: int)
      ensures Valid() && list.Contents == [] && this.rules == rules && fresh(list)
    {
      this.rules := rules;
      list := new EventList(maxsize, maxFreq);
      index := map l | l in AllLists(rules) :: [];
    }

    /** The store step of an alerting event, with everything its eviction frees. */
    method Store(lf: Eventinfo) returns (evicted: seq<Eventinfo>)
      requires Valid() && lf !in list.Contents
      requires lf.sidNodeToDelete == null && lf.groupNodeToDelete == []
      modifies this`index, list, list.Repr, lf`node, lf`sidNodeToDelete, lf`groupNodeToDelete
      ensures Valid() && index.Keys == old(index.Keys)
      ensures var all := old(list.Contents) + [lf];
        && EvictionCount(all, list.memoryMaxSize, list.maxFreq, |evicted|)
        && evicted == all[..|evicted|]
        && list.Contents == all[|evicted|..]
    {
      ghost var all := list.Contents + [lf];
      IndexEvent(lf, list.Contents);
      evicted := list.AddEvent(lf);
      FreeEvents(evicted, all);
    }

    method IndexEvent(lf: Eventinfo, ghost events: seq<Eventinfo>)
      requires HasLists(rules, index) && Agrees(index, events, rules)
          && forall e | e in events :: HandlesOk(e, rules, index)
      requires lf !in events && lf.sidNodeToDelete == null && lf.groupNodeToDelete == []
      modifies this`index, lf`sidNodeToDelete, lf`groupNodeToDelete
      ensures index.Keys == old(index.Keys) && Agrees(index, events + [lf], rules)
      ensures forall e | e in events + [lf] :: HandlesOk(e, rules, index)
    {
      AddIndexNodes(lf, events);
      forall e | e in events ensures HandlesOk(e, rules, index) {
        assert HandlesOk(e, rules, old(index));
        HandlesGrow(e, rules, old(index), index);
      }
    }

    method FreeEvents(evicted: seq<Eventinfo>, ghost all: seq<Eventinfo>)
      requires |evicted| <= |all| && evicted == all[..|evicted|] && Unique(all)
      requires Agrees(index, all, rules) && forall e | e in all :: HandlesOk(e, rules, index)
      modifies this`index
      ensures index.Keys == old(index.Keys) && Agrees(index, all[|evicted|..], rules)
      ensures forall e | e in all[|evicted|..] :: HandlesOk(e, rules, index)
    {
      var i := 0;
      assert all[0..] == all;
      while i < |evicted|
        invariant 0 <= i <= |evicted|
        invariant index.Keys == old(index.Keys) && Agrees(index, all[i..], rules)
        invariant forall e | e in all[i..] :: HandlesOk(e, rules, index)
      {
        assert all[i..] == [evicted[i]] + all[i + 1..];
        FreeOldest(evicted[i], all[i + 1..]);
        i := i + 1;
      }
    }

    method FreeOldest(e: Eventinfo, ghost rest: seq<Eventinfo>)
      requires Agrees(index, [e] + rest, rules) && e !in rest
      requires forall o | o in [e] + rest :: HandlesOk(o, rules, index)
      modifies this`index
      ensures index.Keys == old(index.Keys) && Agrees(index, rest, rules)
      ensures forall o | o in rest :: HandlesOk(o, rules, index)
    {
      assert e in [e] + rest;
      FreeEvent(e, rest);
      forall o | o in rest ensures HandlesOk(o, rules, index) {
        assert o in [e] + rest;
        HandlesKept(o, rules, old(index), index, e);
      }
    }

    /** The list-removal part of Free_Eventinfo for the oldest event. */
    method FreeEvent(e: Eventinfo, ghost rest: seq<Eventinfo>)
      requires Agrees(index, [e] + rest, rules) && e !in rest && HandlesOk(e, rules, index)
      modifies this`index
      ensures Agrees(index, rest, rules) && index.Keys == old(index.Keys)
      ensures OnlyLost(old(index), index, e)
    {
      ghost var ls := ListsOf(rules, e.generatedRule);
      ghost var owed := if ls.sid.Some? then [ls.sid.value] else ls.groups;
      forall l | l in index ensures LeftOver(index, l, e, Count(owed, l), rest, rules) {
        OldestFirst(e, rest, rules, l);
      }
      if e.sidNodeToDelete != null {
        var l := ListsOf(rules, e.generatedRule).sid.value;
        ghost var before := index;
        DeleteNode(l, e.sidNodeToDelete, e, 1, rest);
        StillLeftOver(before, index, [l], e, rest, rules);
      } else {
        FreeGroups(e, ListsOf(rules, e.generatedRule).groups, rest);
      }
      assert AllLeftOver(index, [], e, rest, rules);
      NothingLeftOver(index, e, rest, rules);
    }

    method FreeGroups(e: Eventinfo, groups: seq<ListId>, ghost rest: seq<Eventinfo>)
      requires e !in rest && GroupHandlesOk(e, groups, e.groupNodeToDelete, index)
      requires AllLeftOver(index, groups, e, rest, rules)
      modifies this`index
      ensures OnlyLost(old(index), index, e) && AllLeftOver(index, [], e, rest, rules)
    {
      var j := 0;
      assert groups[0..] == groups;
      while j < |groups|
        invariant 0 <= j <= |groups|
        invariant OnlyLost(old(index), index, e)
        invariant NodesLeft(index, groups, e.groupNodeToDelete, j)
        invariant AllLeftOver(index, groups[j..], e, rest, rules)
      {
        var l := groups[j];
        assert groups[j..][0] == l && groups[j..][1..] == groups[j + 1..];
        ghost var before := index;
        DeleteNode(l, e.groupNodeToDelete[j], e, Count(groups[j..], l), rest);
        StillLeftOver(before, index, groups[j..], e, rest, rules);
        OnlyLostThen(old(index), before, index, e);
        j := j + 1;
      }
      assert groups[j..] == [];
    }

    /** Delete one of the m nodes that the oldest event still has in a list. */
    method DeleteNode(l: ListId, node: OSListNode, ghost e: Eventinfo, ghost m: nat, ghost rest: seq<Eventinfo>)
      requires l in index && Distinct(index[l]) && node in index[l] && node.data == e && e !in rest
      requires LeftOver(index, l, e, m, rest, rules)
      modifies this`index
      ensures l in index && index == old(index)[l := index[l]]
      ensures 0 < m && LeftOver(index, l, e, m - 1, rest, rules)
      ensures Distinct(index[l]) && forall n :: n in index[l] <==> n in old(index[l]) && n != node
      ensures OnlyLost(old(index), index, e)
    {
      WithoutNode(index[l], node);
      IndexedOnly(rest, rules, l, e);
      WithoutData(index[l], node, e, m, Indexed(rest, rules, l));
      index := index[l := Without(index[l], node)];
    }

    /** The index part of the store step: own list first, otherwise the group lists. */
    method AddIndexNodes(lf: Eventinfo, ghost events: seq<Eventinfo>)
      requires HasLists(rules, index) && Agrees(index, events, rules)
      requires lf !in events && lf.sidNodeToDelete == null && lf.groupNodeToDelete == []
      modifies this`index, lf`sidNodeToDelete, lf`groupNodeToDelete
      ensures OnlyGrown(old(index), index)
      ensures Agrees(index, events + [lf], rules)
      ensures HandlesOk(lf, rules, index)
    {
      var ls := ListsOf(rules, lf.generatedRule);
      BeginAdd(index, events, lf, rules);
      RuleListsExist(rules, lf.generatedRule);
      if ls.sid.Some? {
        var l := ls.sid.value;
        ghost var before := index;
        var node := AddData(l, lf, events, 0);
        StillWithNew(before, index, [], l, events, lf, rules);
        assert [] + [l] == [l];
        lf.sidNodeToDelete := node;
      } else {
        AddGroupNodes(lf, ls.groups, events);
      }
      FinishAdd(index, events, lf, rules);
    }

    /** OSList_AddData of a list that already got m nodes of the event. */
    method AddData(l: ListId, lf: Eventinfo, ghost events: seq<Eventinfo>, ghost m: nat) returns (node: OSListNode)
      requires l in index && Distinct(index[l]) && WithNew(index, l, events, lf, m, rules)
      modifies this`index
      ensures fresh(node) && node.data == lf && index == old(index)[l := old(index[l]) + [node]]
      ensures Distinct(index[l]) && WithNew(index, l, events, lf, m + 1, rules)
      ensures OnlyGrown(old(index), index)
    {
      node := new OSListNode(lf);
      ghost var before := index[l];
      index := index[l := index[l] + [node]];
      assert DataOf(index[l]) == DataOf(before) + [lf];
      assert Repeat(lf, m + 1) == Repeat(lf, m) + [lf];
    }

    method AddGroupNode(lf: Eventinfo, l: ListId, ghost added: seq<ListId>, ghost events: seq<Eventinfo>)
      requires l in index && AllWithNew(index, added, events, lf, rules)
      requires GroupHandlesOk(lf, added, lf.groupNodeToDelete, index)
      modifies this`index, lf`groupNodeToDelete
      ensures OnlyGrown(old(index), index)
      ensures AllWithNew(index, added + [l], events, lf, rules)
      ensures GroupHandlesOk(lf, added + [l], lf.groupNodeToDelete, index)
    {
      ghost var before, nodes := index, lf.groupNodeToDelete;
      var node := AddData(l, lf, events, Count(added, l));
      GroupHandlesGrow(lf, added, nodes, before, l, node);
      StillWithNew(before, index, added, l, events, lf, rules);
      lf.groupNodeToDelete := lf.groupNodeToDelete + [node];
    }

    method AddGroupNodes(lf: Eventinfo, groups: seq<ListId>, ghost events: seq<Eventinfo>)
      requires lf.groupNodeToDelete == [] && forall j | 0 <= j < |groups| :: groups[j] in index
      requires AllWithNew(index, [], events, lf, rules)
      modifies this`index, lf`groupNodeToDelete
      ensures OnlyGrown(old(index), index)
      ensures AllWithNew(index, groups, events, lf, rules)
      ensures GroupHandlesOk(lf, groups, lf.groupNodeToDelete, index)
    {
      var j := 0;
      while j < |groups|
        invariant 0 <= j <= |groups|
        invariant OnlyGrown(old(index), index)
        invariant AllWithNew(index, groups[..j], events, lf, rules)
        invariant GroupHandlesOk(lf, groups[..j], lf.groupNodeToDelete, index)
      {
        ghost var before := index;
        AddGroupNode(lf, groups[j], groups[..j], events);
        OnlyGrownThen(old(index), before, index);
        assert groups[..j + 1] == groups[..j] + [groups[j]];
        j := j + 1;
      }
      assert groups[..j] == groups;
    }
  }

  ghost predicate OnlyGrown(before: Index, after: Index) {
    before.Keys == after.Keys && forall l | l in before :: before[l] <= after[l]
  }

  lemma OnlyGrownThen(a: Index, b: Index, c: Index)
    requires OnlyGrown(a, b) && OnlyGrown(b, c)
    ensures OnlyGrown(a, c)
  {
  }

  /** What every list holds while the new event is in the lists of added only. */
  ghost predicate AllWithNew(index: Index, added: seq<ListId>, events: seq<Eventinfo>, lf: Eventinfo, rules: Rules) {
    forall l | l in index :: Distinct(index[l]) && WithNew(index, l, events, lf, Count(added, l), rules)
  }

  lemma StillWithNew(before: Index, after: Index, added: seq<ListId>, l: ListId, events: seq<Eventinfo>,
                     lf: Eventinfo, rules: Rules)
    requires AllWithNew(before, added, events, lf, rules) && l in before && l in after
    requires after == before[l := after[l]] && Distinct(after[l])
    requires WithNew(after, l, events, lf, Count(added, l) + 1, rules)
    ensures AllWithNew(after, added + [l], events, lf, rules)
  {
    forall k | k in after ensures WithNew(after, k, events, lf, Count(added + [l], k), rules) {
      CountSnoc(added, l, k);
      assert WithNew(before, k, events, lf, Count(added, k), rules);
    }
  }

  lemma HandlesGrow(e: Eventinfo, rules: Rules, before: Index, after: Index)
    requires HandlesOk(e, rules, before) && OnlyGrown(before, after)
    ensures HandlesOk(e, rules, after)
  {
  }

  lemma HandlesKept(o: Eventinfo, rules: Rules, before: Index, after: Index, e: Eventinfo)
    requires HandlesOk(o, rules, before) && OnlyLost(before, after, e) && o != e
    ensures HandlesOk(o, rules, after)
  {
  }

  lemma BeginAdd(index: Index, events: seq<Eventinfo>, lf: Eventinfo, rules: Rules)
    requires Agrees(index, events, rules)
    ensures AllWithNew(index, [], events, lf, rules)
  {
    forall l | l in index ensures WithNew(index, l, events, lf, 0, rules) {
      assert Indexed(events, rules, l) + Repeat(lf, 0) == Indexed(events, rules, l);
    }
  }

  lemma FinishAdd(index: Index, events: seq<Eventinfo>, lf: Eventinfo, rules: Rules)
    requires var ls := ListsOf(rules, lf.generatedRule);
      AllWithNew(index, if ls.sid.Some? then [ls.sid.value] else ls.groups, events, lf, rules)
    ensures Agrees(index, events + [lf], rules)
  {
    forall l | l in index ensures DataOf(index[l]) == Indexed(events + [lf], rules, l) {
      var ls := ListsOf(rules, lf.generatedRule);
      if ls.sid.Some? {
        CountSnoc([], ls.sid.value, l);
        assert [] + [ls.sid.value] == [ls.sid.value];
      }
      assert WithNew(index, l, events, lf, Times(rules, lf.generatedRule, l), rules);
      IndexedConcat(events, [lf], rules, l);
      IndexedOne(lf, rules, l);
    }
  }

  lemma GroupHandlesGrow(e: Eventinfo, groups: seq<ListId>, nodes: seq<OSListNode>, index: Index, l: ListId,
                         node: OSListNode)
    requires GroupHandlesOk(e, groups, nodes, index)
    requires l in index && node.data == e && node !in nodes
    ensures GroupHandlesOk(e, groups + [l], nodes + [node], index[l := index[l] + [node]])
  {
  }

  lemma {:induction false} CountSnoc(s: seq<ListId>, x: ListId, l: ListId)
    ensures Count(s + [x], l) == Count(s, l) + if x == l then 1 else 0
  {
    if s != [] {
      assert (s + [x])[1..] == s[1..] + [x];
      CountSnoc(s[1..], x, l);
    }
  }

  lemma RuleListsExist(rules: Rules, r: RuleId)
    ensures var ls := ListsOf(rules, r);
      && (ls.sid.Some? ==> ls.sid.value in AllLists(rules))
      && forall j | 0 <= j < |ls.groups| :: ls.groups[j] in AllLists(rules)
  {
  }

  /** A list holds what the earlier events require, then m nodes of the new one. */
  ghost predicate WithNew(index: Index, l: ListId, events: seq<Eventinfo>, lf: Eventinfo, m: nat, rules: Rules)
    requires l in index
  {
    DataOf(index[l]) == Indexed(events, rules, l) + Repeat(lf, m)
  }

  /** A list still holds m nodes of the oldest event, then what the rest requires. */
  ghost predicate LeftOver(index: Index, l: ListId, e: Eventinfo, m: nat, rest: seq<Eventinfo>, rules: Rules)
    requires l in index
  {
    DataOf(index[l]) == Repeat(e, m) + Indexed(rest, rules, l)
  }

  /** What every list still holds while the nodes in the owed lists are not deleted yet. */
  ghost predicate AllLeftOver(index: Index, owed: seq<ListId>, e: Eventinfo, rest: seq<Eventinfo>, rules: Rules) {
    forall l | l in index :: Distinct(index[l]) && LeftOver(index, l, e, Count(owed, l), rest, rules)
  }

  ghost predicate NodesLeft(index: Index, groups: seq<ListId>, nodes: seq<OSListNode>, j: nat)
    requires |groups| == |nodes|
  {
    forall k | j <= k < |groups| :: groups[k] in index && nodes[k] in index[groups[k]]
  }

  lemma StillLeftOver(before: Index, after: Index, owed: seq<ListId>, e: Eventinfo, rest: seq<Eventinfo>, rules: Rules)
    requires owed != [] && owed[0] in before && AllLeftOver(before, owed, e, rest, rules)
    requires owed[0] in after && after == before[owed[0] := after[owed[0]]] && Distinct(after[owed[0]])
    requires LeftOver(after, owed[0], e, Count(owed, owed[0]) - 1, rest, rules)
    ensures AllLeftOver(after, owed[1..], e, rest, rules)
  {
    forall l | l in after ensures LeftOver(after, l, e, Count(owed[1..], l), rest, rules) {
      assert LeftOver(before, l, e, Count(owed, l), rest, rules);
    }
  }

  lemma NothingLeftOver(index: Index, e: Eventinfo, rest: seq<Eventinfo>, rules: Rules)
    requires AllLeftOver(index, [], e, rest, rules)
    ensures Agrees(index, rest, rules)
  {
    forall l | l in index ensures DataOf(index[l]) == Indexed(rest, rules, l) {
      assert LeftOver(index, l, e, 0, rest, rules);
      assert Repeat(e, 0) + Indexed(rest, rules, l) == Indexed(rest, rules, l);
    }
  }

  lemma OnlyLostThen(a: Index, b: Index, c: Index, e: Eventinfo)
    requires OnlyLost(a, b, e) && OnlyLost(b, c, e)
    ensures OnlyLost(a, c, e)
  {
    forall l, n | l in a && n in a[l] && n.data != e ensures n in c[l] {
      assert n in b[l];
    }
  }

  lemma OldestFirst(e: Eventinfo, rest: seq<Eventinfo>, rules: Rules, l: ListId)
    ensures Indexed([e] + rest, rules, l) == Repeat(e, Times(rules, e.generatedRule, l)) + Indexed(rest, rules, l)
  {
    assert ([e] + rest)[1..] == rest;
  }

  /** Nodes of other events stay where they are. */
  ghost predicate OnlyLost(before: Index, after: Index, e: Eventinfo) {
    before.Keys == after.Keys
    && forall l, n | l in before && n in before[l] && n.data != e :: n in after[l]
  }


  ghost predicate Unique(events: seq<Eventinfo>) {
    forall i, j | 0 <= i < j < |events| :: events[i] != events[j]
  }

  /** The lists created when the rules were read. */
  function AllLists(rules: Rules): set<ListId> {
    (set r | r in rules && rules[r].sid.Some? :: rules[r].sid.value)
    + (set r, j | r in rules && 0 <= j < |rules[r].groups| :: rules[r].groups[j])
  }

  ghost predicate HasLists(rules: Rules, index: Index) {
    AllLists(rules) <= index.Keys
  }
}
