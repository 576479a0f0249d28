/**
 * The bounded list of past events: doubly linked, headed by an empty node, newest
 * event first, trimmed from the old end when it outgrows its limit.
 */
module EventLists {
  import opened EventObjects

  /** The eviction loop stops at the i-th oldest event: it is the newest, or ten are out and it is recent. */
  predicate Stops(events: seq<Eventinfo>, now: int, maxFreq: int, i: nat) {
    i < |events| && (i == |events| - 1 || (10 <= i && now - events[i].time <= maxFreq))
  }

  ghost predicate StopsFirst(events: seq<Eventinfo>, now: int, maxFreq: int, k: nat) {
    Stops(events, now, maxFreq, k) && forall i: nat | i < k :: !Stops(events, now, maxFreq, i)
  }

  /**
   * How many of the oldest events leave once the newest is in: none up to the limit,
   * otherwise at least ten, then those older than the threshold, but never the newest.
   */
  ghost predicate EvictionCount(events: seq<Eventinfo>, maxsize: int, maxFreq: int, k: nat) {
    && k < |events|
    && if |events| <= maxsize || |events| == 1 then k == 0
       else StopsFirst(events, events[|events| - 1].time, maxFreq, k)
  }

  /** The count is determined, and it keeps the list within its limit. */
  lemma EvictionBounds(events: seq<Eventinfo>, maxsize: int, maxFreq: int, k: nat)
    requires EvictionCount(events, maxsize, maxFreq, k)
    ensures forall m: nat | EvictionCount(events, maxsize, maxFreq, m) :: m == k
    ensures |events| <= maxsize + 1 ==> |events| - k <= maxsize || |events| - k == 1
    ensures maxsize < |events| <= maxsize + 1 ==> |events| - k <= maxsize - 9 || |events| - k == 1
  {
    forall m: nat | EvictionCount(events, maxsize, maxFreq, m) ensures m == k {
      if |events| > maxsize && |events| != 1 {
        var now := events[|events| - 1].time;
        assert Stops(events, now, maxFreq, m) && Stops(events, now, maxFreq, k);
        assert !(m < k) && !(k < m);
      }
    }
  }

  /**
   * Beyond the limit, ten events leave, and then as many as are older than the threshold when the newest comes in; the
   * first one that is not stays, and the newest stays in any case.
   */
  lemma EvictedExactly(events: seq<Eventinfo>, maxsize: int, maxFreq: int, k: nat)
    ensures EvictionCount(events, maxsize, maxFreq, k) <==>
      && k < |events|
      && (|events| <= maxsize || |events| == 1 ==> k == 0)
      && (|events| > maxsize && |events| > 1 ==>
            && (k < 10 ==> k == |events| - 1)
            && (forall i | 10 <= i < k :: events[|events| - 1].time - events[i].time > maxFreq)
            && (k < |events| - 1 ==> events[|events| - 1].time - events[k].time <= maxFreq))
  {
    if |events| > maxsize && |events| > 1 && k < |events| {
      var now := events[|events| - 1].time;
      if StopsFirst(events, now, maxFreq, k) {
        forall i | 10 <= i < k ensures now - events[i].time > maxFreq {
          assert !Stops(events, now, maxFreq, i);
        }
      }
      if (k < 10 ==> k == |events| - 1) && (forall i | 10 <= i < k :: now - events[i].time > maxFreq)
          && (k < |events| - 1 ==> now - events[k].time <= maxFreq) {
        assert StopsFirst(events, now, maxFreq, k);
      }
    }
  }

  class EventList {
    var firstNode: EventNode?
    var lastNode: EventNode?
    var lastAddedNode: EventNode?
    var memoryUsed: int
    const memoryMaxSize: int
    const maxFreq: int

    ghost var Nodes: seq<EventNode>        // without the empty head, oldest first
    ghost var Contents: seq<Eventinfo>     // the listed events, oldest first
    ghost var Repr: set<EventNode>

    ghost predicate Valid()
      reads this, Repr, Nodes, Contents
    {
      && Linked(Nodes, Repr)
      && Holds(Nodes, Contents)
      && memoryUsed == |Nodes|
      && if Nodes == [] then firstNode == null && lastAddedNode == null
         else
           && firstNode != null && firstNode in Repr && firstNode !in Nodes
           && firstNode.event == null && firstNode.prev == null
           && firstNode.next == lastAddedNode == Nodes[|Nodes| - 1]
           && lastNode == Nodes[0]
           && Nodes[|Nodes| - 1].prev == firstNode
           && Nodes[0].next == null
    }

    /** Neighbours point at each other: next towards the older, prev towards the newer. */
    static ghost predicate LinkedAt(nodes: seq<EventNode>, i: nat)
      requires i + 1 < |nodes|
      reads nodes[i], nodes[i + 1]
    {
      nodes[i].prev == nodes[i + 1] && nodes[i + 1].next == nodes[i]
    }

    static ghost predicate Linked(nodes: seq<EventNode>, repr: set<EventNode>)
      reads nodes
    {
      && (forall i | 0 <= i < |nodes| :: nodes[i] in repr)
      && (forall i, j | 0 <= i < j < |nodes| :: nodes[i] != nodes[j])
      && (forall i: nat | i + 1 < |nodes| :: LinkedAt(nodes, i))
    }

    /** Node i carries event i, and the event points back at it. */
    static ghost predicate HoldsAt(nodes: seq<EventNode>, events: seq<Eventinfo>, i: nat)
      requires i < |nodes| == |events|
      reads nodes[i], events[i]
    {
      nodes[i].event == events[i] && events[i].node == nodes[i]
    }

    static ghost predicate Holds(nodes: seq<EventNode>, events: seq<Eventinfo>)
      reads nodes, events
    {
      |nodes| == |events| && forall i: nat | i < |nodes| :: HoldsAt(nodes, events, i)
    }

    constructor (maxsize: int, maxFreq: int)
      ensures Valid() && Contents == [] && Repr == {}
      ensures memoryMaxSize == maxsize && this.maxFreq == maxFreq
    {
      firstNode, lastNode, lastAddedNode := null, null, null;
      memoryUsed, memoryMaxSize, this.maxFreq := 0, maxsize, maxFreq;
      Nodes, Contents, Repr := [], [], {};
    }

    method AddEvent(lf: Eventinfo) returns (evicted: seq<Eventinfo>)
      requires Valid() && lf !in Contents
      modifies this, Repr, lf`node
      ensures Valid() && fresh(Repr - old(Repr))
      ensures var all := old(Contents) + [lf];
        && EvictionCount(all, memoryMaxSize, maxFreq, |evicted|)
        && evicted == all[..|evicted|]
        && Contents == all[|evicted|..]
      ensures memoryUsed == |Contents|
      ensures old(memoryUsed) <= memoryMaxSize || old(memoryUsed) <= 1 ==>
                memoryUsed <= memoryMaxSize || memoryUsed == 1
      ensures old(memoryUsed) == memoryMaxSize ==> memoryUsed <= memoryMaxSize - 9 || memoryUsed == 1
    {
      evicted := [];
      if lastAddedNode != null {
        Link(lf);
        if memoryUsed > memoryMaxSize {
          evicted := Trim(lf.time);
        }
      } else {
        LinkFirst(lf);
      }
      EvictionBounds(old(Contents) + [lf], memoryMaxSize, maxFreq, |evicted|);
    }

    /** The two nodes of an empty list. */
    method LinkFirst(lf: Eventinfo)
      requires Valid() && lastAddedNode == null
      modifies this, lf`node
      ensures Valid() && fresh(Repr - old(Repr))
      ensures Contents == [lf]
    {
      var secondNode := new EventNode();
      if firstNode == null {
        firstNode := new EventNode();
      }
      memoryUsed := memoryUsed + 1;
      firstNode.next := secondNode;
      secondNode.prev := firstNode;
      lastNode := secondNode;
      lastAddedNode := secondNode;
      secondNode.event := lf;
      lf.node := secondNode;
      Nodes, Contents, Repr := [secondNode], [lf], {secondNode, firstNode};
    }

    /** A new node between the empty head and the newest event. */
    method Link(lf: Eventinfo)
      requires Valid() && lastAddedNode != null && lf !in Contents
      modifies this, Repr, lf`node
      ensures Valid() && fresh(Repr - old(Repr))
      ensures Contents == old(Contents) + [lf]
    {
      var newNode := new EventNode();
      newNode.next := lastAddedNode;
      newNode.prev := firstNode;
      lastAddedNode.prev := newNode;
      firstNode.next := newNode;
      lastAddedNode := newNode;
      memoryUsed := memoryUsed + 1;
      newNode.event := lf;
      lf.node := newNode;
      ghost var nodes, events := Nodes, Contents;
      Nodes, Contents, Repr := nodes + [newNode], events + [lf], Repr + {newNode};
      forall i: nat | i + 1 < |Nodes| ensures LinkedAt(Nodes, i) {
        if i + 1 < |nodes| {
          assert old(LinkedAt(nodes, i));
        }
      }
      forall i: nat | i < |Nodes| ensures HoldsAt(Nodes, Contents, i) {
        if i < |nodes| {
          assert old(HoldsAt(nodes, events, i));
        }
      }
    }

    /** The eviction loop; the events handed to Free_Eventinfo are returned in that order. */
    method Trim(now: int) returns (evicted: seq<Eventinfo>)
      requires Valid() && Nodes != []
      modifies this, Repr
      ensures Valid() && Repr == old(Repr)
      ensures |evicted| < |old(Contents)|
      ensures evicted == old(Contents)[..|evicted|] && Contents == old(Contents)[|evicted|..]
      ensures StopsFirst(old(Contents), now, maxFreq, |evicted|)
    {
      ghost var all := Contents;
      evicted := [];
      var i := 0;
      while lastNode != lastAddedNode && (i < 10 || now - lastNode.event.time > maxFreq)
        invariant Valid() && Repr == old(Repr) && Nodes != [] && HoldsAt(Nodes, Contents, 0)
        invariant 0 <= i == |evicted| < |all|
        invariant evicted == all[..i] && Contents == all[i..]
        invariant forall j: nat | j < i :: !Stops(all, now, maxFreq, j)
        decreases |Nodes|
      {
        assert lastNode.event == Contents[0] == all[i];
        var oldlast := Unlink();
        evicted := evicted + [oldlast];
        i := i + 1;
      }
      assert lastNode.event == Contents[0] == all[i];
      assert lastNode == lastAddedNode ==> |Nodes| == 1;
    }

    /** Drop the last node and return its event. */
    method Unlink() returns (event: Eventinfo)
      requires Valid() && 1 < |Nodes|
      modifies this, Repr
      ensures Valid() && Repr == old(Repr)
      ensures event == old(Contents)[0] && Contents == old(Contents)[1..] && Nodes == old(Nodes)[1..]
      ensures lastAddedNode == old(lastAddedNode)
    {
      assert LinkedAt(Nodes, 0) && HoldsAt(Nodes, Contents, 0);
      event := lastNode.event;
      lastNode := lastNode.prev;
      lastNode.next := null;
      memoryUsed := memoryUsed - 1;
      ghost var nodes, events := Nodes, Contents;
      Nodes, Contents := nodes[1..], events[1..];
      forall i: nat | i + 1 < |Nodes| ensures LinkedAt(Nodes, i) {
        assert old(LinkedAt(nodes, i + 1));
      }
      forall i: nat | i < |Nodes| ensures HoldsAt(Nodes, Contents, i) {
        assert old(HoldsAt(nodes, events, i + 1));
      }
    }

    /** os_remove_eventlist: the walk from the head meets every event once, newest first. */
    method RemoveAll() returns (freed: seq<Eventinfo>)
      requires Valid()
      modifies this, Contents
      ensures firstNode == null
      ensures |freed| == |old(Contents)|
      ensures forall i | 0 <= i < |freed| :: freed[i] == old(Contents)[|freed| - 1 - i] && freed[i].node == null
    {
      freed := [];
      ghost var nodes, events, n := Nodes, Contents, |Nodes|;
      forall i | 0 <= i < n ensures nodes[i].event == events[i] {
        assert HoldsAt(nodes, events, i);
      }
      if firstNode != null {
        firstNode := firstNode.next;
      }
      while firstNode != null
        invariant |freed| <= n == |nodes| == |events|
        invariant firstNode == if |freed| == n then null else nodes[n - 1 - |freed|]
        invariant Linked(nodes, Repr) && (0 < n ==> nodes[0].next == null)
        invariant forall i | 0 <= i < n :: nodes[i].event == events[i]
        invariant forall i | 0 <= i < |freed| :: freed[i] == events[n - 1 - i] && freed[i].node == null
        decreases n - |freed|
      {
        var tmp := firstNode;
        if |freed| + 1 < n {
          assert LinkedAt(nodes, n - 2 - |freed|);
        }
        if tmp.event != null {
          tmp.event.node := null;
          freed := freed + [tmp.event];
        }
        firstNode := firstNode.next;
      }
    }
  }
}
