/**
 * Runs of the accumulator over many events. When purges happen cannot be told from the
 * outputs, and what the cache holds is determined by the events of the same key alone.
 */
module AccumulatorRuns {
  import opened Options
  import opened Accumulators

  /** When the calls purge, if they do. */
  type Schedule = seq<Option<int>>

  /** The clock is positive and never goes back. */
  ghost predicate Clocked(calls: seq<Call>) {
    && (forall i | 0 <= i < |calls| :: calls[i].now > 0)
    && (forall i, j | 0 <= i <= j < |calls| :: calls[i].now <= calls[j].now)
  }

  /** A purge happens no later than the rest of the call that makes it. */
  ghost predicate Fits(purges: Schedule, calls: seq<Call>) {
    |purges| == |calls| && forall i | 0 <= i < |calls| :: purges[i].Some? ==> purges[i].value <= calls[i].now
  }

  /** The store after the first n calls, from an empty one. */
  function After(calls: seq<Call>, purges: Schedule, n: nat): Store
    requires |purges| == |calls| && n <= |calls|
  {
    if n == 0 then map[] else StepStore(After(calls, purges, n - 1), calls[n - 1], purges[n - 1])
  }

  /** The fields of event i as Accumulate leaves them. */
  function OutputOf(calls: seq<Call>, purges: Schedule, i: nat): Fields
    requires |purges| == |calls| && i < |calls|
  {
    StepOutput(After(calls, purges, i), calls[i], purges[i])
  }

  function LastTime(calls: seq<Call>, n: nat): int
    requires n <= |calls|
  {
    if n == 0 then 0 else calls[n - 1].now
  }

  /** The entry of a key, unless it has expired. */
  function Current(store: Store, key: string, now: int): Option<Entry> {
    if key in store && !Expired(store[key], now) then Some(store[key]) else None
  }

  /** The stores differ in expired entries only. */
  ghost predicate SameCurrent(a: Store, b: Store, now: int) {
    forall k :: Current(a, k, now) == Current(b, k, now)
  }

  ghost predicate Stamped(store: Store, now: int) {
    forall k | k in store :: 0 < store[k].timestamp <= now
  }

  lemma LaterCurrent(a: Store, b: Store, t: int, now: int)
    requires SameCurrent(a, b, t) && t <= now
    ensures SameCurrent(a, b, now)
  {
    forall k ensures Current(a, k, now) == Current(b, k, now) {
      assert Current(a, k, t) == Current(b, k, t);
    }
  }

  lemma PurgeKeepsCurrent(store: Store, purge: Option<int>, now: int)
    requires purge.Some? ==> purge.value <= now
    ensures SameCurrent(AfterPurge(store, purge), store, now)
  {
  }

  lemma CurrentDecides(a: Store, b: Store, key: string, now: int)
    requires SameCurrent(a, b, now) && Stamped(a, now) && Stamped(b, now)
    ensures Remembered(a, key, now) == Remembered(b, key, now)
  {
    assert Current(a, key, now) == Current(b, key, now);
  }

  lemma StepKeepsStamps(store: Store, call: Call, purge: Option<int>, t: int)
    requires Stamped(store, t) && t <= call.now && 0 < call.now
    ensures Stamped(StepStore(store, call, purge), call.now)
  {
  }

  /** One call on two stores that differ in expired entries only, with different purges. */
  lemma StepSame(a: Store, b: Store, call: Call, p: Option<int>, q: Option<int>, t: int)
    requires Stamped(a, t) && Stamped(b, t) && SameCurrent(a, b, t) && t <= call.now && 0 < call.now
    requires (p.Some? ==> p.value <= call.now) && (q.Some? ==> q.value <= call.now)
    ensures StepOutput(a, call, p) == StepOutput(b, call, q)
    ensures SameCurrent(StepStore(a, call, p), StepStore(b, call, q), call.now)
  {
    LaterCurrent(a, b, t, call.now);
    PurgeKeepsCurrent(a, p, call.now);
    PurgeKeepsCurrent(b, q, call.now);
    var a', b' := AfterPurge(a, p), AfterPurge(b, q);
    forall k ensures Current(a', k, call.now) == Current(b', k, call.now) {
      assert Current(a', k, call.now) == Current(a, k, call.now) == Current(b, k, call.now) == Current(b', k, call.now);
    }
    if call.key.Some? {
      CurrentDecides(a', b', call.key.value, call.now);
      forall k ensures Current(StepStore(a, call, p), k, call.now) == Current(StepStore(b, call, q), k, call.now) {
        assert Current(a', k, call.now) == Current(b', k, call.now);
      }
    }
  }

  lemma {:induction false} SamePrefix(calls: seq<Call>, p: Schedule, q: Schedule, n: nat)
    requires Clocked(calls) && Fits(p, calls) && Fits(q, calls) && n <= |calls|
    ensures var now := LastTime(calls, n);
            && Stamped(After(calls, p, n), now) && Stamped(After(calls, q, n), now)
            && SameCurrent(After(calls, p, n), After(calls, q, n), now)
  {
    if n > 0 {
      SamePrefix(calls, p, q, n - 1);
      var t := LastTime(calls, n - 1);
      var a, b := After(calls, p, n - 1), After(calls, q, n - 1);
      StepKeepsStamps(a, calls[n - 1], p[n - 1], t);
      StepKeepsStamps(b, calls[n - 1], q[n - 1], t);
      StepSame(a, b, calls[n - 1], p[n - 1], q[n - 1], t);
    }
  }

  /** Purges are invisible: any two schedules give the same events, and stores that differ in expired entries only. */
  lemma PurgesAreInvisible(calls: seq<Call>, p: Schedule, q: Schedule)
    requires Clocked(calls) && Fits(p, calls) && Fits(q, calls)
    ensures forall i | 0 <= i < |calls| :: OutputOf(calls, p, i) == OutputOf(calls, q, i)
    ensures SameCurrent(After(calls, p, |calls|), After(calls, q, |calls|), LastTime(calls, |calls|))
  {
    forall i | 0 <= i < |calls| ensures OutputOf(calls, p, i) == OutputOf(calls, q, i) {
      SamePrefix(calls, p, q, i);
      StepSame(After(calls, p, i), After(calls, q, i), calls[i], p[i], q[i], LastTime(calls, i));
    }
    SamePrefix(calls, p, q, |calls|);
  }

  // ---- What the cache means

  predicate Of(calls: seq<Call>, i: nat, key: string)
    requires i < |calls|
  {
    calls[i].key == Some(key)
  }

  /** Another event of the key follows event m, by event i, within the expiry time. */
  ghost predicate Followed(calls: seq<Call>, key: string, m: nat, i: nat)
    requires m <= i < |calls|
  {
    exists n: nat :: m < n <= i && Of(calls, n, key) && calls[n].now <= calls[m].now + EXPIRE_ELM
  }

  /** No pause of more than the expiry time separates event j from event i, among the events of the key. */
  ghost predicate SameSpell(calls: seq<Call>, key: string, j: nat, i: nat)
    requires i < |calls|
  {
    j <= i && Of(calls, j, key) && forall m: nat | j <= m < i && Of(calls, m, key) :: Followed(calls, key, m, i)
  }

  /** Event j brings a useful value for a field, and belongs to the spell of event i. */
  ghost predicate Brings(calls: seq<Call>, key: string, name: Name, i: nat, j: nat)
    requires i < |calls|
  {
    SameSpell(calls, key, j, i) && Useful(Get(calls[j].own, name))
  }

  /** v is the first useful value that the events before bound brought in the spell of event i. */
  ghost predicate IsFirst(calls: seq<Call>, key: string, name: Name, i: nat, bound: nat, v: Option<string>)
    requires i < |calls| && bound <= i + 1
  {
    if v.None? then forall j: nat | j < bound :: !Brings(calls, key, name, i, j)
    else exists j: nat :: j < bound && IsFirstAt(calls, key, name, i, j) && Get(calls[j].own, name) == v
  }

  ghost predicate IsFirstAt(calls: seq<Call>, key: string, name: Name, i: nat, j: nat)
    requires j <= i < |calls|
  {
    Brings(calls, key, name, i, j) && forall k: nat | k < j :: !Brings(calls, key, name, i, k)
  }

  /** last is the latest event of the key among the first n. */
  ghost predicate IsLast(calls: seq<Call>, key: string, n: nat, last: nat)
    requires n <= |calls|
  {
    last < n && Of(calls, last, key) && forall j: nat | last < j < n :: !Of(calls, j, key)
  }

  lemma SpellContinues(calls: seq<Call>, key: string, last: nat, i: nat, j: nat)
    requires Clocked(calls) && i < |calls| && IsLast(calls, key, i, last) && Of(calls, i, key) && j < i
    requires calls[i].now <= calls[last].now + EXPIRE_ELM
    ensures SameSpell(calls, key, j, i) <==> SameSpell(calls, key, j, last)
  {
    if SameSpell(calls, key, j, last) {
      forall m: nat | j <= m < i && Of(calls, m, key) ensures Followed(calls, key, m, i) {
        if m < last {
          assert Followed(calls, key, m, last);
        }
      }
    }
    if SameSpell(calls, key, j, i) {
      forall m: nat | j <= m < last && Of(calls, m, key) ensures Followed(calls, key, m, last) {
        assert Followed(calls, key, m, i);
        var n: nat :| m < n <= i && Of(calls, n, key) && calls[n].now <= calls[m].now + EXPIRE_ELM;
        assert (if n == i then last else n) <= last && calls[last].now <= calls[i].now;
      }
    }
  }

  lemma SpellBreaks(calls: seq<Call>, key: string, last: nat, i: nat, j: nat)
    requires i < |calls| && IsLast(calls, key, i, last) && Of(calls, i, key) && j < i
    requires calls[i].now > calls[last].now + EXPIRE_ELM
    ensures !SameSpell(calls, key, j, i)
  {
    if SameSpell(calls, key, j, i) {
      NotFollowed(calls, key, last, i);
    }
  }

  lemma NotFollowed(calls: seq<Call>, key: string, last: nat, i: nat)
    requires i < |calls| && IsLast(calls, key, i, last)
    requires calls[i].now > calls[last].now + EXPIRE_ELM
    ensures !Followed(calls, key, last, i)
  {
  }

  function Never(calls: seq<Call>): Schedule {
    seq(|calls|, _ => None)
  }

  function UnpurgedStore(calls: seq<Call>, n: nat): Store
    requires n <= |calls|
  {
    After(calls, Never(calls), n)
  }

  /** The record of a key: the stamp of its latest event, and the first useful values of that event's spell. */
  ghost predicate RecordOf(calls: seq<Call>, key: string, last: nat, e: Entry)
    requires last < |calls|
  {
    e.timestamp == calls[last].now && forall name :: IsFirst(calls, key, name, last, last + 1, Get(e.fields, name))
  }

  ghost predicate StoreMeans(calls: seq<Call>, key: string, n: nat)
    requires n <= |calls|
  {
    var store := UnpurgedStore(calls, n);
    && (key in store ==> exists last: nat :: IsLast(calls, key, n, last) && RecordOf(calls, key, last, store[key]))
    && (key !in store ==> forall j: nat | j < n :: !Of(calls, j, key))
  }

  lemma FirstCarriesOver(calls: seq<Call>, key: string, name: Name, last: nat, i: nat, v: Option<string>)
    requires Clocked(calls) && i < |calls| && IsLast(calls, key, i, last) && Of(calls, i, key)
    requires calls[i].now <= calls[last].now + EXPIRE_ELM
    requires IsFirst(calls, key, name, last, last + 1, v)
    ensures IsFirst(calls, key, name, i, i, v)
  {
    forall j: nat | j < i ensures Brings(calls, key, name, i, j) <==> Brings(calls, key, name, last, j) {
      SpellContinues(calls, key, last, i, j);
    }
    if v.Some? {
      var j: nat :| j < last + 1 && IsFirstAt(calls, key, name, last, j) && Get(calls[j].own, name) == v;
      assert IsFirstAt(calls, key, name, i, j);
    }
  }

  /** What event i finds in the cache for a field: the first useful value earlier in its spell. */
  lemma RememberedMeans(calls: seq<Call>, key: string, i: nat, name: Name)
    requires Clocked(calls) && i < |calls| && Of(calls, i, key) && StoreMeans(calls, key, i)
    ensures IsFirst(calls, key, name, i, i, Get(Remembered(UnpurgedStore(calls, i), key, calls[i].now), name))
  {
    var store := UnpurgedStore(calls, i);
    if key in store {
      var last: nat :| IsLast(calls, key, i, last) && RecordOf(calls, key, last, store[key]);
      if calls[i].now <= calls[last].now + EXPIRE_ELM {
        FirstCarriesOver(calls, key, name, last, i, Get(store[key].fields, name));
      } else {
        forall j: nat | j < i ensures !Brings(calls, key, name, i, j) {
          SpellBreaks(calls, key, last, i, j);
        }
      }
    }
  }

  lemma FirstUseful(calls: seq<Call>, key: string, name: Name, i: nat, v: Option<string>)
    requires i < |calls| && Of(calls, i, key) && IsFirst(calls, key, name, i, i, v)
    ensures v.Some? ==> Useful(v)
    ensures IsFirst(calls, key, name, i, i + 1, Filled(v, Filled(Get(calls[i].own, name), v)))
  {
    var own := Get(calls[i].own, name);
    assert SameSpell(calls, key, i, i);
    assert Brings(calls, key, name, i, i) <==> Useful(own);
    if v.Some? {
      var j: nat :| j < i && IsFirstAt(calls, key, name, i, j) && Get(calls[j].own, name) == v;
    } else if Useful(own) {
      assert IsFirstAt(calls, key, name, i, i);
    }
  }

  lemma {:induction false} StoreMeaning(calls: seq<Call>, key: string, n: nat)
    requires Clocked(calls) && n <= |calls|
    ensures StoreMeans(calls, key, n)
  {
    if n > 0 {
      var i := n - 1;
      StoreMeaning(calls, key, i);
      var before, store := UnpurgedStore(calls, i), UnpurgedStore(calls, n);
      if Of(calls, i, key) {
        forall name ensures IsFirst(calls, key, name, i, i + 1, Get(store[key].fields, name)) {
          RememberedMeans(calls, key, i, name);
          FirstUseful(calls, key, name, i, Get(Remembered(before, key, calls[i].now), name));
        }
        assert IsLast(calls, key, n, i) && RecordOf(calls, key, i, store[key]);
      } else if key in before {
        var last: nat :| IsLast(calls, key, i, last) && RecordOf(calls, key, last, before[key]);
        assert IsLast(calls, key, n, last);
      }
    }
  }

  /**
   * The meaning of one output field, whenever purges happen: the event's own value if it has one,
   * otherwise the first useful value that an earlier event of the spell brought, if any did.
   */
  lemma OutputMeaning(calls: seq<Call>, purges: Schedule, i: nat, key: string, name: Name) returns (v: Option<string>)
    requires Clocked(calls) && Fits(purges, calls) && i < |calls| && Of(calls, i, key)
    ensures IsFirst(calls, key, name, i, i, v)
    ensures var own := Get(calls[i].own, name);
            Get(OutputOf(calls, purges, i), name) == if NonEmpty(own) || v.None? then own else v
  {
    StoreMeaning(calls, key, i);
    RememberedMeans(calls, key, i, name);
    v := Get(Remembered(UnpurgedStore(calls, i), key, calls[i].now), name);
    FirstUseful(calls, key, name, i, v);
    PurgesAreInvisible(calls, purges, Never(calls));
  }

  /** The same for what the cache holds, whenever purges happened: an entry missing or expired aside. */
  lemma RecordMeaning(calls: seq<Call>, purges: Schedule, key: string)
    requires Clocked(calls) && Fits(purges, calls)
    ensures var now := LastTime(calls, |calls|);
            match Current(After(calls, purges, |calls|), key, now)
            case Some(e) => exists last: nat :: IsLast(calls, key, |calls|, last) && RecordOf(calls, key, last, e)
            case None => forall j: nat | j < |calls| && Of(calls, j, key) :: calls[j].now < now - EXPIRE_ELM
  {
    StoreMeaning(calls, key, |calls|);
    PurgesAreInvisible(calls, purges, Never(calls));
    var now := LastTime(calls, |calls|);
    assert Current(After(calls, purges, |calls|), key, now) == Current(UnpurgedStore(calls, |calls|), key, now);
    var store := UnpurgedStore(calls, |calls|);
    if key in store && Expired(store[key], now) {
      var last: nat :| IsLast(calls, key, |calls|, last) && RecordOf(calls, key, last, store[key]);
      forall j: nat | j < |calls| && Of(calls, j, key) ensures calls[j].now < now - EXPIRE_ELM {
        assert j <= last && calls[j].now <= calls[last].now;
      }
    }
  }
}
