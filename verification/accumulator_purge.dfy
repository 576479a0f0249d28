/**
 * When the accumulator purges. A call is to purge after 200 calls or 300 seconds, but the
 * second test is written the wrong way round.
 */
module AccumulatorPurges {
  import opened Options
  import opened Accumulators

  /** The counters before call n, from the start time on; clock[i] is what call i reads. */
  function BookBefore(start: int, clock: seq<int>, n: nat): Book
    requires n <= |clock|
  {
    if n == 0 then Book(0, start) else Booked(BookBefore(start, clock, n - 1), clock[n - 1])
  }

  predicate PurgesAt(start: int, clock: seq<int>, i: nat)
    requires i < |clock|
  {
    var b := BookBefore(start, clock, i);
    PurgeTime(b.lookups, b.purgeTs, clock[i]).Some?
  }

  /** Call i is the 200th since the last one that was. */
  predicate Rounds(i: nat) {
    (i + 1) % PURGE_COUNT == 0
  }

  lemma RoundsAt(i: nat)
    ensures Rounds(i) <==> i % PURGE_COUNT + 1 == PURGE_COUNT
    ensures i % PURGE_COUNT < PURGE_COUNT
  {
  }

  /** The time of the last purge before call i, if purges fall on every 200th call. */
  function LastRound(start: int, clock: seq<int>, i: nat): int
    requires i <= |clock|
  {
    if i < PURGE_COUNT then start else clock[i - i % PURGE_COUNT - 1]
  }

  ghost predicate EveryRound(start: int, clock: seq<int>) {
    forall i | 0 <= i < |clock| :: PurgesAt(start, clock, i) <==> Rounds(i)
  }

  /** No call in between reads a time 300 seconds or more before the last purge. */
  ghost predicate NeverFarBack(start: int, clock: seq<int>) {
    forall i | 0 <= i < |clock| && !Rounds(i) :: LastRound(start, clock, i) < clock[i] + PURGE_INTERVAL
  }

  lemma NextRound(start: int, clock: seq<int>, i: nat)
    requires i < |clock|
    ensures LastRound(start, clock, i + 1) == if Rounds(i) then clock[i] else LastRound(start, clock, i)
    ensures (i + 1) % PURGE_COUNT == if Rounds(i) then 0 else i % PURGE_COUNT + 1
  {
  }

  /** As long as purges fell on every 200th call, the counters are what that makes them. */
  lemma {:induction false} BookAtRound(start: int, clock: seq<int>, n: nat)
    requires n <= |clock| && forall i | 0 <= i < n :: PurgesAt(start, clock, i) <==> Rounds(i)
    ensures BookBefore(start, clock, n) == Book(n % PURGE_COUNT, LastRound(start, clock, n))
  {
    if n > 0 {
      BookAtRound(start, clock, n - 1);
      NextRound(start, clock, n - 1);
      assert PurgesAt(start, clock, n - 1) <==> Rounds(n - 1);
    }
  }

  lemma {:induction false} RoundsUpTo(start: int, clock: seq<int>, n: nat)
    requires n <= |clock| && NeverFarBack(start, clock)
    ensures forall i | 0 <= i < n :: PurgesAt(start, clock, i) <==> Rounds(i)
  {
    if n > 0 {
      RoundsUpTo(start, clock, n - 1);
      BookAtRound(start, clock, n - 1);
      RoundsAt(n - 1);
      hide Rounds, LastRound, BookBefore;
      assert PurgesAt(start, clock, n - 1) <==> Rounds(n - 1);
    }
  }

  /** Purges fall on every 200th call and on no other exactly if the clock never goes that far back. */
  lemma EveryRoundExactly(start: int, clock: seq<int>)
    ensures EveryRound(start, clock) <==> NeverFarBack(start, clock)
  {
    if NeverFarBack(start, clock) {
      RoundsUpTo(start, clock, |clock|);
    }
    if EveryRound(start, clock) {
      forall i | 0 <= i < |clock| && !Rounds(i) ensures LastRound(start, clock, i) < clock[i] + PURGE_INTERVAL {
        BookAtRound(start, clock, i);
        assert PurgesAt(start, clock, i) <==> Rounds(i);
      }
    }
  }

  /** The clock never goes back. */
  ghost predicate Forward(start: int, clock: seq<int>) {
    forall i, j | 0 <= i <= j < |clock| :: start <= clock[i] <= clock[j]
  }

  /** A call that comes 300 seconds or more after the last purge purges. */
  ghost predicate IntervalKept(start: int, clock: seq<int>) {
    forall i | 0 <= i < |clock|
        && BookBefore(start, clock, i).purgeTs + PURGE_INTERVAL <= clock[i] :: PurgesAt(start, clock, i)
  }

  /**
   * With a clock that never goes back the interval makes no call purge, and is kept exactly if every call that
   * is not a 200th comes within it anyway.
   */
  lemma IntervalKeptExactly(start: int, clock: seq<int>)
    requires Forward(start, clock)
    ensures EveryRound(start, clock)
    ensures IntervalKept(start, clock) <==>
      forall i | 0 <= i < |clock| && !Rounds(i) :: clock[i] < LastRound(start, clock, i) + PURGE_INTERVAL
  {
    EveryRoundExactly(start, clock);
    forall i | 0 <= i < |clock|
      ensures BookBefore(start, clock, i).purgeTs == LastRound(start, clock, i)
      ensures PurgesAt(start, clock, i) <==> Rounds(i)
    {
      BookAtRound(start, clock, i);
    }
  }

  /** A call 300 seconds after the start does not purge. */
  lemma DueAndNotPurged()
    ensures Forward(0, [PURGE_INTERVAL]) && !PurgesAt(0, [PURGE_INTERVAL], 0) && !IntervalKept(0, [PURGE_INTERVAL])
  {
    assert !PurgesAt(0, [PURGE_INTERVAL], 0);
  }
}
