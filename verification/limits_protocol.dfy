/**
 * The EPS limiter under interleaving. Any number of workers take a credit and
 * record it in two separate steps; one ticker shifts the cells under the mutex and
 * posts the freed credits one at a time. A worker that only wants a credit never
 * needs the mutex, so acquisitions fall between any two of the ticker's steps.
 */
module EpsProtocol {
  import opened Sums
  import L = EpsLimits

  type Worker = nat

  /** Where the ticker is inside update_limits; Idle means the mutex is free. */
  datatype Phase = Idle | Locked | Posting(posted: nat) | Done

  /**
   * recorded and acquired are history: one entry per interval, an interval
   * starting when the ticker takes the mutex.
   */
  datatype State = State(
    credits: nat,
    inFlight: set<Worker>,
    cell: nat,
    buf: seq<nat>,
    phase: Phase,
    recorded: seq<nat>,
    acquired: seq<nat>)

  datatype Step =
    | Acquire(w: Worker)
    | Record(w: Worker)
    | Lock
    | Advance
    | BeginPosting
    | Post
    | Shift
    | Unlock

  function Init(eps: nat, timeframe: nat): State
    requires 0 < timeframe
  {
    State(eps * timeframe, {}, 0, seq(timeframe, _ => 0), Idle, [0], [0])
  }

  predicate Enabled(s: State, step: Step) {
    match step
    case Acquire(w) => w !in s.inFlight && 0 < s.credits && s.acquired != []
    case Record(w) => w in s.inFlight && s.phase == Idle && s.cell < |s.buf| && s.recorded != []
    case Lock => s.phase == Idle
    case Advance => s.phase == Locked && s.cell < |s.buf| - 1
    case BeginPosting => s.phase == Locked && s.cell >= |s.buf| - 1
    case Post => s.phase.Posting? && s.buf != [] && s.phase.posted < s.buf[0]
    case Shift => s.phase.Posting? && s.buf != [] && s.phase.posted == s.buf[0]
    case Unlock => s.phase == Done
  }

  function Bump(h: seq<nat>): seq<nat>
    requires h != []
  {
    h[|h| - 1 := h[|h| - 1] + 1]
  }

  function Apply(s: State, step: Step): State
    requires Enabled(s, step)
  {
    match step
    case Acquire(w) => s.(credits := s.credits - 1, inFlight := s.inFlight + {w}, acquired := Bump(s.acquired))
    case Record(w) =>
      s.(inFlight := s.inFlight - {w}, buf := s.buf[s.cell := s.buf[s.cell] + 1], recorded := Bump(s.recorded))
    case Lock => s.(phase := Locked, recorded := s.recorded + [0], acquired := s.acquired + [0])
    case Advance => s.(phase := Done, cell := s.cell + 1)
    case BeginPosting => s.(phase := Posting(0))
    case Post => s.(phase := Posting(s.phase.posted + 1), credits := s.credits + 1)
    case Shift => s.(phase := Done, buf := s.buf[1..] + [0])
    case Unlock => s.(phase := Idle)
  }

  ghost predicate Legal(s: State, steps: seq<Step>)
    decreases |steps|
  {
    steps != [] ==> Enabled(s, steps[0]) && Legal(Apply(s, steps[0]), steps[1..])
  }

  /** The state at the end of a legal run. */
  ghost function Run(s: State, steps: seq<Step>): State
    requires Legal(s, steps)
    decreases |steps|
  {
    if steps == [] then s else Run(Apply(s, steps[0]), steps[1..])
  }

  // ---- The invariant

  function Least(a: nat, b: nat): nat { if a < b then a else b }

  /** The cells hold exactly the newest recorded counts; cells not reached yet are zero. */
  ghost predicate Shows(buf: seq<nat>, cell: nat, rec: seq<nat>) {
    && rec != [] && buf != []
    && var m := Least(|rec|, |buf|);
    && cell == m - 1
    && buf[..m] == rec[|rec| - m..]
    && (forall i | m <= i < |buf| :: buf[i] == 0)
  }

  /** Between Lock and the shift the cells still show the intervals before the new one. */
  ghost predicate Refines(s: State) {
    match s.phase
    case Idle => Shows(s.buf, s.cell, s.recorded)
    case Done => Shows(s.buf, s.cell, s.recorded)
    case _ =>
      && 2 <= |s.recorded| && s.recorded[|s.recorded| - 1] == 0
      && Shows(s.buf, s.cell, s.recorded[..|s.recorded| - 1])
      && (s.phase.Posting? ==> s.cell == |s.buf| - 1 && s.phase.posted <= s.buf[0])
  }

  function Posted(s: State): nat {
    if s.phase.Posting? then s.phase.posted else 0
  }

  ghost predicate Conserves(s: State, capacity: nat) {
    && s.credits + |s.inFlight| + Sum(s.buf) == capacity + Posted(s)
    && Sum(s.buf) <= capacity
  }

  /** No credit is recorded before it is acquired, at the start of any interval. */
  ghost predicate Ordered(s: State) {
    && |s.acquired| == |s.recorded|
    && Sum(s.acquired) == Sum(s.recorded) + |s.inFlight|
    && forall k | 0 <= k <= |s.recorded| :: Sum(s.recorded[..k]) <= Sum(s.acquired[..k])
  }

  /** The counts of up to width intervals from the a-th on. */
  function From(h: seq<nat>, a: nat, width: nat): seq<nat>
    requires a <= |h|
  {
    h[a..Least(a + width, |h|)]
  }

  ghost predicate WindowBound(s: State, capacity: nat) {
    forall a | 0 <= a <= |s.acquired| :: Sum(From(s.acquired, a, |s.buf|)) <= capacity
  }

  ghost predicate Inv(s: State, eps: nat, timeframe: nat) {
    && |s.buf| == timeframe && 0 < timeframe
    && Refines(s)
    && Conserves(s, eps * timeframe)
    && Ordered(s)
    && WindowBound(s, eps * timeframe)
  }

  lemma InitInv(eps: nat, timeframe: nat)
    requires 0 < timeframe
    ensures Inv(Init(eps, timeframe), eps, timeframe)
  {
    var s := Init(eps, timeframe);
    SumZeros(s.buf);
    forall a | 0 <= a <= 1 ensures Sum(From(s.acquired, a, |s.buf|)) == 0 {
      SumZeros(From(s.acquired, a, |s.buf|));
    }
    assert s.recorded[..0] == [] && s.recorded[..1] == s.recorded;
    assert s.buf[..1] == s.recorded;
  }

  lemma RecordShows(buf: seq<nat>, cell: nat, rec: seq<nat>)
    requires Shows(buf, cell, rec)
    ensures Shows(buf[cell := buf[cell] + 1], cell, Bump(rec))
  {
    var n, m := |rec|, Least(|rec|, |buf|);
    var buf', rec' := buf[cell := buf[cell] + 1], Bump(rec);
    forall i | 0 <= i < m ensures buf'[..m][i] == rec'[n - m..][i] {
      assert buf[..m][i] == rec[n - m..][i];
    }
  }

  lemma AdvanceShows(buf: seq<nat>, cell: nat, rec: seq<nat>)
    requires Shows(buf, cell, rec) && cell < |buf| - 1
    ensures Shows(buf, cell + 1, rec + [0])
  {
    assert buf[..cell + 2] == buf[..cell + 1] + [0];
    assert (rec + [0])[|rec| - cell - 1..] == rec[|rec| - cell - 1..] + [0];
  }

  lemma ShiftShows(buf: seq<nat>, cell: nat, rec: seq<nat>)
    requires Shows(buf, cell, rec) && cell == |buf| - 1
    ensures Shows(buf[1..] + [0], cell, rec + [0])
  {
    var k := |buf|;
    assert buf == buf[..k] == rec[|rec| - k..];
    assert buf[1..] + [0] == (rec + [0])[|rec| + 1 - k..];
    assert (buf[1..] + [0])[..k] == buf[1..] + [0];
  }

  lemma MutexFreeRefines(s: State, step: Step)
    requires Refines(s) && Enabled(s, step) && (step.Record? || step.Lock?)
    ensures Refines(Apply(s, step))
  {
    if step.Record? {
      RecordShows(s.buf, s.cell, s.recorded);
    } else {
      assert (s.recorded + [0])[..|s.recorded|] == s.recorded;
    }
  }

  lemma TickerRefines(s: State, step: Step)
    requires Refines(s) && Enabled(s, step) && (step.Advance? || step.Shift?)
    ensures Refines(Apply(s, step))
  {
    var shown := s.recorded[..|s.recorded| - 1];
    assert s.recorded == shown + [0];
    if step.Advance? {
      AdvanceShows(s.buf, s.cell, shown);
    } else {
      ShiftShows(s.buf, s.cell, shown);
    }
  }

  lemma OtherRefines(s: State, step: Step)
    requires Refines(s) && Enabled(s, step)
    requires step.Acquire? || step.BeginPosting? || step.Post? || step.Unlock?
    ensures Refines(Apply(s, step))
  {
  }

  lemma StepRefines(s: State, step: Step)
    requires Refines(s) && Enabled(s, step)
    ensures Refines(Apply(s, step))
  {
    match step {
      case Record(_) => MutexFreeRefines(s, step);
      case Lock => MutexFreeRefines(s, step);
      case Advance => TickerRefines(s, step);
      case Shift => TickerRefines(s, step);
      case _ => OtherRefines(s, step);
    }
  }

  lemma StepConserves(s: State, step: Step, capacity: nat)
    requires Refines(s) && Conserves(s, capacity) && Enabled(s, step)
    ensures Conserves(Apply(s, step), capacity)
  {
    match step {
      case Record(w) => SumUpdate(s.buf, s.cell, s.buf[s.cell] + 1);
      case Shift => SumSnoc(s.buf[1..], 0);
      case _ =>
    }
  }

  lemma BumpSum(h: seq<nat>)
    requires h != []
    ensures Sum(Bump(h)) == Sum(h) + 1
  {
    SumUpdate(h, |h| - 1, h[|h| - 1] + 1);
  }

  lemma BumpPrefix(h: seq<nat>, k: nat)
    requires k < |h|
    ensures Bump(h)[..k] == h[..k]
  {
  }

  lemma StepOrdered(s: State, step: Step)
    requires Ordered(s) && Enabled(s, step)
    ensures Ordered(Apply(s, step))
  {
    var t := Apply(s, step);
    match step {
      case Acquire(w) =>
        BumpSum(s.acquired);
        WholePrefix(s, t);
      case Record(w) =>
        BumpSum(s.recorded);
        WholePrefix(s, t);
      case Lock =>
        SumSnoc(s.recorded, 0);
        SumSnoc(s.acquired, 0);
        forall k | 0 <= k <= |t.recorded| ensures Sum(t.recorded[..k]) <= Sum(t.acquired[..k]) {
          if k <= |s.recorded| {
            assert t.recorded[..k] == s.recorded[..k] && t.acquired[..k] == s.acquired[..k];
          } else {
            assert t.recorded[..k] == t.recorded && t.acquired[..k] == t.acquired;
          }
        }
      case _ =>
    }
  }

  /** Histories that differ in the last interval only stay ordered if their totals are. */
  lemma WholePrefix(s: State, t: State)
    requires Ordered(s) && s.recorded != []
    requires t.recorded == s.recorded || t.recorded == Bump(s.recorded)
    requires t.acquired == s.acquired || t.acquired == Bump(s.acquired)
    requires Sum(t.acquired) == Sum(t.recorded) + |t.inFlight|
    ensures Ordered(t)
  {
    forall k | 0 <= k <= |t.recorded| ensures Sum(t.recorded[..k]) <= Sum(t.acquired[..k]) {
      if k == |t.recorded| {
        assert t.recorded[..k] == t.recorded && t.acquired[..k] == t.acquired;
      } else {
        BumpPrefix(s.recorded, k);
        BumpPrefix(s.acquired, k);
        assert Sum(s.recorded[..k]) <= Sum(s.acquired[..k]);
      }
    }
  }

  /** Cells that show a history hold at least every window of it that they reach. */
  lemma ShownSum(buf: seq<nat>, cell: nat, rec: seq<nat>, a: nat)
    requires Shows(buf, cell, rec) && a <= |rec| <= a + |buf|
    ensures Sum(rec[a..]) <= Sum(buf)
    ensures a <= |rec| < a + |buf| && cell == |buf| - 1 ==> Sum(rec[a..]) + buf[0] <= Sum(buf)
  {
    var m := Least(|rec|, |buf|);
    var tail := rec[|rec| - m..];
    var skip := a - (|rec| - m);
    SumPadded(buf, m);
    SumSplit(tail, skip);
    assert tail[skip..] == rec[a..];
    if |rec| < a + |buf| && cell == |buf| - 1 {
      assert tail[..skip][0] == tail[0] == buf[..m][0];
    }
  }

  /** What the recorded counts of a window that reaches the current interval add up to. */
  lemma RecentRecorded(s: State, a: nat)
    requires Refines(s) && a <= |s.recorded| <= a + |s.buf|
    ensures Sum(s.recorded[a..]) + Posted(s) <= Sum(s.buf)
  {
    var n := |s.recorded|;
    if s.phase == Idle || s.phase == Done {
      ShownSum(s.buf, s.cell, s.recorded, a);
    } else if a < n {
      var shown := s.recorded[..n - 1];
      ShownSum(s.buf, s.cell, shown, a);
      assert s.recorded[a..] == shown[a..] + [0];
      SumSnoc(shown[a..], 0);
    } else {
      assert s.recorded[a..] == [];
      if s.phase.Posting? {
        assert Sum(s.buf) == s.buf[0] + Sum(s.buf[1..]);
      }
    }
  }

  /** The bound for every window that reaches the current interval. */
  lemma CurrentWindow(s: State, capacity: nat, a: nat)
    requires Refines(s) && Conserves(s, capacity) && Ordered(s)
    requires a <= |s.acquired| <= a + |s.buf|
    ensures Sum(s.acquired[a..]) <= capacity
  {
    RecentRecorded(s, a);
    SumSplit(s.acquired, a);
    SumSplit(s.recorded, a);
  }

  /** A window that ended before the current interval is not touched by any step. */
  lemma OldWindow(s: State, step: Step, a: nat)
    requires Enabled(s, step) && s.buf != []
    requires var t := Apply(s, step); a + |t.buf| < |t.acquired|
    ensures a <= |s.acquired|
    ensures From(Apply(s, step).acquired, a, |s.buf|) == From(s.acquired, a, |s.buf|)
  {
  }

  lemma KeepsWindowBound(s: State, t: State, capacity: nat)
    requires WindowBound(s, capacity) && |t.buf| == |s.buf|
    requires forall a | 0 <= a <= |t.acquired| && a + |t.buf| < |t.acquired| ::
               a <= |s.acquired| && From(t.acquired, a, |t.buf|) == From(s.acquired, a, |s.buf|)
    requires Refines(t) && Conserves(t, capacity) && Ordered(t)
    ensures WindowBound(t, capacity)
  {
    forall a | 0 <= a <= |t.acquired| ensures Sum(From(t.acquired, a, |t.buf|)) <= capacity {
      if |t.acquired| <= a + |t.buf| {
        CurrentWindow(t, capacity, a);
        assert From(t.acquired, a, |t.buf|) == t.acquired[a..];
      } else {
        var w := From(t.acquired, a, |t.buf|);
        assert Sum(From(s.acquired, a, |s.buf|)) <= capacity;
      }
    }
  }

  lemma StepInv(s: State, step: Step, eps: nat, timeframe: nat)
    requires Inv(s, eps, timeframe) && Enabled(s, step)
    ensures Inv(Apply(s, step), eps, timeframe)
  {
    StepRefines(s, step);
    StepConserves(s, step, eps * timeframe);
    StepOrdered(s, step);
    forall a: nat | a + |s.buf| < |Apply(s, step).acquired|
      ensures a <= |s.acquired| && From(Apply(s, step).acquired, a, |s.buf|) == From(s.acquired, a, |s.buf|)
    {
      OldWindow(s, step, a);
    }
    KeepsWindowBound(s, Apply(s, step), eps * timeframe);
  }

  lemma {:induction false} RunInv(s: State, steps: seq<Step>, eps: nat, timeframe: nat)
    requires Inv(s, eps, timeframe) && Legal(s, steps)
    ensures Inv(Run(s, steps), eps, timeframe)
    decreases |steps|
  {
    if steps != [] {
      StepInv(s, steps[0], eps, timeframe);
      RunInv(Apply(s, steps[0]), steps[1..], eps, timeframe);
    }
  }

  // ---- Main results, for every run from the loaded state

  /** No timeframe consecutive intervals contain more than eps * timeframe acquired credits. */
  lemma SlidingWindowBound(eps: nat, timeframe: nat, steps: seq<Step>, a: nat, b: nat)
    requires 0 < timeframe && Legal(Init(eps, timeframe), steps)
    requires a <= b <= |Run(Init(eps, timeframe), steps).acquired| && b - a <= timeframe
    ensures Sum(Run(Init(eps, timeframe), steps).acquired[a..b]) <= eps * timeframe
  {
    InitInv(eps, timeframe);
    RunInv(Init(eps, timeframe), steps, eps, timeframe);
    WithinWindow(Run(Init(eps, timeframe), steps), eps * timeframe, a, b);
  }

  lemma WithinWindow(s: State, capacity: nat, a: nat, b: nat)
    requires WindowBound(s, capacity) && a <= b <= |s.acquired| && b <= a + |s.buf|
    ensures Sum(s.acquired[a..b]) <= capacity
  {
    var w := From(s.acquired, a, |s.buf|);
    SumSplit(w, b - a);
    assert w[..b - a] == s.acquired[a..b];
  }

  /** The capacity is met by some run, so no smaller bound holds. */
  lemma {:induction false} BoundIsAttained(eps: nat, timeframe: nat, k: nat)
    requires 0 < timeframe && k <= eps * timeframe
    ensures exists steps ::
      && Legal(Init(eps, timeframe), steps)
      && Sum(Run(Init(eps, timeframe), steps).acquired) == k
      && |Run(Init(eps, timeframe), steps).acquired| == 1
  {
    var steps := Grab(Init(eps, timeframe), 0, k);
    assert Legal(Init(eps, timeframe), steps);
  }

  lemma {:induction false} Grab(s: State, from: nat, k: nat) returns (steps: seq<Step>)
    requires k <= s.credits && |s.acquired| == 1
    requires forall w | from <= w :: w !in s.inFlight
    ensures Legal(s, steps)
    ensures var t := Run(s, steps); |t.acquired| == 1 && Sum(t.acquired) == Sum(s.acquired) + k
    decreases k
  {
    if k == 0 {
      steps := [];
    } else {
      var t := Apply(s, Acquire(from));
      BumpSum(s.acquired);
      var rest := Grab(t, from + 1, k - 1);
      steps := [Acquire(from)] + rest;
      assert steps[1..] == rest;
    }
  }

  /** What the cells mean between ticks, and exactly when a worker blocks. */
  lemma CellsAndBlocking(eps: nat, timeframe: nat, steps: seq<Step>)
    requires 0 < timeframe && Legal(Init(eps, timeframe), steps)
    requires Run(Init(eps, timeframe), steps).phase == Idle
    ensures var s := Run(Init(eps, timeframe), steps);
      var m := Least(|s.recorded|, timeframe);
      && |s.buf| == timeframe
      && s.cell == m - 1
      && s.buf[..m] == s.recorded[|s.recorded| - m..]
      && (forall i | m <= i < timeframe :: s.buf[i] == 0)
      && (s.credits == 0 <==> Sum(s.recorded[|s.recorded| - m..]) + |s.inFlight| == eps * timeframe)
  {
    InitInv(eps, timeframe);
    RunInv(Init(eps, timeframe), steps, eps, timeframe);
    var s := Run(Init(eps, timeframe), steps);
    SumPadded(s.buf, Least(|s.recorded|, timeframe));
  }

  /** No cell ever outgrows the capacity, so the unsigned counters cannot wrap. */
  lemma NoCounterWraps(eps: nat, timeframe: nat, steps: seq<Step>, i: nat)
    requires 0 < timeframe <= L.MAX_TIMEFRAME && eps <= L.MAX_EPS && i < timeframe
    requires Legal(Init(eps, timeframe), steps)
    ensures var s := Run(Init(eps, timeframe), steps);
      i < |s.buf| && s.buf[i] <= L.SEM_VALUE_MAX && s.credits <= L.SEM_VALUE_MAX
  {
    InitInv(eps, timeframe);
    RunInv(Init(eps, timeframe), steps, eps, timeframe);
    L.CapacityFits(eps, timeframe);
    var s := Run(Init(eps, timeframe), steps);
    SumSplit(s.buf, i);
  }

  // ---- Recovery

  ghost predicate NoAcquire(steps: seq<Step>) {
    forall i | 0 <= i < |steps| :: !steps[i].Acquire?
  }

  lemma QuietStep(s: State, step: Step)
    requires Enabled(s, step) && !step.Acquire? && s.inFlight == {}
    ensures var t := Apply(s, step); t.inFlight == {} && (t.recorded == s.recorded || t.recorded == s.recorded + [0])
  {
  }

  ghost predicate OnlyZerosAdded(h: seq<nat>, h': seq<nat>) {
    h <= h' && forall i | |h| <= i < |h'| :: h'[i] == 0
  }

  /** Without acquisitions and with nothing in flight, the history only gains zeros. */
  lemma {:induction false} QuietRun(s: State, steps: seq<Step>)
    requires Legal(s, steps) && NoAcquire(steps) && s.inFlight == {}
    ensures Run(s, steps).inFlight == {}
    ensures OnlyZerosAdded(s.recorded, Run(s, steps).recorded)
    decreases |steps|
  {
    if steps != [] {
      QuietStep(s, steps[0]);
      QuietRun(Apply(s, steps[0]), steps[1..]);
    }
  }

  /** timeframe ticks without acquisitions give every credit back, however they interleave. */
  lemma Recovery(eps: nat, timeframe: nat, before: seq<Step>, quiet: seq<Step>)
    requires 0 < timeframe && Legal(Init(eps, timeframe), before)
    requires var s := Run(Init(eps, timeframe), before);
      && s.inFlight == {} && NoAcquire(quiet) && Legal(s, quiet)
      && Run(s, quiet).phase == Idle
      && |Run(s, quiet).recorded| >= |s.recorded| + timeframe
    ensures Run(Run(Init(eps, timeframe), before), quiet).credits == eps * timeframe
  {
    InitInv(eps, timeframe);
    RunInv(Init(eps, timeframe), before, eps, timeframe);
    var s := Run(Init(eps, timeframe), before);
    QuietRun(s, quiet);
    RunInv(s, quiet, eps, timeframe);
    var t := Run(s, quiet);
    var m := Least(|t.recorded|, timeframe);
    assert forall i | 0 <= i < m :: t.buf[..m][i] == t.recorded[|t.recorded| - m..][i];
    SumZeros(t.buf);
  }

  /** The ticker is never stuck: from the free mutex its own steps alone complete one Tick. */
  lemma TickerCompletes(s: State) returns (steps: seq<Step>)
    requires s.phase == Idle && s.buf != [] && s.cell < |s.buf|
    ensures Legal(s, steps) && NoAcquire(steps)
    ensures var t := Run(s, steps);
      && t.phase == Idle && |t.recorded| == |s.recorded| + 1
      && L.Window(t.credits, t.cell, t.buf) == L.Tick(L.Window(s.credits, s.cell, s.buf))
  {
    var a := Apply(s, Lock);
    if s.cell < |s.buf| - 1 {
      steps := [Lock, Advance, Unlock];
      var b := Apply(a, Advance);
      assert steps[1..] == [Advance, Unlock] && steps[1..][1..] == [Unlock] && [Unlock][1..] == [];
      assert Legal(b, [Unlock]);
    } else {
      var b := Apply(a, BeginPosting);
      var rest := PostAll(b);
      steps := [Lock, BeginPosting] + rest;
      assert steps[1..] == [BeginPosting] + rest && steps[1..][1..] == rest;
      assert Legal(a, steps[1..]);
    }
  }

  lemma {:induction false} PostAll(s: State) returns (steps: seq<Step>)
    requires s.phase.Posting? && s.buf != [] && s.phase.posted <= s.buf[0]
    ensures Legal(s, steps) && NoAcquire(steps)
    ensures Run(s, steps) ==
      s.(phase := Idle, credits := s.credits + s.buf[0] - s.phase.posted, buf := s.buf[1..] + [0])
    decreases s.buf[0] - s.phase.posted
  {
    if s.phase.posted == s.buf[0] {
      steps := [Shift, Unlock];
      var t := Apply(s, Shift);
      assert steps[1..] == [Unlock] && [Unlock][1..] == [];
      assert Legal(t, [Unlock]);
    } else {
      var rest := PostAll(Apply(s, Post));
      steps := [Post] + rest;
      assert steps[1..] == rest;
    }
  }
}
