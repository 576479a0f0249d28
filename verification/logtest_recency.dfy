/**
 * What runs of logtest requests do to the table, said on their steps: when each session was
 * last asked for, which session a registration evicts, and what a sweep or a removal takes out.
 */
module LogtestRecency {
  import opened Options
  import opened LogtestSessions
  import opened LogtestProtocol

  // ---- The last request, read off the steps

  /** The token that came with the latest log request of a worker. */
  function Asked(steps: seq<Step>, t: Thread): Option<Token> {
    if steps == [] then None
    else
      var n := |steps| - 1;
      if steps[n].AskLog? && steps[n].t == t then steps[n].token else Asked(steps[..n], t)
  }

  /** Step i creates session x, or is where a worker that was asked for x has obtained it. */
  predicate Uses(steps: seq<Step>, i: nat, x: Token)
    requires i < |steps|
  {
    || (steps[i].Create? && steps[i].id == x)
    || (steps[i].Lock? && Asked(steps[..i], steps[i].t) == Some(x))
  }

  /** Step i is the last one that creates x or obtains it, and now is the time it carries. */
  ghost predicate LastUse(steps: seq<Step>, x: Token, i: nat, now: int) {
    && i < |steps| && Uses(steps, i, x) && steps[i].now == now
    && forall j | i < j < |steps| :: !Uses(steps, j, x)
  }

  ghost predicate LastUsedAt(steps: seq<Step>, x: Token, now: int) {
    exists i: nat :: LastUse(steps, x, i, now)
  }

  lemma UsesBefore(steps: seq<Step>, step: Step, i: nat, x: Token)
    requires i < |steps|
    ensures Uses(steps + [step], i, x) <==> Uses(steps, i, x)
  {
    assert (steps + [step])[..i] == steps[..i];
  }

  lemma AskedSnoc(steps: seq<Step>, step: Step, t: Thread)
    ensures Asked(steps + [step], t) == if step.AskLog? && step.t == t then step.token else Asked(steps, t)
  {
    assert (steps + [step])[..|steps|] == steps;
  }

  /** A step that does not use x leaves its last use. */
  lemma NotUsed(steps: seq<Step>, step: Step, x: Token, now: int)
    requires LastUsedAt(steps, x, now) && !Uses(steps + [step], |steps|, x)
    ensures LastUsedAt(steps + [step], x, now)
  {
    var i: nat :| LastUse(steps, x, i, now);
    forall j | i <= j < |steps| ensures Uses(steps + [step], j, x) <==> Uses(steps, j, x) {
      UsesBefore(steps, step, j, x);
    }
    assert LastUse(steps + [step], x, i, now);
  }

  lemma UsedNow(steps: seq<Step>, step: Step, x: Token)
    requires Uses(steps + [step], |steps|, x)
    ensures LastUsedAt(steps + [step], x, step.now)
  {
    assert LastUse(steps + [step], x, |steps|, step.now);
  }

  // ---- The table shows it

  /** Workers serve what they were asked for; sessions carry the time of their last use. */
  ghost predicate Tracks(s: State, done: seq<Step>) {
    && (forall t: Thread | t < |s.pc| && (s.pc[t].Seeking? || s.pc[t].Locking?) :: Asked(done, t) == Some(s.pc[t].x))
    && (forall t: Thread, x | t < |s.pc| && Built(s.pc[t], x) :: LastUsedAt(done, x, s.pc[t].last))
    && (forall x | x in s.table :: LastUsedAt(done, x, s.table[x]))
  }

  /** What the next step uses. */
  lemma StepUses(s: State, done: seq<Step>, step: Step, x: Token)
    requires Enabled(s, step) && Tracks(s, done)
    ensures Uses(done + [step], |done|, x) <==>
      (step.Create? && step.id == x) || (step.Lock? && s.pc[step.t].x == x)
  {
    assert (done + [step])[..|done|] == done;
  }

  lemma StepAsked(s: State, done: seq<Step>, step: Step, t: Thread)
    requires Enabled(s, step) && Tracks(s, done) && t < |s.pc|
    requires var p := Apply(s, step).pc[t]; p.Seeking? || p.Locking?
    ensures Asked(done + [step], t) == Some(Apply(s, step).pc[t].x)
  {
    AskedSnoc(done, step, t);
  }

  lemma StepBuiltUse(s: State, done: seq<Step>, step: Step, t: Thread, x: Token)
    requires Inv(s) && Enabled(s, step) && Tracks(s, done) && t < |s.pc| && Built(Apply(s, step).pc[t], x)
    ensures LastUsedAt(done + [step], x, Apply(s, step).pc[t].last)
  {
    StepUses(s, done, step, x);
    BuiltBefore(s, step, t, x);
    assert ThreadOk(s, t) && ThreadOk(s, step.t);
    hide Uses, LastUsedAt;
    if step.Create? && step.t == t {
      UsedNow(done, step, x);
    } else {
      NotUsed(done, step, x, s.pc[t].last);
    }
  }

  lemma StepTableUse(s: State, done: seq<Step>, step: Step, x: Token)
    requires Inv(s) && Enabled(s, step) && Tracks(s, done) && x in Apply(s, step).table
    ensures LastUsedAt(done + [step], x, Apply(s, step).table[x])
  {
    StepUses(s, done, step, x);
    assert ThreadOk(s, step.t);
    hide Uses, LastUsedAt;
    if step.Lock? && s.pc[step.t].x == x {
      UsedNow(done, step, x);
    } else {
      assert x in s.table || Built(s.pc[step.t], x);
      NotUsed(done, step, x, Apply(s, step).table[x]);
    }
  }

  lemma StepTracks(s: State, done: seq<Step>, step: Step)
    requires Inv(s) && Enabled(s, step) && Tracks(s, done)
    ensures Tracks(Apply(s, step), done + [step])
  {
    hide Inv, Enabled, Apply, LastUsedAt, Asked;
    var u := Apply(s, step);
    StepInv(s, step);
    SameWorkers(s, step);
    forall t: Thread | t < |u.pc| && (u.pc[t].Seeking? || u.pc[t].Locking?)
      ensures Asked(done + [step], t) == Some(u.pc[t].x)
    {
      StepAsked(s, done, step, t);
    }
    forall t: Thread, x | t < |u.pc| && Built(u.pc[t], x) ensures LastUsedAt(done + [step], x, u.pc[t].last) {
      StepBuiltUse(s, done, step, t, x);
    }
    forall x | x in u.table ensures LastUsedAt(done + [step], x, u.table[x]) {
      StepTableUse(s, done, step, x);
    }
  }

  lemma SameWorkers(s: State, step: Step)
    requires Enabled(s, step)
    ensures |Apply(s, step).pc| == |s.pc|
  {
  }

  lemma {:induction false} RunTracks(s: State, done: seq<Step>, steps: seq<Step>)
    requires Inv(s) && Legal(s, steps) && Tracks(s, done)
    ensures Tracks(Run(s, steps), done + steps)
    decreases |steps|
  {
    hide Inv, Enabled, Apply, Tracks;
    if steps == [] {
      assert done + steps == done;
    } else {
      StepTracks(s, done, steps[0]);
      StepInv(s, steps[0]);
      RunTracks(Apply(s, steps[0]), done + [steps[0]], steps[1..]);
      assert done + [steps[0]] + steps[1..] == done + steps;
    }
  }

  /** After every run, the time of a session is that of the last step that created or obtained it. */
  lemma TimesAreLastUses(max: nat, workers: nat, steps: seq<Step>)
    requires Legal(Init(max, workers), steps)
    ensures var table := Run(Init(max, workers), steps).table;
            forall x | x in table :: LastUsedAt(steps, x, table[x])
  {
    InitInv(max, workers);
    assert Tracks(Init(max, workers), []);
    RunTracks(Init(max, workers), [], steps);
    assert [] + steps == steps;
  }

  lemma LastUseIsOne(steps: seq<Step>, x: Token, a: int, b: int)
    requires LastUsedAt(steps, x, a) && LastUsedAt(steps, x, b)
    ensures a == b
  {
    var i: nat :| LastUse(steps, x, i, a);
    var j: nat :| LastUse(steps, x, j, b);
    assert !(i < j) && !(j < i);
  }

  /** The session that a registration evicts leaves the table, and no other was last asked for before it. */
  lemma EvictsLeastRecent(max: nat, workers: nat, steps: seq<Step>, t: Thread)
    requires Legal(Init(max, workers), steps) && Enabled(Run(Init(max, workers), steps), Evict(t))
    ensures var s := Run(Init(max, workers), steps); var v := s.pc[t].victim;
            && v in s.table && v !in Apply(s, Evict(t)).table
            && forall y, a, b | y in s.table && LastUsedAt(steps, v, a) && LastUsedAt(steps, y, b) :: a <= b
  {
    InitInv(max, workers);
    RunInv(Init(max, workers), steps);
    TimesAreLastUses(max, workers, steps);
    var s := Run(Init(max, workers), steps);
    assert ThreadOk(s, t);
    var v := s.pc[t].victim;
    hide LastUsedAt, Run, Legal;
    forall y, a, b | y in s.table && LastUsedAt(steps, v, a) && LastUsedAt(steps, y, b) ensures a <= b {
      LastUseIsOne(steps, v, a, s.table[v]);
      LastUseIsOne(steps, y, b, s.table[y]);
    }
  }

  // ---- Who leaves the table

  ghost predicate NotBy(steps: seq<Step>, t: Thread) {
    forall i | 0 <= i < |steps| :: steps[i].t != t
  }

  lemma {:induction false} StaysPut(s: State, steps: seq<Step>, t: Thread)
    requires Inv(s) && Legal(s, steps) && NotBy(steps, t) && t < |s.pc|
    ensures Inv(Run(s, steps)) && t < |Run(s, steps).pc| && Run(s, steps).pc[t] == s.pc[t]
    decreases |steps|
  {
    hide Inv;
    if steps != [] {
      StepInv(s, steps[0]);
      StaysPut(Apply(s, steps[0]), steps[1..], t);
    }
  }

  /**
   * A remove request: when its turn comes, after whatever other workers did meanwhile, its session leaves the table
   * unless somebody uses it, no other session does, and a session that has left is freed and no longer counted.
   */
  lemma RemovesUnlessInUse(s: State, t: Thread, x: Token, others: seq<Step>)
    requires Inv(s) && Enabled(s, AskRemove(t, x))
    requires Legal(Apply(s, AskRemove(t, x)), others) && NotBy(others, t)
    requires Enabled(Run(Apply(s, AskRemove(t, x)), others), Drop(t))
    ensures var u := Run(Apply(s, AskRemove(t, x)), others); var after := Apply(u, Drop(t));
            && (x in after.table <==> x in u.table && x in u.owner)
            && (forall y | y != x :: (y in after.table <==> y in u.table) && (y in after.live <==> y in u.live))
            && (forall y | y in after.table :: after.table[y] == u.table[y])
            && (x in u.table && x !in u.owner ==> x !in after.live)
            && after.active == |after.table|
  {
    StepInv(s, AskRemove(t, x));
    StaysPut(Apply(s, AskRemove(t, x)), others, t);
    var u := Run(Apply(s, AskRemove(t, x)), others);
    StepInv(u, Drop(t));
    hide Legal, Run;
    assert u.pc[t] == Dropping(x);
  }

  /** The visit that a sweep pays to x finds it recently used, or in use. */
  ghost predicate Spared(s: State, steps: seq<Step>, t: Thread, x: Token)
    requires Legal(s, steps)
    decreases |steps|
  {
    steps != [] &&
    (SparedBy(s, steps[0], t, x) || Spared(Apply(s, steps[0]), steps[1..], t, x))
  }

  ghost predicate SparedBy(s: State, step: Step, t: Thread, x: Token) {
    step.Visit? && step.t == t && step.x == x && (!step.expired || x in s.owner)
  }

  /** What one step does while worker t sweeps. */
  lemma SweepStep(s: State, step: Step, t: Thread, x: Token)
    requires Inv(s) && Enabled(s, step) && t < |s.pc| && s.pc[t].Sweeping? && step != SweepDone(t)
    ensures var u := Apply(s, step);
            && t < |u.pc| && u.pc[t].Sweeping? && u.pc[t].rest <= s.pc[t].rest
            && (x in u.table ==> x in s.table && u.table[x] == s.table[x])
            && (SparedBy(s, step, t, x) ==> x in s.pc[t].rest && x !in u.pc[t].rest)
            && (x in s.pc[t].rest && x !in u.pc[t].rest ==> (x in u.table <==> SparedBy(s, step, t, x)))
            && ((x in s.pc[t].rest <==> x in u.pc[t].rest) ==> (x in u.table <==> x in s.table))
  {
    assert ThreadOk(s, t) && ThreadOk(s, step.t);
  }

  lemma {:induction false} SweepRun(s: State, steps: seq<Step>, t: Thread, x: Token)
    requires Inv(s) && Legal(s, steps) && t < |s.pc| && s.pc[t].Sweeping? && SweepDone(t) !in steps
    ensures var u := Run(s, steps);
            && Inv(u) && t < |u.pc| && u.pc[t].Sweeping? && u.pc[t].rest <= s.pc[t].rest
            && (x in u.table ==> x in s.table && u.table[x] == s.table[x])
            && (x !in s.pc[t].rest ==> !Spared(s, steps, t, x) && (x in u.table <==> x in s.table))
            && (x in s.pc[t].rest && x !in u.pc[t].rest ==> (x in u.table <==> Spared(s, steps, t, x)))
    decreases |steps|
  {
    hide Inv, Enabled, Apply, SparedBy;
    if steps != [] {
      SweepStep(s, steps[0], t, x);
      StepInv(s, steps[0]);
      SweepRun(Apply(s, steps[0]), steps[1..], t, x);
    }
  }

  /**
   * A sweep, whatever other workers do meanwhile: the sessions left at its end are those that were there at its start
   * and that it found recently used or in use, with their times unchanged.
   */
  lemma SweepsExactly(s: State, t: Thread, steps: seq<Step>)
    requires Inv(s) && Enabled(s, AskSweep(t)) && Legal(Apply(s, AskSweep(t)), steps) && SweepDone(t) !in steps
    requires Enabled(Run(Apply(s, AskSweep(t)), steps), SweepDone(t))
    ensures var begun := Apply(s, AskSweep(t)); var after := Apply(Run(begun, steps), SweepDone(t));
            && (forall x :: x in after.table <==> x in s.table && Spared(begun, steps, t, x))
            && (forall x | x in after.table :: after.table[x] == s.table[x])
            && after.active == |after.table| && after.lock.None?
  {
    var begun := Apply(s, AskSweep(t));
    StepInv(s, AskSweep(t));
    var u := Run(begun, steps);
    SweepRun(begun, steps, t, 0);
    StepInv(u, SweepDone(t));
    assert u.table == Apply(u, SweepDone(t)).table;
    hide Inv, Legal, Run, Spared;
    forall x
      ensures x in u.table <==> x in s.table && Spared(begun, steps, t, x)
      ensures x in u.table ==> x in s.table && u.table[x] == s.table[x]
    {
      SweepRun(begun, steps, t, x);
    }
  }
}
