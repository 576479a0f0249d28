/**
 * The logtest sessions under concurrent requests. The table lock guards the table and the
 * client counter; each session has a mutex that a request holds while it uses the session.
 * A mutex is always taken while the table lock is held, and kept after the lock is released.
 */
module LogtestProtocol {
  import opened Options
  import opened Sums
  import opened LogtestSessions

  type Thread = nat

  /** Where a worker stands. x is the session it serves, last the time the session was created. */
  datatype Pc =
    | Idle
    | Seeking(x: Token)                              // a log request with a token, before the table lock
    | Locking(x: Token)                              // holds the table lock, waits for the mutex of x
    | Creating                                       // no such session: builds a new one
    | Enrolling(x: Token, last: int)                 // built it; before the table lock
    | Registering(x: Token, last: int)               // holds the table lock and the mutex of x
    | Evicting(x: Token, last: int, victim: Token)   // counted x; waits for the mutex of victim
    | Processing(x: Token)                           // holds the mutex of x only
    | Dropping(x: Token)                             // a remove request, before the table lock
    | Sweeping(rest: set<Token>)                     // holds the table lock, has rest still to visit

  datatype State = State(
    max: nat,
    pc: seq<Pc>,
    table: map<Token, int>,
    active: int,
    lock: Option<Thread>,
    owner: map<Token, Thread>,      // who locked each mutex that is locked
    live: set<Token>,               // sessions allocated and not freed
    leaked: set<Token>)             // sessions whose request returned without unlocking

  datatype Step =
    | AskLog(t: Thread, token: Option<Token>)
    | Lookup(t: Thread)
    | Lock(t: Thread, now: int)
    | Create(t: Thread, id: Token, now: int)
    | CreateFails(t: Thread)
    | Enrol(t: Thread)
    | Register(t: Thread, victim: Token)
    | Evict(t: Thread)
    | Finish(t: Thread)
    | Abandon(t: Thread)            // an error message was present when the session was obtained
    | AskRemove(t: Thread, x: Token)
    | Drop(t: Thread)
    | AskSweep(t: Thread)
    | Visit(t: Thread, x: Token, expired: bool)
    | SweepDone(t: Thread)

  function Init(max: nat, workers: nat): State {
    State(max, seq(workers, _ => Idle), map[], 0, None, map[], {}, {})
  }

  predicate MustEvict(s: State) {
    s.active + 1 > s.max && s.table != map[]
  }

  ghost predicate Enabled(s: State, step: Step) {
    step.t < |s.pc| &&
    var p := s.pc[step.t];
    match step
    case AskLog(_, _) => p.Idle?
    case Lookup(_) => p.Seeking? && s.lock.None?
    case Lock(_, _) => p.Locking? && p.x in s.table && p.x !in s.owner
    case Create(_, id, _) => p.Creating? && id !in s.live
    case CreateFails(_) => p.Creating?
    case Enrol(_) => p.Enrolling? && s.lock.None? && p.x !in s.owner
    case Register(_, victim) => p.Registering? && (MustEvict(s) ==> IsOldest(s.table, victim))
    case Evict(_) => p.Evicting? && p.victim !in s.owner
    case Finish(_) => p.Processing?
    case Abandon(_) => p.Processing?
    case AskRemove(_, _) => p.Idle?
    case Drop(_) => p.Dropping? && s.lock.None?
    case AskSweep(_) => p.Idle? && s.lock.None?
    case Visit(_, x, _) => p.Sweeping? && x in p.rest
    case SweepDone(_) => p.Sweeping? && p.rest == {}
  }

  /** w_logtest_remove_session with the decrement of the counter that follows it. */
  function Remove(s: State, x: Token): State {
    s.(table := Without(s.table, x), live := s.live - {x}, active := s.active - 1)
  }

  function Goto(s: State, t: Thread, p: Pc): State
    requires t < |s.pc|
  {
    s.(pc := s.pc[t := p])
  }

  ghost function Apply(s: State, step: Step): State
    requires Enabled(s, step)
  {
    var t := step.t;
    var p := s.pc[t];
    match step
    case AskLog(_, token) => Goto(s, t, if token.Some? then Seeking(token.value) else Creating)
    case Lookup(_) => if p.x in s.table then Goto(s, t, Locking(p.x)).(lock := Some(t)) else Goto(s, t, Creating)
    case Lock(_, now) => Goto(s, t, Processing(p.x)).(owner := s.owner[p.x := t], table := s.table[p.x := now],
        lock := None)
    case Create(_, id, now) => Goto(s, t, Enrolling(id, now)).(live := s.live + {id})
    case CreateFails(_) => Goto(s, t, Idle)
    case Enrol(_) => Goto(s, t, Registering(p.x, p.last)).(lock := Some(t), owner := s.owner[p.x := t])
    case Register(_, victim) =>
      var u := s.(active := s.active + 1);
      if MustEvict(s) then Goto(u, t, Evicting(p.x, p.last, victim))
      else Goto(u, t, Processing(p.x)).(table := s.table[p.x := p.last], lock := None)
    case Evict(_) =>
      var u := Remove(s, p.victim);
      Goto(u, t, Processing(p.x)).(table := u.table[p.x := p.last], lock := None)
    case Finish(_) => Goto(s, t, Idle).(owner := s.owner - {p.x})
    case Abandon(_) => Goto(s, t, Idle).(leaked := s.leaked + {p.x})
    case AskRemove(_, x) => Goto(s, t, Dropping(x))
    case Drop(_) => Goto(if p.x in s.table && p.x !in s.owner then Remove(s, p.x) else s, t, Idle)
    case AskSweep(_) => Goto(s, t, Sweeping(s.table.Keys)).(lock := Some(t))
    case Visit(_, x, expired) =>
      Goto(if expired && x !in s.owner then Remove(s, x) else s, t, Sweeping(p.rest - {x}))
    case SweepDone(_) => Goto(s, t, Idle).(lock := None)
  }

  ghost predicate Legal(s: State, steps: seq<Step>)
    decreases |steps|
  {
    steps != [] ==> Enabled(s, steps[0]) && Legal(Apply(s, steps[0]), steps[1..])
  }

  ghost function Run(s: State, steps: seq<Step>): State
    requires Legal(s, steps)
    decreases |steps|
  {
    if steps == [] then s else Run(Apply(s, steps[0]), steps[1..])
  }

  lemma RunCons(s: State, step: Step, rest: seq<Step>)
    requires Enabled(s, step) && Legal(Apply(s, step), rest)
    ensures Legal(s, [step] + rest) && Run(s, [step] + rest) == Run(Apply(s, step), rest)
  {
    assert ([step] + rest)[1..] == rest;
  }

  lemma {:induction false} RunConcat(s: State, a: seq<Step>, b: seq<Step>)
    requires Legal(s, a) && Legal(Run(s, a), b)
    ensures Legal(s, a + b) && Run(s, a + b) == Run(Run(s, a), b)
    decreases |a|
  {
    if a == [] {
      assert a + b == b;
    } else {
      assert (a + b)[0] == a[0] && (a + b)[1..] == a[1..] + b;
      RunConcat(Apply(s, a[0]), a[1..], b);
    }
  }

  // ---- The invariant

  predicate HoldsTable(p: Pc) {
    p.Locking? || p.Registering? || p.Evicting? || p.Sweeping?
  }

  /** The session p built that is not in the table yet. */
  predicate Built(p: Pc, x: Token) {
    (p.Enrolling? || p.Registering? || p.Evicting?) && p.x == x
  }

  predicate Owns(p: Pc, x: Token) {
    (p.Registering? || p.Evicting? || p.Processing?) && p.x == x
  }

  /** p holds a pointer to the session x. */
  predicate Refers(p: Pc, x: Token) {
    || ((p.Locking? || p.Processing?) && p.x == x)
    || Built(p, x)
    || (p.Evicting? && p.victim == x)
  }

  ghost predicate ThreadOk(s: State, t: Thread)
    requires t < |s.pc|
  {
    var p := s.pc[t];
    && (HoldsTable(p) <==> s.lock == Some(t))
    && (p.Locking? ==> p.x in s.table)
    && (p.Enrolling? ==> p.x in s.live && p.x !in s.table && p.x !in s.owner)
    && (p.Registering? || p.Evicting? ==> p.x in s.live && p.x !in s.table)
    && (p.Registering? || p.Evicting? || p.Processing? ==> p.x in s.owner && s.owner[p.x] == t)
    && (p.Evicting? ==> IsOldest(s.table, p.victim) && |s.table| >= s.max)
    && (p.Processing? ==> p.x in s.table && p.x !in s.leaked)
    && (p.Sweeping? ==> p.rest <= s.table.Keys)
  }

  ghost predicate ThreadsOk(s: State) {
    && (forall t: Thread | t < |s.pc| :: ThreadOk(s, t))
    && (forall t: Thread, u: Thread, x | t < |s.pc| && u < |s.pc| && Built(s.pc[t], x) && Built(s.pc[u], x) :: t == u)
  }

  ghost predicate OwnersOk(s: State) {
    && (forall x | x in s.owner :: x in s.leaked || (s.owner[x] < |s.pc| && Owns(s.pc[s.owner[x]], x)))
    && s.leaked <= s.owner.Keys * s.table.Keys
    && s.table.Keys <= s.live
  }

  /** While an eviction is under way the new client is counted but not yet in the table. */
  ghost predicate CountOk(s: State) {
    && (s.lock.Some? ==> s.lock.value < |s.pc|)
    && s.active == |s.table| + (if s.lock.Some? && s.pc[s.lock.value].Evicting? then 1 else 0)
    && |s.table| <= Room(s.max)
  }

  ghost predicate Inv(s: State) {
    ThreadsOk(s) && OwnersOk(s) && CountOk(s)
  }

  lemma StepActor(s: State, step: Step)
    requires Enabled(s, step) && ThreadOk(s, step.t) && CountOk(s)
    requires s.leaked <= s.table.Keys * s.owner.Keys && s.table.Keys <= s.live && s.owner.Keys <= s.live
    ensures ThreadOk(Apply(s, step), step.t)
  {
  }

  lemma StepOther(s: State, step: Step, t: Thread)
    requires Enabled(s, step) && t < |s.pc| && t != step.t
    requires ThreadOk(s, step.t) && ThreadOk(s, t)
    requires s.table.Keys <= s.live
    requires forall x | Built(s.pc[t], x) :: !Built(s.pc[step.t], x)
    ensures ThreadOk(Apply(s, step), t)
  {
    if s.pc[t].Enrolling? || s.pc[t].Registering? || s.pc[t].Evicting? {
      assert Built(s.pc[t], s.pc[t].x);
    }
  }

  lemma OwnedIsLive(s: State)
    requires ThreadsOk(s) && OwnersOk(s)
    ensures s.owner.Keys <= s.live
  {
    forall x | x in s.owner ensures x in s.live {
      if x !in s.leaked {
        assert ThreadOk(s, s.owner[x]);
      }
    }
  }

  lemma StepThread(s: State, step: Step, t: Thread)
    requires Inv(s) && Enabled(s, step) && t < |s.pc|
    ensures ThreadOk(Apply(s, step), t)
  {
    assert ThreadOk(s, step.t) && ThreadOk(s, t);
    OwnedIsLive(s);
    if t == step.t {
      StepActor(s, step);
    } else {
      StepOther(s, step, t);
    }
  }

  lemma BuiltBefore(s: State, step: Step, t: Thread, x: Token)
    requires Enabled(s, step) && t < |s.pc| && Built(Apply(s, step).pc[t], x)
    ensures Built(s.pc[t], x) || (t == step.t && step.Create? && x !in s.live)
  {
  }

  lemma StepBuilt(s: State, step: Step, t: Thread, u: Thread, x: Token)
    requires ThreadsOk(s) && Enabled(s, step) && t < |s.pc| && u < |s.pc|
    requires Built(Apply(s, step).pc[t], x) && Built(Apply(s, step).pc[u], x)
    ensures t == u
  {
    BuiltBefore(s, step, t, x);
    BuiltBefore(s, step, u, x);
    assert ThreadOk(s, t) && ThreadOk(s, u);
  }

  lemma StepOwners(s: State, step: Step)
    requires Inv(s) && Enabled(s, step)
    ensures OwnersOk(Apply(s, step))
  {
    assert ThreadOk(s, step.t);
  }

  lemma StepCount(s: State, step: Step)
    requires Inv(s) && Enabled(s, step)
    ensures CountOk(Apply(s, step))
  {
    assert ThreadOk(s, step.t);
    var p := s.pc[step.t];
    match step {
      case Lock(_, now) => WithSize(s.table, p.x, now);
      case Register(_, _) => WithSize(s.table, p.x, p.last);
      case Evict(_) =>
        WithoutSize(s.table, p.victim);
        WithSize(Without(s.table, p.victim), p.x, p.last);
      case Drop(_) => if p.x in s.table { WithoutSize(s.table, p.x); }
      case Visit(_, x, _) => WithoutSize(s.table, x);
      case _ =>
    }
  }

  lemma StepInv(s: State, step: Step)
    requires Inv(s) && Enabled(s, step)
    ensures Inv(Apply(s, step))
  {
    var u := Apply(s, step);
    forall t: Thread | t < |u.pc| ensures ThreadOk(u, t) {
      StepThread(s, step, t);
    }
    forall t: Thread, v: Thread, x | t < |u.pc| && v < |u.pc| && Built(u.pc[t], x) && Built(u.pc[v], x) ensures t == v {
      StepBuilt(s, step, t, v, x);
    }
    StepOwners(s, step);
    StepCount(s, step);
  }

  lemma {:induction false} RunInv(s: State, steps: seq<Step>)
    requires Inv(s) && Legal(s, steps)
    ensures Inv(Run(s, steps)) && Run(s, steps).max == s.max && |Run(s, steps).pc| == |s.pc|
    decreases |steps|
  {
    if steps != [] {
      StepInv(s, steps[0]);
      RunInv(Apply(s, steps[0]), steps[1..]);
    }
  }

  lemma InitInv(max: nat, workers: nat)
    ensures Inv(Init(max, workers))
  {
    var s := Init(max, workers);
    forall t: Thread | t < |s.pc| ensures ThreadOk(s, t) {}
  }

  // ---- Safety

  /** Between operations on the table, the counter is the number of sessions and within the limit. */
  lemma TableWithinLimit(max: nat, workers: nat, steps: seq<Step>)
    requires max >= 1 && Legal(Init(max, workers), steps)
    ensures var s := Run(Init(max, workers), steps);
            s.lock.None? ==> s.active == |s.table| <= max
  {
    InitInv(max, workers);
    RunInv(Init(max, workers), steps);
  }

  /** One request that finds no session: it registers a new one. */
  function NewSession(t: Thread, x: Token): seq<Step> {
    [AskLog(t, None), Create(t, x, 0), Enrol(t), Register(t, x)]
  }

  lemma NewSessionRuns(max: nat)
    ensures Legal(Init(max, 1), NewSession(0, 0))
    ensures Run(Init(max, 1), NewSession(0, 0)) ==
        State(max, [Processing(0)], map[0 := 0], 1, None, map[0 := 0], {0}, {})
  {
    var s0 := Init(max, 1);
    var s1 := Apply(s0, AskLog(0, None));
    assert s0.pc[0] == Idle && s1.pc == [Creating];
    var s2 := Apply(s1, Create(0, 0, 0));
    var s3 := Apply(s2, Enrol(0));
    var s4 := Apply(s3, Register(0, 0));
    assert Legal(s4, []);
    RunCons(s3, Register(0, 0), []);
    RunCons(s2, Enrol(0), [Register(0, 0)]);
    RunCons(s1, Create(0, 0, 0), [Enrol(0), Register(0, 0)]);
    RunCons(s0, AskLog(0, None), [Create(0, 0, 0), Enrol(0), Register(0, 0)]);
  }

  ghost predicate KeepsLimit(max: nat) {
    forall workers: nat, steps | Legal(Init(max, workers), steps) && Run(Init(max, workers), steps).lock.None? ::
      |Run(Init(max, workers), steps).table| <= max
  }

  /** A limit of zero is exceeded: registration finds nothing to evict and inserts all the same. */
  lemma LimitHoldsExactly(max: nat)
    ensures KeepsLimit(max) <==> max >= 1
  {
    if max == 0 {
      NewSessionRuns(max);
      assert |Run(Init(max, 1), NewSession(0, 0)).table| == 1;
    } else {
      forall workers: nat, steps | Legal(Init(max, workers), steps) && Run(Init(max, workers), steps).lock.None?
        ensures |Run(Init(max, workers), steps).table| <= max
      {
        TableWithinLimit(max, workers, steps);
      }
    }
  }

  /** A session is freed only while nobody holds its mutex, and no pointer to it is left anywhere. */
  lemma FreedWhileUnused(max: nat, workers: nat, steps: seq<Step>, step: Step, x: Token)
    requires Legal(Init(max, workers), steps) && Enabled(Run(Init(max, workers), steps), step)
    requires var s := Run(Init(max, workers), steps); x in s.live && x !in Apply(s, step).live
    ensures var s := Run(Init(max, workers), steps);
            && x !in s.owner
            && x !in Apply(s, step).table
            && forall t: Thread | t < |Apply(s, step).pc| :: !Refers(Apply(s, step).pc[t], x)
  {
    InitInv(max, workers);
    RunInv(Init(max, workers), steps);
    var s := Run(Init(max, workers), steps);
    assert ThreadOk(s, step.t);
    forall t: Thread | t < |s.pc| ensures !Refers(Apply(s, step).pc[t], x) {
      assert ThreadOk(s, t);
    }
  }

  /** No two workers ever use the same session at once. */
  lemma OneWorkerPerSession(max: nat, workers: nat, steps: seq<Step>, t: Thread, u: Thread)
    requires Legal(Init(max, workers), steps) && t < workers && u < workers && t != u
    ensures var s := Run(Init(max, workers), steps);
            && |s.pc| == workers
            && !(s.pc[t].Processing? && s.pc[u].Processing? && s.pc[t].x == s.pc[u].x)
  {
    InitInv(max, workers);
    RunInv(Init(max, workers), steps);
    var s := Run(Init(max, workers), steps);
    assert ThreadOk(s, t) && ThreadOk(s, u);
  }

  /** Whatever other workers do between its steps, a registration changes the table as the method of the class does. */
  lemma RegistersAtOnce(s: State, step: Step)
    requires Inv(s) && Enabled(s, step) && s.max >= 1
    requires step.Evict? || (step.Register? && Apply(s, step).pc[step.t].Processing?)
    ensures var p := s.pc[step.t];
            Registered(s.max, s.table, p.x, p.last, Apply(s, step).table)
  {
    assert ThreadOk(s, step.t);
    var p := s.pc[step.t];
    if step.Register? && s.table != map[] {
      assert |s.table| < s.max;
    }
  }

  // ---- Liveness

  /** The holder of the table lock waits for a mutex that nobody will release. */
  ghost predicate Jammed(s: State) {
    && s.lock.Some? && s.lock.value < |s.pc|
    && var p := s.pc[s.lock.value];
    (p.Locking? && p.x in s.leaked) || (p.Evicting? && p.victim in s.leaked)
  }

  lemma {:induction false} JamIsForever(s: State, steps: seq<Step>)
    requires Inv(s) && Jammed(s) && Legal(s, steps)
    ensures var u := Run(s, steps);
      Jammed(u) && u.lock == s.lock && u.table == s.table
      && u.pc[u.lock.value] == s.pc[s.lock.value]
    decreases |steps|
  {
    if steps != [] {
      assert ThreadOk(s, s.lock.value) && ThreadOk(s, steps[0].t);
      StepInv(s, steps[0]);
      JamIsForever(Apply(s, steps[0]), steps[1..]);
    }
  }

  /** Steps that carry a request on, rather than starting one or leaking its mutex. */
  predicate Carries(step: Step) {
    !step.AskLog? && !step.AskRemove? && !step.AskSweep? && !step.Abandon? && !step.CreateFails?
  }

  function Rank(p: Pc): nat {
    match p
    case Idle => 0
    case Processing(_) => 1
    case Evicting(_, _, _) => 2
    case Registering(_, _) => 3
    case Enrolling(_, _) => 4
    case Creating => 5
    case Locking(_) => 2
    case Seeking(_) => 6
    case Dropping(_) => 1
    case Sweeping(rest) => |rest| + 1
  }

  function Ranks(pc: seq<Pc>): seq<nat> {
    seq(|pc|, i requires 0 <= i < |pc| => Rank(pc[i]))
  }

  function Work(s: State): nat {
    Sum(Ranks(s.pc))
  }

  lemma CarryingMoves(s: State, step: Step) returns (p: Pc)
    requires Enabled(s, step) && Carries(step)
    ensures Rank(p) < Rank(s.pc[step.t]) && Apply(s, step).pc == s.pc[step.t := p]
  {
    p := Apply(s, step).pc[step.t];
  }

  lemma CarryingWorks(s: State, step: Step)
    requires Enabled(s, step) && Carries(step)
    ensures Work(Apply(s, step)) < Work(s)
  {
    var p := CarryingMoves(s, step);
    assert Ranks(s.pc[step.t := p]) == Ranks(s.pc)[step.t := Rank(p)];
    SumUpdate(Ranks(s.pc), step.t, Rank(p));
  }

  lemma FreshToken(used: set<Token>) returns (x: Token)
    ensures x !in used && forall y | y in used :: y < x
    decreases used
  {
    if used == {} {
      x := 0;
    } else {
      var y :| y in used;
      assert used == (used - {y}) + {y};
      x := FreshToken(used - {y});
      x := if x > y then x else y + 1;
    }
  }

  lemma OldestExists(table: map<Token, int>) returns (x: Token)
    requires table != map[]
    ensures IsOldest(table, x)
    decreases |table|
  {
    assert table.Keys != {};
    var y :| y in table;
    if Without(table, y) == map[] {
      x := y;
      assert forall z | z in table :: z != y ==> z in Without(table, y);
    } else {
      WithoutSize(table, y);
      x := OldestExists(Without(table, y));
      assert forall z | z in table :: z != y ==> z in Without(table, y);
      x := if table[x] <= table[y] then x else y;
    }
  }

  /** A worker that waits for the mutex of x is waiting for a worker that can finish, or for ever. */
  lemma WaitingFor(s: State, h: Thread, x: Token) returns (step: Step)
    requires Inv(s) && h < |s.pc| && s.lock == Some(h) && (s.pc[h].Locking? || s.pc[h].Evicting?)
    requires x in s.table && x in s.owner && x !in s.leaked
    ensures Enabled(s, step) && Carries(step)
  {
    var o := s.owner[x];
    assert ThreadOk(s, h) && ThreadOk(s, o);
    step := Finish(o);
  }

  /** Any busy system has a worker that can go on, unless it is jammed. */
  lemma SomeoneCanGoOn(s: State, t: Thread) returns (step: Step)
    requires Inv(s) && !Jammed(s) && t < |s.pc| && s.pc[t] != Idle
    ensures Enabled(s, step) && Carries(step)
  {
    var h := if s.lock.Some? then s.lock.value else t;
    assert ThreadOk(s, h);
    match s.pc[h] {
      case Seeking(_) => step := Lookup(h);
      case Locking(x) =>
        if x in s.owner { step := WaitingFor(s, h, x); } else { step := Lock(h, 0); }
      case Creating =>
        var x := FreshToken(s.live);
        step := Create(h, x, 0);
      case Enrolling(_, _) => step := Enrol(h);
      case Registering(_, _) =>
        var victim := 0;
        if s.table != map[] { victim := OldestExists(s.table); }
        step := Register(h, victim);
      case Evicting(_, _, v) =>
        if v in s.owner { step := WaitingFor(s, h, v); } else { step := Evict(h); }
      case Processing(_) => step := Finish(h);
      case Dropping(_) => step := Drop(h);
      case Sweeping(rest) =>
        if rest == {} {
          step := SweepDone(h);
        } else {
          var x :| x in rest;
          step := Visit(h, x, false);
        }
    }
  }

  ghost predicate AllIdle(s: State) {
    forall t: Thread | t < |s.pc| :: s.pc[t] == Idle
  }

  ghost predicate AllCarry(steps: seq<Step>) {
    forall i | 0 <= i < |steps| :: Carries(steps[i])
  }

  /** Without new requests, a bounded number of steps ends every request, unless the system jams. */
  lemma Drains(s: State) returns (steps: seq<Step>)
    requires Inv(s)
    ensures Legal(s, steps) && AllCarry(steps) && |steps| <= Work(s)
    ensures AllIdle(Run(s, steps)) || Jammed(Run(s, steps))
    ensures Run(s, steps).leaked == s.leaked
    decreases Work(s)
  {
    if AllIdle(s) || Jammed(s) {
      return [];
    }
    var t: Thread :| t < |s.pc| && s.pc[t] != Idle;
    var step := SomeoneCanGoOn(s, t);
    CarryingWorks(s, step);
    StepInv(s, step);
    var rest := Drains(Apply(s, step));
    RunCons(s, step, rest);
    steps := [step] + rest;
  }

  ghost predicate HasAbandon(steps: seq<Step>) {
    exists i :: 0 <= i < |steps| && steps[i].Abandon?
  }

  lemma {:induction false} LeakedByAbandon(s: State, steps: seq<Step>)
    requires Legal(s, steps)
    ensures Run(s, steps).leaked != {} <==> s.leaked != {} || HasAbandon(steps)
    decreases |steps|
  {
    if steps != [] {
      LeakedByAbandon(Apply(s, steps[0]), steps[1..]);
      assert HasAbandon(steps) <==> steps[0].Abandon? || HasAbandon(steps[1..]) by {
        assert forall i | 0 < i < |steps| :: steps[i] == steps[1..][i - 1];
      }
    }
  }

  /** Some schedule in which no further mutex is leaked jams the system. */
  ghost predicate CanJam(s: State) {
    exists more :: Legal(s, more) && !HasAbandon(more) && Jammed(Run(s, more))
  }

  lemma HolderIsBusy(s: State)
    requires Inv(s) && s.lock.Some?
    ensures s.pc[s.lock.value] != Idle
  {
    assert ThreadOk(s, s.lock.value);
  }

  lemma IdleIsQuiet(s: State)
    requires Inv(s) && AllIdle(s)
    ensures s.lock.None? && s.owner.Keys == s.leaked
  {
    if s.lock.Some? {
      HolderIsBusy(s);
    }
  }

  lemma LeakJams(s: State)
    requires Inv(s) && s.leaked != {} && |s.pc| > 0
    ensures CanJam(s)
  {
    var drain := Drains(s);
    RunInv(s, drain);
    var u := Run(s, drain);
    var more := drain;
    if !Jammed(u) {
      IdleIsQuiet(u);
      var x :| x in u.leaked;
      var u1 := Apply(u, AskLog(0, Some(x)));
      assert u1.pc[0] == Seeking(x);
      assert Legal(Apply(u1, Lookup(0)), []);
      RunCons(u1, Lookup(0), []);
      RunCons(u, AskLog(0, Some(x)), [Lookup(0)]);
      RunConcat(s, drain, [AskLog(0, Some(x)), Lookup(0)]);
      more := drain + [AskLog(0, Some(x)), Lookup(0)];
    }
    assert Legal(s, more) && !HasAbandon(more) && Jammed(Run(s, more));
  }

  /**
   * The sessions can deadlock exactly when some earlier request found an error message waiting as it
   * obtained its session, and so returned without unlocking it.
   */
  lemma DeadlocksExactly(max: nat, workers: nat, steps: seq<Step>)
    requires Legal(Init(max, workers), steps)
    ensures CanJam(Run(Init(max, workers), steps)) <==> HasAbandon(steps)
  {
    var s := Run(Init(max, workers), steps);
    InitInv(max, workers);
    RunInv(Init(max, workers), steps);
    LeakedByAbandon(Init(max, workers), steps);
    if HasAbandon(steps) {
      var i :| 0 <= i < |steps| && steps[i].Abandon?;
      assert Enabled(Init(max, workers), steps[0]);
      LeakJams(s);
    } else if CanJam(s) {
      var more :| Legal(s, more) && !HasAbandon(more) && Jammed(Run(s, more));
      LeakedByAbandon(s, more);
    }
  }

  /** With no error message at hand when sessions are obtained, every request in progress can be brought to its end. */
  lemma EveryRequestCanFinish(max: nat, workers: nat, steps: seq<Step>) returns (rest: seq<Step>)
    requires Legal(Init(max, workers), steps) && !HasAbandon(steps)
    ensures var s := Run(Init(max, workers), steps);
            && Legal(s, rest) && AllCarry(rest) && |rest| <= Work(s)
            && AllIdle(Run(s, rest)) && Run(s, rest).lock.None? && Run(s, rest).owner == map[]
  {
    var s := Run(Init(max, workers), steps);
    InitInv(max, workers);
    RunInv(Init(max, workers), steps);
    LeakedByAbandon(Init(max, workers), steps);
    rest := Drains(s);
    RunInv(s, rest);
    IdleIsQuiet(Run(s, rest));
  }
}
