/**
 * Searchers and removers on the index lists. A searcher counts itself in while no
 * removal is pending; a remover flags every list it will touch, waits for each list
 * to empty, deletes its node, and unflags. Removers are serialized by the event mutex.
 */
module ListGuard {
  type ListId = nat
  type Thread = nat

  /** Where the one active remover is; lists are those the evicted event is in. */
  datatype Remover =
    | Idle
    | Flagging(lists: seq<ListId>, at: nat)
    | Draining(lists: seq<ListId>, at: nat)
    | Deleting(lists: seq<ListId>, at: nat)
    | Unflagging(lists: seq<ListId>, at: nat)

  datatype State = State(
    count: map<ListId, nat>,
    pending: set<ListId>,
    inside: map<Thread, ListId>,
    remover: Remover)

  datatype Step =
    | Enter(t: Thread, l: ListId)
    | Leave(t: Thread)
    | Start(lists: seq<ListId>)
    | Flag
    | FlagsSet
    | SeeEmpty
    | Deleted
    | Unflag

  const INIT := State(map[], {}, map[], Idle)

  function CountOf(s: State, l: ListId): nat {
    if l in s.count then s.count[l] else 0
  }

  predicate Enabled(s: State, step: Step) {
    match step
    case Enter(t, l) => t !in s.inside && l !in s.pending
    case Leave(t) => t in s.inside && 0 < CountOf(s, s.inside[t])
    case Start(lists) => s.remover == Idle && lists != []
    case Flag => s.remover.Flagging? && s.remover.at < |s.remover.lists|
    case FlagsSet => s.remover.Flagging? && s.remover.at == |s.remover.lists|
    case SeeEmpty => s.remover.Draining? && s.remover.at < |s.remover.lists|
        && CountOf(s, s.remover.lists[s.remover.at]) == 0
    case Deleted => s.remover.Deleting?
    case Unflag => s.remover.Unflagging? && s.remover.at < |s.remover.lists|
  }

  function Apply(s: State, step: Step): State
    requires Enabled(s, step)
  {
    match step
    case Enter(t, l) => s.(inside := s.inside[t := l], count := s.count[l := CountOf(s, l) + 1])
    case Leave(t) =>
      var l := s.inside[t];
      s.(inside := s.inside - {t}, count := s.count[l := CountOf(s, l) - 1])
    case Start(lists) => s.(remover := Flagging(lists, 0))
    case Flag =>
      s.(pending := s.pending + {s.remover.lists[s.remover.at]}, remover := Flagging(s.remover.lists, s.remover.at + 1))
    case FlagsSet => s.(remover := Next(s.remover.lists, 0))
    case SeeEmpty => s.(remover := Deleting(s.remover.lists, s.remover.at))
    case Deleted => s.(remover := Unflagging(s.remover.lists, s.remover.at))
    case Unflag =>
      s.(pending := s.pending - {s.remover.lists[s.remover.at]}, remover := Next(s.remover.lists, s.remover.at + 1))
  }

  function Next(lists: seq<ListId>, at: nat): Remover {
    if at == |lists| then Idle else Draining(lists, at)
  }

  ghost predicate Legal(s: State, steps: seq<Step>)
    decreases |steps|
  {
    steps != [] ==> Enabled(s, steps[0]) && Legal(Apply(s, steps[0]), steps[1..])
  }

  ghost function Run(s: State, steps: seq<Step>): State
    requires Legal(s, steps)
    decreases |steps|
  {
    if steps == [] then s else Run(Apply(s, steps[0]), steps[1..])
  }

  lemma RunCons(s: State, step: Step, rest: seq<Step>)
    requires Enabled(s, step) && Legal(Apply(s, step), rest)
    ensures Legal(s, [step] + rest) && Run(s, [step] + rest) == Run(Apply(s, step), rest)
  {
    assert ([step] + rest)[1..] == rest;
  }

  lemma {:induction false} RunConcat(s: State, a: seq<Step>, b: seq<Step>)
    requires Legal(s, a) && Legal(Run(s, a), b)
    ensures Legal(s, a + b) && Run(s, a + b) == Run(Run(s, a), b)
    decreases |a|
  {
    if a == [] {
      assert a + b == b;
    } else {
      assert (a + b)[0] == a[0] && (a + b)[1..] == a[1..] + b;
      RunConcat(Apply(s, a[0]), a[1..], b);
    }
  }

  // ---- Safety

  /** While a node is being deleted nobody walks that list. */
  ghost predicate Safe(s: State) {
    s.remover.Deleting? && s.remover.at < |s.remover.lists| ==>
      forall t | t in s.inside :: s.inside[t] != s.remover.lists[s.remover.at]
  }

  ghost predicate NoDuplicates(lists: seq<ListId>) {
    forall i, j | 0 <= i < j < |lists| :: lists[i] != lists[j]
  }

  function Elements(lists: seq<ListId>): set<ListId> {
    set l | l in lists
  }

  ghost function Searchers(s: State, l: ListId): set<Thread> {
    set t | t in s.inside && s.inside[t] == l
  }

  /** The flags that the remover's position implies. */
  ghost predicate FlagsOk(s: State) {
    match s.remover
    case Idle => s.pending == {}
    case Flagging(lists, at) => at <= |lists| && s.pending == Elements(lists[..at])
    case _ =>
      s.remover.at < |s.remover.lists|
      && s.pending == Elements(s.remover.lists) - Elements(s.remover.lists[..s.remover.at])
  }

  ghost predicate CountsOk(s: State) {
    forall l :: CountOf(s, l) == |Searchers(s, l)|
  }

  ghost predicate Base(s: State) {
    FlagsOk(s) && CountsOk(s) && (s.remover != Idle ==> s.remover.lists != [])
  }

  ghost predicate Inv(s: State) {
    Base(s) && Safe(s) && (s.remover != Idle ==> NoDuplicates(s.remover.lists))
  }

  lemma ElementsSnoc(lists: seq<ListId>, at: nat)
    requires at < |lists|
    ensures Elements(lists[..at + 1]) == Elements(lists[..at]) + {lists[at]}
  {
    assert lists[..at + 1] == lists[..at] + [lists[at]];
  }

  lemma StepFlags(s: State, step: Step)
    requires FlagsOk(s) && Enabled(s, step)
    ensures FlagsOk(Apply(s, step))
  {
    match step {
      case Flag => ElementsSnoc(s.remover.lists, s.remover.at);
      case FlagsSet =>
        assert s.remover.lists[..s.remover.at] == s.remover.lists;
        assert Elements(s.remover.lists[..0]) == {};
        assert s.remover.lists == [] ==> Elements(s.remover.lists) == {};
      case Unflag =>
        var lists, at := s.remover.lists, s.remover.at;
        ElementsSnoc(lists, at);
        assert lists[..|lists|] == lists;
      case _ =>
    }
  }

  lemma EnterCounts(s: State, t: Thread, k: ListId, l: ListId)
    requires CountOf(s, l) == |Searchers(s, l)| && Enabled(s, Enter(t, k))
    ensures var u := Apply(s, Enter(t, k)); CountOf(u, l) == |Searchers(u, l)|
  {
    var u := Apply(s, Enter(t, k));
    if l == k {
      assert Searchers(u, l) == Searchers(s, l) + {t};
    } else {
      assert Searchers(u, l) == Searchers(s, l);
    }
  }

  lemma LeaveCounts(s: State, t: Thread, l: ListId)
    requires CountOf(s, l) == |Searchers(s, l)| && Enabled(s, Leave(t))
    ensures var u := Apply(s, Leave(t)); CountOf(u, l) == |Searchers(u, l)|
  {
    var u := Apply(s, Leave(t));
    if l == s.inside[t] {
      assert Searchers(u, l) == Searchers(s, l) - {t};
    } else {
      assert Searchers(u, l) == Searchers(s, l);
    }
  }

  lemma StepCounts(s: State, step: Step)
    requires CountsOk(s) && Enabled(s, step)
    ensures CountsOk(Apply(s, step))
  {
    var u := Apply(s, step);
    forall l ensures CountOf(u, l) == |Searchers(u, l)| {
      assert CountOf(s, l) == |Searchers(s, l)|;
      if step.Enter? {
        EnterCounts(s, step.t, step.l, l);
      } else if step.Leave? {
        LeaveCounts(s, step.t, l);
      } else {
        assert u.inside == s.inside && u.count == s.count;
      }
    }
  }

  lemma StepSafe(s: State, step: Step)
    requires Inv(s) && Enabled(s, step)
    ensures Safe(Apply(s, step))
  {
    match step {
      case SeeEmpty =>
        var l := s.remover.lists[s.remover.at];
        assert |Searchers(s, l)| == 0;
        forall t | t in s.inside ensures s.inside[t] != l {
          assert t !in Searchers(s, l);
        }
      case Enter(t, l) =>
        if s.remover.Deleting? {
          assert s.remover.lists[s.remover.at] !in s.remover.lists[..s.remover.at];
        }
      case _ =>
    }
  }

  lemma StepInv(s: State, step: Step)
    requires Inv(s) && Enabled(s, step) && (step.Start? ==> NoDuplicates(step.lists))
    ensures Inv(Apply(s, step))
  {
    StepFlags(s, step);
    StepCounts(s, step);
    StepSafe(s, step);
  }

  /** Every remover in the run works on the given lists. */
  ghost predicate Removes(steps: seq<Step>, lists: seq<ListId>) {
    forall i | 0 <= i < |steps| && steps[i].Start? :: steps[i].lists == lists
  }

  ghost predicate RemovesWithoutDuplicates(steps: seq<Step>) {
    forall i | 0 <= i < |steps| && steps[i].Start? :: NoDuplicates(steps[i].lists)
  }

  lemma {:induction false} RunInv(s: State, steps: seq<Step>)
    requires Inv(s) && Legal(s, steps) && RemovesWithoutDuplicates(steps)
    ensures Inv(Run(s, steps))
    decreases |steps|
  {
    if steps != [] {
      StepInv(s, steps[0]);
      RunInv(Apply(s, steps[0]), steps[1..]);
    }
  }

  /** In every interleaving, no searcher is inside a list while a node of it is deleted. */
  lemma NoSearcherDuringDelete(steps: seq<Step>)
    requires Legal(INIT, steps) && RemovesWithoutDuplicates(steps)
    ensures Safe(Run(INIT, steps))
  {
    InitBase();
    RunInv(INIT, steps);
  }

  // ---- An event that is twice in one list breaks the protocol

  /** An undisturbed remover that has worked through the lists before position at. */
  ghost function Undisturbed(lists: seq<ListId>, at: nat): State
    requires at < |lists|
  {
    State(map[], Elements(lists) - Elements(lists[..at]), map[], Draining(lists, at))
  }

  lemma {:induction false} FlagAll(lists: seq<ListId>, at: nat) returns (steps: seq<Step>)
    requires at <= |lists| && lists != []
    ensures Removes(steps, lists)
    ensures var s := State(map[], Elements(lists[..at]), map[], Flagging(lists, at));
      Legal(s, steps) && Run(s, steps) == Undisturbed(lists, 0)
    decreases |lists| - at
  {
    var s := State(map[], Elements(lists[..at]), map[], Flagging(lists, at));
    if at == |lists| {
      steps := [FlagsSet];
      assert lists[..at] == lists && Elements(lists[..0]) == {};
      assert Apply(s, FlagsSet) == Undisturbed(lists, 0);
      assert steps[1..] == [];
    } else {
      ElementsSnoc(lists, at);
      var rest := FlagAll(lists, at + 1);
      steps := [Flag] + rest;
      assert steps[1..] == rest;
    }
  }

  lemma {:induction false} WorkUpTo(lists: seq<ListId>, at: nat) returns (steps: seq<Step>)
    requires at < |lists|
    ensures Removes(steps, lists)
    ensures Legal(Undisturbed(lists, 0), steps) && Run(Undisturbed(lists, 0), steps) == Undisturbed(lists, at)
    decreases at
  {
    if at == 0 {
      steps := [];
    } else {
      var before := WorkUpTo(lists, at - 1);
      var s := Undisturbed(lists, at - 1);
      ElementsSnoc(lists, at - 1);
      var s1 := Apply(s, SeeEmpty);
      var s2 := Apply(s1, Deleted);
      assert Apply(s2, Unflag) == Undisturbed(lists, at);
      RunCons(s2, Unflag, []);
      RunCons(s1, Deleted, [Unflag] + []);
      RunCons(s, SeeEmpty, [Deleted] + ([Unflag] + []));
      var turn := [SeeEmpty] + ([Deleted] + ([Unflag] + []));
      RunConcat(Undisturbed(lists, 0), before, turn);
      steps := before + turn;
    }
  }

  /** The second time a list comes up its flag is gone, so a searcher gets in. */
  lemma EnterDuringDelete(lists: seq<ListId>, i: nat, j: nat) returns (steps: seq<Step>)
    requires i < j < |lists| && lists[i] == lists[j]
    ensures Removes(steps, lists)
    ensures Legal(Undisturbed(lists, j), steps) && !Safe(Run(Undisturbed(lists, j), steps))
  {
    var s := Undisturbed(lists, j);
    assert lists[..j][i] == lists[j];
    var s1 := Apply(s, SeeEmpty);
    var s2 := Apply(s1, Enter(0, lists[j]));
    RunCons(s1, Enter(0, lists[j]), []);
    RunCons(s, SeeEmpty, [Enter(0, lists[j])] + []);
    steps := [SeeEmpty] + ([Enter(0, lists[j])] + []);
    assert s2.inside[0] == lists[j];
  }

  lemma DuplicateIsUnsafe(lists: seq<ListId>) returns (steps: seq<Step>)
    requires !NoDuplicates(lists)
    ensures Removes(steps, lists) && Legal(INIT, steps) && !Safe(Run(INIT, steps))
  {
    var i, j :| 0 <= i < j < |lists| && lists[i] == lists[j];
    var flags := FlagAll(lists, 0);
    assert lists[..0] == [] && Elements(lists[..0]) == {};
    RunCons(INIT, Start(lists), flags);
    var work := WorkUpTo(lists, j);
    RunConcat(INIT, [Start(lists)] + flags, work);
    var last := EnterDuringDelete(lists, i, j);
    RunConcat(INIT, [Start(lists)] + flags + work, last);
    steps := [Start(lists)] + flags + work + last;
  }

  /** The protocol is safe for a removal in all interleavings exactly when its lists are distinct. */
  lemma SafeExactly(lists: seq<ListId>)
    ensures (forall steps | Legal(INIT, steps) && Removes(steps, lists) :: Safe(Run(INIT, steps))) <==>
        NoDuplicates(lists)
  {
    if NoDuplicates(lists) {
      forall steps | Legal(INIT, steps) && Removes(steps, lists) ensures Safe(Run(INIT, steps)) {
        NoSearcherDuringDelete(steps);
      }
    } else {
      var steps := DuplicateIsUnsafe(lists);
    }
  }

  // ---- Progress

  /** Steps that do not bring in new work: searchers leave, the remover moves on. */
  predicate Finishing(step: Step) {
    !step.Enter? && !step.Start?
  }

  function Remaining(r: Remover): nat {
    match r
    case Idle => 0
    case Flagging(lists, at) => 4 * |lists| + 2 + if at < |lists| then |lists| - at else 0
    case Draining(lists, at) => if at < |lists| then 4 * (|lists| - at) else 0
    case Deleting(lists, at) => if at < |lists| then 4 * (|lists| - at) - 1 else 1
    case Unflagging(lists, at) => if at < |lists| then 4 * (|lists| - at) - 2 else 0
  }

  function Work(s: State): nat {
    Remaining(s.remover) + |s.inside|
  }

  /** While a removal is pending some finishing step is enabled, and it brings the end nearer. */
  lemma FinishingStep(s: State) returns (step: Step)
    requires Base(s) && s.remover != Idle
    ensures Enabled(s, step) && Finishing(step)
    ensures Work(Apply(s, step)) < Work(s)
  {
    match s.remover {
      case Flagging(lists, at) => step := if at < |lists| then Flag else FlagsSet;
      case Draining(lists, at) =>
        var l := lists[at];
        assert CountOf(s, l) == |Searchers(s, l)|;
        if CountOf(s, l) == 0 {
          step := SeeEmpty;
        } else {
          var t :| t in Searchers(s, l);
          step := Leave(t);
          assert (s.inside - {t}).Keys == s.inside.Keys - {t};
        }
      case Deleting(_, _) => step := Deleted;
      case Unflagging(_, _) => step := Unflag;
    }
  }

  /** From every reachable state the active remover can finish, searchers only leaving. */
  lemma {:induction false} RemoverCanFinish(s: State) returns (steps: seq<Step>)
    requires Base(s)
    ensures Legal(s, steps) && Run(s, steps).remover == Idle
    ensures forall i | 0 <= i < |steps| :: Finishing(steps[i])
    decreases Work(s)
  {
    if s.remover == Idle {
      steps := [];
    } else {
      var step := FinishingStep(s);
      StepFlags(s, step);
      StepCounts(s, step);
      var rest := RemoverCanFinish(Apply(s, step));
      RunCons(s, step, rest);
      steps := [step] + rest;
    }
  }

  lemma {:induction false} RunBase(s: State, steps: seq<Step>)
    requires Base(s) && Legal(s, steps)
    ensures Base(Run(s, steps))
    decreases |steps|
  {
    if steps != [] {
      StepFlags(s, steps[0]);
      StepCounts(s, steps[0]);
      RunBase(Apply(s, steps[0]), steps[1..]);
    }
  }

  lemma InitBase()
    ensures Base(INIT)
  {
    forall l ensures CountOf(INIT, l) == |Searchers(INIT, l)| {
      assert Searchers(INIT, l) == {};
    }
  }

  /** Whatever happened so far, with or without duplicates, a pending removal is never stuck. */
  lemma NoStuckRemoval(before: seq<Step>) returns (steps: seq<Step>)
    requires Legal(INIT, before)
    ensures Legal(Run(INIT, before), steps) && Run(Run(INIT, before), steps).remover == Idle
    ensures forall i | 0 <= i < |steps| :: Finishing(steps[i])
  {
    InitBase();
    RunBase(INIT, before);
    steps := RemoverCanFinish(Run(INIT, before));
  }

  /** A flagged list only empties: nobody enters it in any step. */
  lemma FlaggedOnlyEmpties(s: State, step: Step, l: ListId)
    requires Enabled(s, step) && l in s.pending
    ensures CountOf(Apply(s, step), l) <= CountOf(s, l)
  {
  }
}
