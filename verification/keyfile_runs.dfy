/**
 * Runs of additions and removals on the key file: no id is ever given to two agents, even
 * after one was removed, and no two agents in use share a name.
 */
module KeyFileRuns {
  import opened Options
  import opened CStrings
  import opened KeyFiles
  import opened KeyFileLines

  /** The longest address text, and the longest key. */
  const IPSIZE: nat := 46
  const KEY_LENGTH: nat := 64

  predicate Plain(s: string) {
    ' ' !in s && '\n' !in s
  }

  function Line(id: string, name: string, ip: string, key: string): string {
    id + " " + name + " " + ip + " " + key + "\n"
  }

  datatype Step =
    | Add(id: string, name: string, ip: string, key: string)
    | Remove(id: string)

  ghost predicate Enabled(file: string, step: Step) {
    match step
    case Remove(_) => true
    case Add(id, name, ip, key) =>
      && ValidId(id) && !HasId(file, id, false)
      && ValidName(name) && !Named(Agents(file), name)
      && Plain(ip) && |ip| <= IPSIZE && Plain(key) && |key| <= KEY_LENGTH
  }

  ghost function Apply(file: string, step: Step): string {
    match step
    case Add(id, name, ip, key) => file + Line(id, name, ip, key)
    case Remove(id) => if HasId(file, id, true) then Tombstoned(file, id) else file
  }

  ghost predicate Legal(file: string, steps: seq<Step>)
    decreases |steps|
  {
    steps != [] ==> Enabled(file, steps[0]) && Legal(Apply(file, steps[0]), steps[1..])
  }

  ghost function Run(file: string, steps: seq<Step>): string
    decreases |steps|
  {
    if steps == [] then file else Run(Apply(file, steps[0]), steps[1..])
  }

  ghost predicate Sound(agents: seq<Agent>) {
    && (forall i, j | 0 <= i < j < |agents| :: agents[i].id != agents[j].id)
    && (forall i, j | 0 <= i < j < |agents| && LiveName(Some(agents[i])).Some? ::
          LiveName(Some(agents[i])) != LiveName(Some(agents[j])))
  }

  function Ids(agents: seq<Agent>): seq<string> {
    seq(|agents|, i requires 0 <= i < |agents| => agents[i].id)
  }

  // ---- The line of a new agent

  lemma FirstField(s: string, rest: string)
    requires ' ' !in s
    ensures Field(s + " " + rest) == Some(s) && AfterSpace(s + " " + rest) == rest
  {
    var t := s + " " + rest;
    FoundAt(t, ' ', 0, |s|);
    assert t[..|s|] == s && t[|s| + 1..] == rest;
  }

  lemma FieldsShow(chunk: string, id: string, name: string, ip: string, rest: string, tail: string)
    requires chunk != "" && chunk[0] != '#' && Field(chunk) == Some(id) && AfterSpace(chunk) == rest
    requires !Marked(rest) && Field(rest) == Some(name) && AfterSpace(rest) == tail && Field(tail) == Some(ip)
    ensures AgentOf(chunk) == Some(Live(id, Some(name), Some(ip)))
  {
  }

  lemma LineShows(id: string, name: string, ip: string, key: string)
    requires ValidId(id) && ValidName(name) && Plain(ip)
    ensures AgentOf(Line(id, name, ip, key)) == Some(Live(id, Some(name), Some(ip)))
  {
    hide AgentOf, Find, Field, AfterSpace;
    var tail := ip + " " + (key + "\n");
    var rest := name + " " + tail;
    FirstField(id, rest);
    FirstField(name, tail);
    FirstField(ip, key + "\n");
    assert rest[0] == name[0];
    FieldsShow(id + " " + rest, id, name, ip, rest, tail);
    assert Line(id, name, ip, key) == id + " " + rest;
  }

  /** A line that can be added is short enough to be read in one piece, before and after it is marked. */
  lemma NewLine(id: string, name: string, ip: string, key: string)
    requires ValidId(id) && ValidName(name) && Plain(ip) && |ip| <= IPSIZE && Plain(key) && |key| <= KEY_LENGTH
    ensures Tidy(Line(id, name, ip, key))
    ensures Agents(Line(id, name, ip, key)) == [Live(id, Some(name), Some(ip))]
  {
    hide AgentOf;
    var line := Line(id, name, ip, key);
    assert |line| <= CHUNK - 5;
    FoundAt(line, '\n', 0, |line| - 1);
    assert line[0..|line|] == line;
    LineShows(id, name, ip, key);
    assert TidyLine(line, 0) && TidyFrom(line, |line|);
    LineStep(line, 0, id, false);
    assert AgentsFrom(line, |line|) == [];
  }

  // ---- One step

  /** The first agent in use under the id is the one marked, and nothing else changes. */
  lemma {:induction false} RetiredIsUpdate(agents: seq<Agent>, id: string) returns (k: nat)
    requires Holds(agents, id, true)
    ensures k < |agents| && Wanted(Some(agents[k]), id, true)
    ensures forall j | 0 <= j < k :: !Wanted(Some(agents[j]), id, true)
    ensures Retired(agents, id) == agents[k := Removed(id)]
  {
    if Wanted(Some(agents[0]), id, true) {
      k := 0;
    } else {
      var a :| a in agents && Wanted(Some(a), id, true);
      assert a in agents[1..];
      k := RetiredIsUpdate(agents[1..], id);
      k := k + 1;
    }
  }

  lemma RemoveAgents(file: string, id: string)
    requires Tidy(file)
    ensures var g := Apply(file, Remove(id));
            && Tidy(g)
            && Agents(g) == (if HasId(file, id, true) then Retired(Agents(file), id) else Agents(file))
            && (HasId(file, id, true) ==> |g| == |file| + 1)
  {
    if HasId(file, id, true) {
      PositionFinds(file, 0, id, true);
      MarkAgents(file, 0, id);
    }
  }

  /** Removing an agent takes its id out of use exactly if one line had it, and leaves all other ids alone. */
  lemma RemovedExactly(file: string, id: string)
    requires Tidy(file) && HasId(file, id, true)
    ensures var g := Tombstoned(file, id); var agents := Agents(file);
            && HasId(g, id, false)
            && (HasId(g, id, true) <==> exists i, j ::
                0 <= i < j < |agents| && Wanted(Some(agents[i]), id, true) && Wanted(Some(agents[j]), id, true))
            && (forall x, d | x != id :: HasId(g, x, d) == HasId(file, x, d))
  {
    RemoveAgents(file, id);
    var agents := Agents(file);
    var k := RetiredIsUpdate(agents, id);
    UpdateHolds(agents, k, id);
  }

  lemma UpdateHolds(agents: seq<Agent>, k: nat, id: string)
    requires k < |agents| && Wanted(Some(agents[k]), id, true)
    requires forall j | 0 <= j < k :: !Wanted(Some(agents[j]), id, true)
    ensures var after := agents[k := Removed(id)];
            && Holds(after, id, false)
            && (Holds(after, id, true) <==> exists i, j ::
                0 <= i < j < |agents| && Wanted(Some(agents[i]), id, true) && Wanted(Some(agents[j]), id, true))
            && (forall x, d | x != id :: Holds(after, x, d) == Holds(agents, x, d))
  {
    var after := agents[k := Removed(id)];
    assert after[k] in after;
    if Holds(after, id, true) {
      var a :| a in after && Wanted(Some(a), id, true);
      var j :| 0 <= j < |after| && after[j] == a;
      assert k < j && Wanted(Some(agents[k]), id, true) && Wanted(Some(agents[j]), id, true);
    }
    if i, j :| 0 <= i < j < |agents| && Wanted(Some(agents[i]), id, true) && Wanted(Some(agents[j]), id, true) {
      assert after[j] in after;
    }
    forall x, d | x != id ensures Holds(after, x, d) == Holds(agents, x, d) {
      if a :| a in after && Wanted(Some(a), x, d) {
        assert a in agents;
      }
      if a :| a in agents && Wanted(Some(a), x, d) {
        var j :| 0 <= j < |agents| && agents[j] == a;
        assert after[j] in after;
      }
    }
  }

  lemma AddAgents(file: string, step: Step)
    requires Tidy(file) && step.Add? && Enabled(file, step)
    ensures Tidy(Apply(file, step))
    ensures Agents(Apply(file, step)) == Agents(file) + [Live(step.id, Some(step.name), Some(step.ip))]
  {
    NewLine(step.id, step.name, step.ip, step.key);
    AppendAgents(file, Line(step.id, step.name, step.ip, step.key), 0);
  }

  lemma AddedIsSound(agents: seq<Agent>, a: Agent)
    requires Sound(agents) && a.Live? && a.name.Some?
    requires !Holds(agents, a.id, false) && !Named(agents, a.name.value)
    ensures Sound(agents + [a]) && Ids(agents) <= Ids(agents + [a])
  {
    var after := agents + [a];
    forall i | 0 <= i < |agents| ensures agents[i].id != a.id && LiveName(Some(agents[i])) != a.name {
      assert agents[i] in agents && !Wanted(Some(agents[i]), a.id, false);
    }
    assert Ids(after)[..|agents|] == Ids(agents);
  }

  lemma RetiredIsSound(agents: seq<Agent>, id: string)
    requires Sound(agents) && Holds(agents, id, true)
    ensures Sound(Retired(agents, id)) && Ids(Retired(agents, id)) == Ids(agents)
  {
    var k := RetiredIsUpdate(agents, id);
  }

  lemma StepSound(file: string, step: Step)
    requires Tidy(file) && Sound(Agents(file)) && Enabled(file, step)
    ensures var g := Apply(file, step); Tidy(g) && Sound(Agents(g)) && Ids(Agents(file)) <= Ids(Agents(g))
  {
    match step {
      case Add(id, name, ip, _) =>
        AddAgents(file, step);
        AddedIsSound(Agents(file), Live(id, Some(name), Some(ip)));
      case Remove(id) =>
        RemoveAgents(file, id);
        if HasId(file, id, true) {
          RetiredIsSound(Agents(file), id);
        }
    }
  }

  /**
   * Over any run, each id stands on at most one line, in use or removed, and keeps its place, so it is never
   * given out again; and names in use are pairwise different.
   */
  lemma {:induction false} IdsAreNeverReused(file: string, steps: seq<Step>)
    requires Tidy(file) && Sound(Agents(file)) && Legal(file, steps)
    ensures var g := Run(file, steps);
            && Tidy(g) && Sound(Agents(g))
            && Ids(Agents(file)) <= Ids(Agents(g))
    decreases |steps|
  {
    if steps != [] {
      StepSound(file, steps[0]);
      IdsAreNeverReused(Apply(file, steps[0]), steps[1..]);
    }
  }
}
