/**
 * Over any run of additions, each after the removal of the agent that had the address, and of
 * removals, no two agents in use have the same address, "any" and networks aside.
 */
module AgentAddresses {
  import opened Options
  import opened KeyFiles
  import opened KeyFileLines
  import opened KeyFileRuns
  import opened ManageAgents

  /** Addresses that any number of agents may have. */
  predicate Shareable(ip: string) {
    (|ip| >= 3 && ip[..3] == "any") || exists i :: 0 <= i < |ip| && ip[i] == '/'
  }

  ghost predicate Has(a: Agent, ip: string) {
    a.Live? && a.ip == Some(ip)
  }

  ghost predicate DistinctAddresses(agents: seq<Agent>) {
    forall i, j, ip | 0 <= i < j < |agents| && Has(agents[i], ip) && Has(agents[j], ip) :: Shareable(ip)
  }

  /** A call that adds an agent, after removing the holder of its address, or one that removes an agent. */
  datatype Change =
    | Addition(holder: Option<string>, add: Step)
    | Removal(id: string)

  ghost predicate Allowed(file: string, c: Change) {
    match c
    case Addition(holder, add) =>
      add.Add? && Holder(Agents(file), add.ip, holder) && Enabled(AfterRemoval(file, holder), add)
    case Removal(_) => true
  }

  ghost function Changed(file: string, c: Change): string {
    match c
    case Addition(holder, add) => Run(file, StepsOf(holder, Some(add)))
    case Removal(id) => KeyFileRuns.Apply(file, Remove(id))
  }

  ghost predicate AllAllowed(file: string, changes: seq<Change>)
    decreases |changes|
  {
    changes != [] ==> Allowed(file, changes[0]) && AllAllowed(Changed(file, changes[0]), changes[1..])
  }

  ghost function AfterAll(file: string, changes: seq<Change>): string
    decreases |changes|
  {
    if changes == [] then file else AfterAll(Changed(file, changes[0]), changes[1..])
  }

  ghost predicate Good(file: string) {
    Tidy(file) && Sound(Agents(file)) && DistinctAddresses(Agents(file))
  }

  lemma RetiredIsDistinct(agents: seq<Agent>, id: string)
    requires DistinctAddresses(agents) && Holds(agents, id, true)
    ensures DistinctAddresses(Retired(agents, id))
  {
    var k := RetiredIsUpdate(agents, id);
  }

  lemma RemovalIsGood(file: string, id: string)
    requires Good(file)
    ensures Good(KeyFileRuns.Apply(file, Remove(id)))
  {
    StepSound(file, Remove(id));
    RemoveAgents(file, id);
    if HasId(file, id, true) {
      RetiredIsDistinct(Agents(file), id);
    }
  }

  lemma SearchedIsNotShareable(ip: string)
    ensures Unsearched(ip) <==> Shareable(ip)
  {
    assert "any" <= ip <==> |ip| >= 3 && ip[..3] == "any";
  }

  /** Once its holder is removed, nobody in use has the address. */
  lemma NobodyHasIt(file: string, ip: string, holder: Option<string>)
    requires Good(file) && Holder(Agents(file), ip, holder) && !Shareable(ip)
    ensures forall a | a in Agents(AfterRemoval(file, holder)) :: !Has(a, ip)
  {
    SearchedIsNotShareable(ip);
    var agents := Agents(file);
    if holder.Some? {
      var id := holder.value;
      var h :| 0 <= h < |agents| && FirstAt(agents, ip, h) && agents[h].id == id;
      assert agents[h] in agents && Wanted(Some(agents[h]), id, true);
      RemoveAgents(file, id);
      var k := RetiredIsUpdate(agents, id);
      assert k == h;
      assert Has(agents[h], ip);
      assert forall j | 0 <= j < |agents| && j != h :: !Has(agents[j], ip);
    } else {
      forall a | a in agents ensures !Has(a, ip) {
        assert !UsesIp(a, ip);
      }
    }
  }

  lemma AdditionIsGood(file: string, holder: Option<string>, add: Step)
    requires Good(file) && Allowed(file, Addition(holder, add))
    ensures Good(Changed(file, Addition(holder, add)))
  {
    hide Agents, Tidy, Sound;
    var g := AfterRemoval(file, holder);
    if holder.Some? {
      RemovalIsGood(file, holder.value);
    }
    if !Shareable(add.ip) {
      NobodyHasIt(file, add.ip, holder);
    }
    RemovalSteps(file, holder);
    assert StepsOf(holder, Some(add)) == StepsOf(holder, None) + [add];
    RunSnoc(file, StepsOf(holder, None), add);
    StepSound(g, add);
    AddAgents(g, add);
  }

  /** No two agents in use ever have the same address, unless it is one that any number may have. */
  lemma {:induction false} AddressesStayDistinct(file: string, changes: seq<Change>)
    requires Good(file) && AllAllowed(file, changes)
    ensures Good(AfterAll(file, changes))
    decreases |changes|
  {
    hide Good, Changed;
    if changes != [] {
      match changes[0] {
        case Addition(holder, add) => AdditionIsGood(file, holder, add);
        case Removal(id) => RemovedIsGood(file, id);
      }
      AddressesStayDistinct(Changed(file, changes[0]), changes[1..]);
    }
  }

  lemma RemovedIsGood(file: string, id: string)
    requires Good(file)
    ensures Good(Changed(file, Removal(id)))
  {
    RemovalIsGood(file, id);
  }

  /** A call of add_agent that adds an agent is such a change. */
  lemma AddAgentIsAllowed(file: string, manager: string, names: seq<string>, name: string, a: Address,
                          holder: Option<string>, ids: seq<string>, id: string, key: string)
    requires Tidy(file) && Chosen(file, manager, names, Some(name)) && Holder(Agents(file), a.text, holder)
    requires IdChosen(AfterRemoval(file, holder), ids, Some(id))
    requires Plain(a.text) && |a.text| <= IPSIZE && Plain(key) && |key| <= KEY_LENGTH
    ensures Allowed(file, Addition(holder, Add(id, name, a.text, key)))
  {
    hide Agents, Tidy, HasId, Holder;
    if holder.Some? {
      RemovalFreesNoName(file, holder.value, name);
    }
  }
}
