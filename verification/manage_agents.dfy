/**
 * Adding and removing agents by hand, when no registration daemon runs: the questions are
 * asked again until an answer will do. answers are what the user types, in order; running
 * out of them is like quitting.
 */
module ManageAgents {
  import opened Options
  import opened CStrings
  import opened KeyFiles
  import opened KeyFileLines
  import opened KeyFileRuns
  import opened IdFormats

  const QUIT := "\\q"

  ghost predicate GoodName(file: string, manager: string, name: string) {
    ValidName(name) && name != manager && !Named(Agents(file), name)
  }

  /** The first acceptable name before the user quits. */
  ghost predicate Chosen(file: string, manager: string, answers: seq<string>, name: Option<string>) {
    match name
    case Some(n) => exists i ::
      0 <= i < |answers| && answers[i] == n && GoodName(file, manager, n)
      && Rejected(file, manager, answers, i)
    case None => exists i ::
      0 <= i <= |answers| && (i < |answers| ==> answers[i] == QUIT)
      && Rejected(file, manager, answers, i)
  }

  ghost predicate Rejected(file: string, manager: string, answers: seq<string>, n: nat)
    requires n <= |answers|
  {
    forall j | 0 <= j < n :: answers[j] != QUIT && !GoodName(file, manager, answers[j])
  }

  method ChooseName(keys: KeyFile, manager: string, answers: seq<string>) returns (name: Option<string>)
    ensures Chosen(keys.bytes, manager, answers, name)
  {
    for i := 0 to |answers|
      invariant Rejected(keys.bytes, manager, answers, i)
    {
      if answers[i] == QUIT {
        return None;
      }
      var inUse := keys.NameExist(answers[i]);
      var valid := IsValidName(answers[i]);
      if answers[i] != manager && !inUse && valid {
        return Some(answers[i]);
      }
    }
    return None;
  }

  /** The ids "001", "002" and so on, below n. */
  ghost predicate AllTaken(file: string, n: nat) {
    forall m: nat | 1 <= m < n :: HasId(file, Format3(m), false)
  }

  ghost function IdsBelow(n: nat): set<string> {
    if n <= 1 then {} else IdsBelow(n - 1) + {Format3(n - 1)}
  }

  ghost function IdsOf(file: string): set<string> {
    set a | a in Agents(file) :: a.id
  }

  /** Different numbers have different ids. */
  lemma {:induction false} IdsBelowSize(n: nat)
    ensures forall x | x in IdsBelow(n) :: exists m: nat :: 1 <= m < n && x == Format3(m)
    ensures |IdsBelow(n)| == if n == 0 then 0 else n - 1
  {
    hide Format3;
    if n > 1 {
      IdsBelowSize(n - 1);
      FormatRoundTrip(n - 1);
      forall m: nat | 1 <= m < n - 1 ensures Format3(m) != Format3(n - 1) {
        FormatRoundTrip(m);
      }
    }
  }

  /** So a file cannot take more of them than it has lines. */
  lemma TakenAreFew(file: string, n: nat)
    requires n >= 1 && AllTaken(file, n)
    ensures n - 1 <= |IdsOf(file)|
  {
    hide Format3, Agents;
    IdsBelowSize(n);
    forall x | x in IdsBelow(n) ensures x in IdsOf(file) {
      var m: nat :| 1 <= m < n && x == Format3(m);
      assert HasId(file, Format3(m), false);
    }
    assert IdsOf(file) == IdsBelow(n) + (IdsOf(file) - IdsBelow(n));
  }

  /** The default id: the least number whose id no line has, in use or removed. */
  method DefaultId(keys: KeyFile) returns (id: string, ghost n: nat)
    modifies keys`fpPos
    ensures n >= 1 && id == Format3(n) && !HasId(keys.bytes, id, false)
    ensures AllTaken(keys.bytes, n)
  {
    hide Format3, Agents, Position;
    var i := 1;
    while true
      invariant i >= 1 && AllTaken(keys.bytes, i)
      invariant keys.bytes == old(keys.bytes)
      decreases |IdsOf(keys.bytes)| + 1 - i
    {
      id := Format3(i);
      var taken := keys.IDExist(id, false);
      if !taken {
        n := i;
        return;
      }
      i := i + 1;
      TakenAreFew(keys.bytes, i);
    }
  }

  /** The id an answer stands for: the least free one, or the answer's number in the usual format. */
  ghost predicate IdFrom(file: string, answer: string, id: string) {
    if answer == "" || answer == "0" then exists n: nat :: n >= 1 && id == Format3(n) && AllTaken(file, n)
    else ValidId(answer) && id == FormatText(answer)
  }

  /** An answer is accepted with the valid id that it stands for and that no line has. */
  ghost predicate Accepts(file: string, answer: string, id: string) {
    IdFrom(file, answer, id) && ValidId(id) && !HasId(file, id, false)
  }

  ghost predicate NoneAccepted(file: string, answers: seq<string>, n: nat)
    requires n <= |answers|
  {
    forall j | 0 <= j < n :: answers[j] != QUIT && forall id :: !Accepts(file, answers[j], id)
  }

  /** The id of the first acceptable answer before the user quits. */
  ghost predicate IdChosen(file: string, answers: seq<string>, id: Option<string>) {
    match id
    case Some(x) =>
      exists i :: 0 <= i < |answers| && answers[i] != QUIT && Accepts(file, answers[i], x)
          && NoneAccepted(file, answers, i)
    case None =>
      exists i :: 0 <= i <= |answers| && (i < |answers| ==> answers[i] == QUIT) && NoneAccepted(file, answers, i)
  }

  /** What one turn makes of an answer is what the answer stands for, if it stands for anything. */
  lemma StandsForOne(file: string, answer: string, n: nat, id: string)
    requires n >= 1 && AllTaken(file, n) && !HasId(file, Format3(n), false)
    requires Accepts(file, answer, id)
    ensures id == if answer == "" || answer == "0" then Format3(n) else FormatText(answer)
  {
    hide Format3, HasId, FormatText;
    if answer == "" || answer == "0" {
      var m: nat :| m >= 1 && id == Format3(m) && AllTaken(file, m);
      assert m < n ==> HasId(file, Format3(m), false);
      assert n < m ==> HasId(file, Format3(n), false);
    }
  }

  method ChooseId(keys: KeyFile, answers: seq<string>) returns (id: Option<string>)
    modifies keys`fpPos
    ensures IdChosen(keys.bytes, answers, id)
  {
    hide AllTaken, Format3, HasId, Position, FormatText;
    for i := 0 to |answers|
      invariant keys.bytes == old(keys.bytes)
      invariant NoneAccepted(keys.bytes, answers, i)
    {
      var chosen, n := DefaultId(keys);
      var answer := answers[i];
      if answer == QUIT {
        return None;
      }
      DefaultStays(n);
      if answer != "" && answer != "0" {
        chosen := answer;
      }
      var valid := IsValidID(chosen);
      if valid {
        chosen := FormatText(chosen);
      }
      var taken := keys.IDExist(chosen, false);
      var stillValid := IsValidID(chosen);
      if !taken && stillValid {
        assert Accepts(keys.bytes, answer, chosen);
        return Some(chosen);
      }
      forall x ensures !Accepts(keys.bytes, answer, x) {
        if Accepts(keys.bytes, answer, x) {
          StandsForOne(keys.bytes, answer, n, x);
        }
      }
    }
    return None;
  }

  /** Formatting the default id again leaves it. */
  lemma DefaultStays(n: nat)
    ensures ValidId(Format3(n)) ==> FormatText(Format3(n)) == Format3(n)
  {
    FormatRoundTrip(n);
    FormatIsLong(n);
    if ValidId(Format3(n)) {
      FormatValidId(Format3(n));
    }
  }

  /** An answer to the address question: whether it is valid, and whether an agent that has it is to be replaced. */
  datatype Address = Address(text: string, valid: bool, replace: bool)

  /** Some agent in use has the address, and it is one that is looked up. */
  ghost predicate Held(file: string, ip: string) {
    !Unsearched(ip) && exists a :: a in Agents(file) && UsesIp(a, ip)
  }

  ghost predicate GoodAddress(file: string, a: Address) {
    a.valid && (a.replace || !Held(file, a.text))
  }

  ghost predicate NoGoodAddress(file: string, answers: seq<Address>, n: nat)
    requires n <= |answers|
  {
    forall j | 0 <= j < n :: answers[j].text != QUIT && !GoodAddress(file, answers[j])
  }

  /** The first acceptable address before the user quits. */
  ghost predicate AddressChosen(file: string, answers: seq<Address>, a: Option<Address>) {
    match a
    case Some(x) =>
      exists i :: 0 <= i < |answers| && answers[i] == x && x.text != QUIT && GoodAddress(file, x)
          && NoGoodAddress(file, answers, i)
    case None =>
      exists i :: 0 <= i <= |answers| && (i < |answers| ==> answers[i].text == QUIT) && NoGoodAddress(file, answers, i)
  }

  lemma HolderHolds(agents: seq<Agent>, ip: string, id: Option<string>)
    requires Holder(agents, ip, id)
    ensures id.Some? <==> !Unsearched(ip) && exists a :: a in agents && UsesIp(a, ip)
    ensures id.Some? ==> Holds(agents, id.value, true)
  {
    if id.Some? {
      var k :| 0 <= k < |agents| && FirstAt(agents, ip, k) && agents[k].id == id.value;
      assert agents[k] in agents && UsesIp(agents[k], ip) && Wanted(Some(agents[k]), id.value, true);
    }
  }

  /** The loop of the address question; an agent that has the address is removed on the spot. */
  method ChooseAddress(keys: KeyFile, answers: seq<Address>) returns (a: Option<Address>, holder: Option<string>)
    modifies keys
    ensures AddressChosen(old(keys.bytes), answers, a)
    ensures a.Some? ==> Holder(Agents(old(keys.bytes)), a.value.text, holder)
    ensures a.None? ==> holder.None?
    ensures keys.bytes == AfterRemoval(old(keys.bytes), holder)
  {
    hide HasId, Position, Agents, Holder, UsesIp, Unsearched;
    for i := 0 to |answers|
      invariant keys.bytes == old(keys.bytes)
      invariant NoGoodAddress(keys.bytes, answers, i)
    {
      if answers[i].text == QUIT {
        return None, None;
      }
      if answers[i].valid {
        holder := keys.IPExist(answers[i].text);
        HolderHolds(Agents(keys.bytes), answers[i].text, holder);
        if holder.None? || answers[i].replace {
          assert GoodAddress(keys.bytes, answers[i]);
          if holder.Some? {
            var _ := keys.RemoveAgent(holder.value);
          }
          return Some(answers[i]), holder;
        }
      }
    }
    return None, None;
  }

  ghost function AfterRemoval(file: string, holder: Option<string>): string {
    if holder.Some? then Apply(file, Remove(holder.value)) else file
  }

  ghost function StepsOf(holder: Option<string>, add: Option<Step>): seq<Step> {
    (if holder.Some? then [Remove(holder.value)] else []) + (if add.Some? then [add.value] else [])
  }

  /**
   * add_agent: name, address and id are the first acceptable answers. The file after it is that of a run of at most
   * a removal, of the agent that held the address, and an addition. A call that adds nothing leaves the file
   * unchanged exactly if it got no further than the name, or no agent in use had the address accepted.
   */
  method AddAgent(keys: KeyFile, manager: string, names: seq<string>, addresses: seq<Address>, ids: seq<string>,
                  key: string,
                  confirmed: bool)
    returns (added: bool, ghost name: Option<string>, ghost address: Option<Address>, ghost holder: Option<string>,
             ghost id: Option<string>, ghost steps: seq<Step>)
    requires forall a | a in addresses && a.valid :: Plain(a.text) && |a.text| <= IPSIZE
    requires Plain(key) && |key| <= KEY_LENGTH
    modifies keys
    ensures Chosen(old(keys.bytes), manager, names, name)
    ensures if name.None? then address.None? else AddressChosen(old(keys.bytes), addresses, address)
    ensures added <==> id.Some? && confirmed
    ensures if address.None? then holder.None? else Holder(Agents(old(keys.bytes)), address.value.text, holder)
    ensures if address.None? then id.None? else IdChosen(AfterRemoval(old(keys.bytes), holder), ids, id)
    ensures steps == StepsOf(holder, if added then Some(Add(id.value, name.value, address.value.text, key)) else None)
    ensures keys.bytes == Run(old(keys.bytes), steps)
    ensures Tidy(old(keys.bytes)) ==> Legal(old(keys.bytes), steps)
    ensures !added ==> (keys.bytes == old(keys.bytes) <==> address.None? || !Held(old(keys.bytes), address.value.text))
  {
    hide Chosen, AddressChosen, IdChosen, Held, Run, Legal, Holder, GoodName, Apply;
    ghost var before := keys.bytes;
    added, address, holder, id, steps := false, None, None, None, [];
    var n := ChooseName(keys, manager, names);
    name := n;
    var a: Option<Address>, h: Option<string> := None, None;
    if n.Some? {
      a, h := ChooseAddress(keys, addresses);
    }
    address, holder := a, h;
    RemovalSteps(before, holder);
    steps := StepsOf(holder, None);
    if a.None? {
      return;
    }
    ValidAddress(before, addresses, a.value);
    HolderDecides(before, a.value.text, holder);
    var x := ChooseId(keys, ids);
    id := x;
    if x.None? || !confirmed {
      return;
    }
    ghost var step := Add(x.value, n.value, a.value.text, key);
    AdditionStep(before, manager, names, holder, ids, step);
    keys.bytes := keys.bytes + Line(x.value, n.value, a.value.text, key);
    added, steps := true, StepsOf(holder, Some(step));
    assert keys.bytes == Run(before, steps);
  }

  lemma ValidAddress(file: string, answers: seq<Address>, a: Address)
    requires AddressChosen(file, answers, Some(a))
    ensures a in answers && a.valid
  {
  }

  /** Removing the holder of an address changes the file. */
  lemma HolderDecides(file: string, ip: string, holder: Option<string>)
    requires Holder(Agents(file), ip, holder)
    ensures AfterRemoval(file, holder) == file <==> !Held(file, ip)
  {
    hide Holder, AgentsFrom, UsesIp, Unsearched, AgentAt;
    HolderHolds(Agents(file), ip, holder);
    if holder.Some? {
      PositionFinds(file, 0, holder.value, true);
      AgentHasSpace(file, Position(file, holder.value, true));
    }
  }

  lemma RemovalSteps(file: string, holder: Option<string>)
    ensures Run(file, StepsOf(holder, None)) == AfterRemoval(file, holder) && Legal(file, StepsOf(holder, None))
  {
    hide Apply;
    if holder.Some? {
      assert StepsOf(holder, None) == [Remove(holder.value)];
      assert [Remove(holder.value)][1..] == [];
    }
  }

  /** The addition is a legal step after the removal, and its effect is the line appended. */
  lemma AdditionStep(file: string, manager: string, names: seq<string>, holder: Option<string>, ids: seq<string>,
                     add: Step)
    requires add.Add? && Chosen(file, manager, names, Some(add.name))
        && IdChosen(AfterRemoval(file, holder), ids, Some(add.id))
    requires Plain(add.ip) && |add.ip| <= IPSIZE && Plain(add.key) && |add.key| <= KEY_LENGTH
    ensures Run(file, StepsOf(holder, Some(add))) ==
        AfterRemoval(file, holder) + Line(add.id, add.name, add.ip, add.key)
    ensures Tidy(file) ==> Legal(file, StepsOf(holder, Some(add)))
  {
    hide Agents, HasId, Position, Tidy;
    RemovalSteps(file, holder);
    assert StepsOf(holder, Some(add)) == StepsOf(holder, None) + [add];
    RunSnoc(file, StepsOf(holder, None), add);
    if Tidy(file) && holder.Some? {
      RemovalFreesNoName(file, holder.value, add.name);
    }
  }

  lemma {:induction false} RunSnoc(file: string, steps: seq<Step>, step: Step)
    ensures Run(file, steps + [step]) == Apply(Run(file, steps), step)
    ensures Legal(file, steps) && Enabled(Run(file, steps), step) ==> Legal(file, steps + [step])
    decreases |steps|
  {
    hide Enabled, Apply;
    if steps == [] {
      assert [step][1..] == [];
    } else {
      assert (steps + [step])[1..] == steps[1..] + [step];
      RunSnoc(Apply(file, steps[0]), steps[1..], step);
    }
  }

  /** A name that was free before an agent was removed is free afterwards. */
  lemma RemovalFreesNoName(file: string, id: string, name: string)
    requires Tidy(file) && !Named(Agents(file), name)
    ensures !Named(Agents(Apply(file, Remove(id))), name)
  {
    RemoveAgents(file, id);
    if HasId(file, id, true) {
      var k := RetiredIsUpdate(Agents(file), id);
      var after := Agents(file)[k := Removed(id)];
      forall a | a in after ensures LiveName(Some(a)) != Some(name) {
        if a.Live? {
          assert a in Agents(file);
        }
      }
    }
  }

  /** An addition that is not confirmed, or has no id, removes the agent that had the address all the same. */
  lemma UnconfirmedRemoves(key: string)
    requires Plain(key) && |key| <= KEY_LENGTH
    ensures var file := Line("001", "web", "10.0.0.1", key);
            && Held(file, "10.0.0.1") && Holder(Agents(file), "10.0.0.1", Some("001"))
            && AfterRemoval(file, Some("001")) != file
  {
    var file := Line("001", "web", "10.0.0.1", key);
    assert "10.0.0.1"[0] != "any"[0] && !Unsearched("10.0.0.1");
    NewLine("001", "web", "10.0.0.1", key);
    assert FirstAt(Agents(file), "10.0.0.1", 0) && Agents(file)[0] in Agents(file);
    HolderDecides(file, "10.0.0.1", Some("001"));
  }

  /** The first answer before quitting that, formatted, is the id of some line, in use or removed. */
  ghost predicate Known(file: string, answers: seq<string>, id: Option<string>) {
    match id
    case Some(x) =>
      exists i :: 0 <= i < |answers| && answers[i] != QUIT && x == FormatText(answers[i]) && HasId(file, x, false)
                  && NoneKnown(file, answers, i)
    case None => exists i ::
      0 <= i <= |answers| && (i < |answers| ==> answers[i] == QUIT)
      && NoneKnown(file, answers, i)
  }

  ghost predicate NoneKnown(file: string, answers: seq<string>, n: nat)
    requires n <= |answers|
  {
    forall j | 0 <= j < n :: answers[j] != QUIT && !HasId(file, FormatText(answers[j]), false)
  }

  method ChooseKnownId(keys: KeyFile, answers: seq<string>) returns (id: Option<string>)
    modifies keys`fpPos
    ensures Known(keys.bytes, answers, id)
  {
    hide HasId, Position, FormatText;
    for i := 0 to |answers|
      invariant keys.bytes == old(keys.bytes) && NoneKnown(keys.bytes, answers, i)
    {
      if answers[i] == QUIT {
        return None;
      }
      var formatted := FormatText(answers[i]);
      var known := keys.IDExist(formatted, false);
      if known {
        return Some(formatted);
      }
    }
    return None;
  }

  /**
   * remove_agent. The question accepts the id of an agent that was removed before, and the removal then fails and
   * changes nothing.
   */
  method RemoveAgent(keys: KeyFile, answers: seq<string>, confirmed: bool)
      returns (removed: bool, ghost id: Option<string>)
    modifies keys
    ensures Known(old(keys.bytes), answers, id)
    ensures removed == (id.Some? && confirmed && HasId(old(keys.bytes), id.value, true))
    ensures keys.bytes == if removed then Apply(old(keys.bytes), Remove(id.value)) else old(keys.bytes)
  {
    var chosen := ChooseKnownId(keys, answers);
    id, removed := chosen, false;
    if chosen.Some? && confirmed {
      removed := keys.RemoveAgent(chosen.value);
    }
  }
}
