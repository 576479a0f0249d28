/**
 * The conditions a composite rule puts on an earlier event before it counts it:
 * same agent, same or different static fields, same or different dynamic fields.
 */
module Filters {
  import opened Options

  /** Index of a static field; also its bit in the rule's 32-bit field masks. */
  const SRCIP: nat := 0
  const ID: nat := 1
  const N_FIELDS: nat := 17
  const DYNAMICS: nat := 17

  /** A decoded field. */
  datatype Field = Field(key: string, value: string)

  /** The parts of an event a search looks at. A missing string is None. */
  datatype Attrs = Attrs(
    generateTime: int,
    agentId: Option<string>,
    statics: seq<Option<string>>,
    fields: seq<Field>,
    fullLog: string)

  datatype Rule = Rule(
    level: int,
    frequency: nat,
    timeframe: int,
    globalFrequency: bool,
    sameExtraInfo: bool,
    sameMask: nat,
    differentMask: nat,
    sameFields: seq<string>,
    notSameFields: seq<string>)

  type Event = a: Attrs | |a.statics| == N_FIELDS witness
    Attrs(0, None, seq(N_FIELDS, _ => None), [], "")

  /** Whether bit i of a mask is set. */
  predicate Bit(mask: nat, i: nat)
    decreases i
  {
    if i == 0 then mask % 2 == 1 else Bit(mask / 2, i - 1)
  }

  lemma {:induction false} NoBitsInZero(i: nat)
    ensures !Bit(0, i)
  {
    if i != 0 {
      NoBitsInZero(i - 1);
    }
  }

  function Power2(n: nat): nat {
    if n == 0 then 1 else 2 * Power2(n - 1)
  }

  /** What the low bits of a mask amount to. */
  function LowBits(mask: nat, n: nat): nat {
    if n == 0 then 0 else LowBits(mask, n - 1) + if Bit(mask, n - 1) then Power2(n - 1) else 0
  }

  /** The bits are the binary digits: a mask below 2^n is the sum of the powers of two whose bits are set. */
  lemma {:induction false} MaskIsItsBits(mask: nat, n: nat)
    requires mask < Power2(n)
    ensures LowBits(mask, n) == mask
  {
    if n != 0 {
      MaskIsItsBits(mask / 2, n - 1);
      LowBitsOfHalf(mask, n - 1);
    }
  }

  lemma {:induction false} LowBitsOfHalf(mask: nat, n: nat)
    ensures LowBits(mask, n + 1) == mask % 2 + 2 * LowBits(mask / 2, n)
  {
    if n != 0 {
      LowBitsOfHalf(mask, n - 1);
    } else {
      assert LowBits(mask, 0) == 0 && LowBits(mask / 2, 0) == 0;
    }
  }

  /** mask & ALL_FIELDS is not zero. */
  predicate HasStatic(mask: nat) {
    exists i | 0 <= i < N_FIELDS :: Bit(mask, i)
  }

  function Lower(c: char): char {
    if 'A' <= c <= 'Z' then 'a' + (c - 'A') else c
  }

  function Folded(s: string): (t: string)
    ensures |t| == |s|
  {
    seq(|s|, i requires 0 <= i < |s| => Lower(s[i]))
  }

  /** strcasecmp finds no difference. */
  predicate SameName(a: string, b: string) {
    Folded(a) == Folded(b)
  }

  /** The same letter, in upper and in lower case. */
  predicate OtherCase(upper: char, lower: char) {
    'A' <= upper <= 'Z' && lower as int - upper as int == 32
  }

  /** Names are taken as equal exactly if they agree place by place, up to the case of letters. */
  lemma SameNameExactly(a: string, b: string)
    ensures SameName(a, b) <==>
      |a| == |b|
      && forall i | 0 <= i < |a| :: a[i] == b[i] || OtherCase(a[i], b[i]) || OtherCase(b[i], a[i])
  {
    forall c: char, d: char ensures Lower(c) == Lower(d) <==> c == d || OtherCase(c, d) || OtherCase(d, c) {}
    hide Lower, OtherCase;
    if SameName(a, b) {
      forall i | 0 <= i < |a| ensures Lower(a[i]) == Lower(b[i]) {
        assert Folded(a)[i] == Folded(b)[i];
      }
    }
  }

  /** The value of the first of the fields from i on that has the name, upper and lower case taken as equal. */
  function FieldFrom(fields: seq<Field>, name: string, i: nat): (v: Option<string>)
    requires i <= |fields|
    ensures v.None? <==> forall k | i <= k < |fields| :: !SameName(fields[k].key, name)
    decreases |fields| - i
  {
    if i == |fields| then None
    else if SameName(fields[i].key, name) then Some(fields[i].value)
    else FieldFrom(fields, name, i + 1)
  }

  /** Field k has the name, and none before it. */
  ghost predicate FirstOfName(fields: seq<Field>, name: string, k: nat) {
    k < |fields| && SameName(fields[k].key, name) && forall j | 0 <= j < k :: !SameName(fields[j].key, name)
  }

  /** A value that is found is that of the first field with the name. */
  lemma {:induction false} FindsFirstField(fields: seq<Field>, name: string, i: nat)
    requires i <= |fields| && FieldFrom(fields, name, i).Some?
    requires forall j | 0 <= j < i :: !SameName(fields[j].key, name)
    ensures exists k: nat ::
      i <= k && FirstOfName(fields, name, k) && FieldFrom(fields, name, i) == Some(fields[k].value)
    decreases |fields| - i
  {
    hide SameName;
    if SameName(fields[i].key, name) {
      assert FirstOfName(fields, name, i);
    } else {
      FindsFirstField(fields, name, i + 1);
    }
  }

  function FieldOf(e: Event, name: string): Option<string> {
    FieldFrom(e.fields, name, 0)
  }

  method FindField(e: Event, name: string) returns (value: Option<string>)
    ensures value == FieldOf(e, name)
    ensures value.None? <==> forall k | 0 <= k < |e.fields| :: !SameName(e.fields[k].key, name)
    ensures value.Some? ==> exists k: nat :: FirstOfName(e.fields, name, k) && value.value == e.fields[k].value
  {
    if FieldOf(e, name).Some? {
      FindsFirstField(e.fields, name, 0);
    }
    for i := 0 to |e.fields|
      invariant FieldFrom(e.fields, name, i) == FieldOf(e, name)
    {
      if SameName(e.fields[i].key, name) {
        return Some(e.fields[i].value);
      }
    }
    return None;
  }

  predicate SameString(a: Option<string>, b: Option<string>) {
    a.Some? && b.Some? && a.value == b.value
  }

  // ---- What each condition means

  ghost predicate SameStatics(r: Rule, lf: Event, my: Event) {
    forall i | 2 <= i < N_FIELDS && Bit(r.sameMask, i) :: SameString(lf.statics[i], my.statics[i])
  }

  ghost predicate DifferentStatics(r: Rule, lf: Event, my: Event) {
    forall i | 0 <= i < N_FIELDS && Bit(r.differentMask, i) :: !SameString(lf.statics[i], my.statics[i])
  }

  ghost predicate SameDynamics(r: Rule, lf: Event, my: Event) {
    && my.fields != [] && lf.fields != []
    && forall f | f in r.sameFields :: SameString(FieldOf(my, f), FieldOf(lf, f))
  }

  ghost predicate DifferentDynamics(r: Rule, lf: Event, my: Event) {
    && (my.fields != [] || lf.fields != [])
    && forall f | f in r.notSameFields :: !SameString(FieldOf(my, f), FieldOf(lf, f))
  }

  ghost predicate SameIdentity(r: Rule, lf: Event, my: Event) {
    && (!r.globalFrequency ==> SameString(lf.agentId, my.agentId))
    && (Bit(r.sameMask, ID) ==> SameString(lf.statics[ID], my.statics[ID]))
    && (Bit(r.sameMask, SRCIP) ==> SameString(lf.statics[SRCIP], my.statics[SRCIP]))
  }

  ghost predicate DynamicsOk(r: Rule, lf: Event, my: Event) {
    && (Bit(r.sameMask, DYNAMICS) ==> SameDynamics(r, lf, my))
    && (Bit(r.differentMask, DYNAMICS) ==> DifferentDynamics(r, lf, my))
  }

  ghost predicate StaticsOk(r: Rule, lf: Event, my: Event) {
    r.sameExtraInfo ==> SameStatics(r, lf, my) && DifferentStatics(r, lf, my)
  }

  ghost predicate Passes(r: Rule, lf: Event, my: Event) {
    SameIdentity(r, lf, my) && DynamicsOk(r, lf, my) && StaticsOk(r, lf, my)
  }

  // ---- The loops that decide them

  method SameLoop(r: Rule, lf: Event, my: Event) returns (ok: bool)
    ensures ok <==> SameStatics(r, lf, my)
  {
    if !HasStatic(r.sameMask) {
      return true;
    }
    var same: nat := r.sameMask / 2 / 2;
    var i := 2;
    assert forall j: nat | 2 <= j :: Bit(r.sameMask, j) == Bit(r.sameMask / 2 / 2, j - 2) by {
      forall j: nat | 2 <= j ensures Bit(r.sameMask, j) == Bit(r.sameMask / 2 / 2, j - 2) {
        assert Bit(r.sameMask, j) == Bit(r.sameMask / 2, j - 1);
      }
    }
    while same != 0 && i < N_FIELDS
      invariant 2 <= i <= N_FIELDS
      invariant forall j: nat | i <= j :: Bit(r.sameMask, j) == Bit(same, j - i)
      invariant forall j | 2 <= j < i && Bit(r.sameMask, j) :: SameString(lf.statics[j], my.statics[j])
      decreases N_FIELDS - i
    {
      assert Bit(r.sameMask, i) == Bit(same, 0);
      if same % 2 == 1 {
        if !SameString(lf.statics[i], my.statics[i]) {
          return false;
        }
      }
      same := same / 2;
      i := i + 1;
    }
    if same == 0 {
      forall j: nat | i <= j ensures !Bit(r.sameMask, j) { NoBitsInZero(j - i); }
    }
    ok := true;
  }

  method DifferentLoop(r: Rule, lf: Event, my: Event) returns (ok: bool)
    ensures ok <==> DifferentStatics(r, lf, my)
  {
    if !HasStatic(r.differentMask) {
      return true;
    }
    var different: nat := r.differentMask;
    var i := 0;
    while different != 0 && i < N_FIELDS
      invariant 0 <= i <= N_FIELDS
      invariant forall j: nat | i <= j :: Bit(r.differentMask, j) == Bit(different, j - i)
      invariant forall j | 0 <= j < i && Bit(r.differentMask, j) :: !SameString(lf.statics[j], my.statics[j])
      decreases N_FIELDS - i
    {
      assert Bit(r.differentMask, i) == Bit(different, 0);
      if different % 2 == 1 {
        if SameString(lf.statics[i], my.statics[i]) {
          return false;
        }
      }
      different := different / 2;
      i := i + 1;
    }
    if different == 0 {
      forall j: nat | i <= j ensures !Bit(r.differentMask, j) { NoBitsInZero(j - i); }
    }
    ok := true;
  }

  /** Whether any of the named dynamic fields has the same value in both events. */
  method AnySame(names: seq<string>, lf: Event, my: Event) returns (found: bool)
    ensures found <==> exists f | f in names :: SameString(FieldOf(my, f), FieldOf(lf, f))
  {
    found := false;
    var i := 0;
    while i < |names| && !found
      invariant 0 <= i <= |names|
      invariant found ==> 0 < i && SameString(FieldOf(my, names[i - 1]), FieldOf(lf, names[i - 1]))
      invariant !found ==> forall k | 0 <= k < i :: !SameString(FieldOf(my, names[k]), FieldOf(lf, names[k]))
    {
      var mine := FindField(my, names[i]);
      var field := FindField(lf, names[i]);
      found := SameString(mine, field);
      i := i + 1;
    }
  }

  method AllSame(names: seq<string>, lf: Event, my: Event) returns (found: bool)
    ensures found <==> forall f | f in names :: SameString(FieldOf(my, f), FieldOf(lf, f))
  {
    found := true;
    var i := 0;
    while i < |names| && found
      invariant 0 <= i <= |names|
      invariant !found ==> 0 < i && !SameString(FieldOf(my, names[i - 1]), FieldOf(lf, names[i - 1]))
      invariant found ==> forall k | 0 <= k < i :: SameString(FieldOf(my, names[k]), FieldOf(lf, names[k]))
    {
      var mine := FindField(my, names[i]);
      var field := FindField(lf, names[i]);
      found := SameString(mine, field);
      i := i + 1;
    }
  }

  method CheckDynamics(r: Rule, lf: Event, my: Event) returns (ok: bool)
    ensures ok <==> DynamicsOk(r, lf, my)
  {
    ok := false;
    if Bit(r.sameMask, DYNAMICS) {
      if my.fields == [] || lf.fields == [] { return; }
      var found := AllSame(r.sameFields, lf, my);
      if !found { return; }
    }
    if Bit(r.differentMask, DYNAMICS) {
      if my.fields == [] && lf.fields == [] { return; }
      var found := AnySame(r.notSameFields, lf, my);
      if found { return; }
    }
    ok := true;
  }

  method CheckStatics(r: Rule, lf: Event, my: Event) returns (ok: bool)
    ensures ok <==> StaticsOk(r, lf, my)
  {
    ok := true;
    if r.sameExtraInfo {
      ok := SameLoop(r, lf, my);
      if ok {
        ok := DifferentLoop(r, lf, my);
      }
    }
  }

  /** All the checks of one turn of the search loop, in the order they are made. */
  method CheckFilters(r: Rule, lf: Event, my: Event) returns (pass: bool)
    ensures pass <==> Passes(r, lf, my)
  {
    pass := false;
    if !r.globalFrequency && !SameString(lf.agentId, my.agentId) { return; }
    if Bit(r.sameMask, ID) && !SameString(lf.statics[ID], my.statics[ID]) { return; }
    if Bit(r.sameMask, SRCIP) && !SameString(lf.statics[SRCIP], my.statics[SRCIP]) { return; }
    pass := CheckDynamics(r, lf, my);
    if pass {
      pass := CheckStatics(r, lf, my);
    }
  }

  /** The value of the first decoded field of a name, if that is what v is. */
  ghost predicate HasField(e: Event, name: string, v: string) {
    exists k: nat :: FirstOfName(e.fields, name, k) && e.fields[k].value == v
  }

  /** The two events have the same value in the first field of a name. */
  ghost predicate AgreeOn(a: Event, b: Event, name: string) {
    exists v :: HasField(a, name, v) && HasField(b, name, v)
  }

  lemma FieldIsFirst(e: Event, name: string, v: string)
    ensures FieldOf(e, name) == Some(v) <==> HasField(e, name, v)
  {
    if FieldOf(e, name).Some? {
      FindsFirstField(e.fields, name, 0);
    }
    hide SameName;
    if HasField(e, name, v) {
      var k: nat :| FirstOfName(e.fields, name, k) && e.fields[k].value == v;
      if FieldOf(e, name).Some? {
        var m: nat :| FirstOfName(e.fields, name, m) && FieldOf(e, name) == Some(e.fields[m].value);
        assert !(m < k) && !(k < m);
      }
    }
  }

  lemma AgreesExactly(a: Event, b: Event, name: string)
    ensures SameString(FieldOf(a, name), FieldOf(b, name)) <==> AgreeOn(a, b, name)
  {
    hide HasField, FieldOf;
    if FieldOf(a, name).Some? {
      FieldIsFirst(a, name, FieldOf(a, name).value);
      FieldIsFirst(b, name, FieldOf(a, name).value);
    }
    if AgreeOn(a, b, name) {
      var v :| HasField(a, name, v) && HasField(b, name, v);
      FieldIsFirst(a, name, v);
      FieldIsFirst(b, name, v);
    }
  }

  /**
   * What lets an earlier event through, field by field: the same agent unless the frequency is global; the same value
   * in every static field named so, of which the first two are always compared and the others only if the option is
   * set; not the same value in any static field named so, if the option is set; and the same for decoded fields.
   */
  lemma PassesExactly(r: Rule, lf: Event, my: Event)
    ensures Passes(r, lf, my) <==>
      && (r.globalFrequency || (my.agentId.Some? && lf.agentId == my.agentId))
      && (forall i | 0 <= i < N_FIELDS && Bit(r.sameMask, i) && (i < 2 || r.sameExtraInfo) ::
            my.statics[i].Some? && lf.statics[i] == my.statics[i])
      && (forall i | 0 <= i < N_FIELDS && Bit(r.differentMask, i) && r.sameExtraInfo ::
            my.statics[i].None? || lf.statics[i] != my.statics[i])
      && (Bit(r.sameMask, DYNAMICS) ==> my.fields != [] && lf.fields != [] && forall f | f in r.sameFields ::
          AgreeOn(my, lf, f))
      && (Bit(r.differentMask, DYNAMICS) ==>
            (my.fields != [] || lf.fields != []) && forall f | f in r.notSameFields :: !AgreeOn(my, lf, f))
  {
    forall f ensures SameString(FieldOf(my, f), FieldOf(lf, f)) <==> AgreeOn(my, lf, f) {
      AgreesExactly(my, lf, f);
    }
    hide FieldOf, AgreeOn, Bit;
    assert forall a: Option<string>, b: Option<string> :: SameString(a, b) <==> b.Some? && a == b;
    assert SameString(lf.agentId, my.agentId) <==> my.agentId.Some? && lf.agentId == my.agentId;
    StaticsExactly(r, lf, my);
  }

  lemma StaticsExactly(r: Rule, lf: Event, my: Event)
    ensures (SameStatics(r, lf, my)
             && (Bit(r.sameMask, ID) ==> SameString(lf.statics[ID], my.statics[ID]))
             && (Bit(r.sameMask, SRCIP) ==> SameString(lf.statics[SRCIP], my.statics[SRCIP])))
        <==> forall i | 0 <= i < N_FIELDS && Bit(r.sameMask, i) :: my.statics[i].Some? && lf.statics[i] == my.statics[i]
  {
    hide Bit;
  }

  // ---- When the filters group events into classes

  /** A different_* or not_same condition that can tell two events apart. */
  ghost predicate Differs(r: Rule) {
    || (r.sameExtraInfo && HasStatic(r.differentMask))
    || (Bit(r.differentMask, DYNAMICS) && (r.notSameFields != [] || !Bit(r.sameMask, DYNAMICS)))
  }

  /** Some field is to be both the same and different, so that no event ever passes. */
  ghost predicate Contradictory(r: Rule) {
    || (r.sameExtraInfo && exists i | 0 <= i < N_FIELDS :: Bit(r.sameMask, i) && Bit(r.differentMask, i))
    || (Bit(r.sameMask, DYNAMICS) && Bit(r.differentMask, DYNAMICS)
        && exists f, g | f in r.sameFields && g in r.notSameFields :: SameName(f, g))
  }

  lemma {:induction false} SameNameSameField(fields: seq<Field>, f: string, g: string, i: nat)
    requires SameName(f, g) && i <= |fields|
    ensures FieldFrom(fields, f, i) == FieldFrom(fields, g, i)
    decreases |fields| - i
  {
    if i < |fields| {
      SameNameSameField(fields, f, g, i + 1);
    }
  }

  lemma NothingPasses(r: Rule, lf: Event, my: Event)
    requires Contradictory(r)
    ensures !Passes(r, lf, my)
  {
    if r.sameExtraInfo && exists i | 0 <= i < N_FIELDS :: Bit(r.sameMask, i) && Bit(r.differentMask, i) {
      var i :| 0 <= i < N_FIELDS && Bit(r.sameMask, i) && Bit(r.differentMask, i);
      if SameString(lf.statics[i], my.statics[i]) {
        assert !DifferentStatics(r, lf, my);
      }
    } else {
      var f, g :| f in r.sameFields && g in r.notSameFields && SameName(f, g);
      SameNameSameField(lf.fields, f, g, 0);
      SameNameSameField(my.fields, f, g, 0);
    }
  }

  /** Two events counted for one event are both counted for any event that counts either. */
  lemma ClassesOfEvents(r: Rule, a: Event, b: Event, my: Event, my': Event)
    requires !Differs(r)
    requires Passes(r, a, my) && Passes(r, b, my) && Passes(r, a, my')
    ensures Passes(r, b, my')
  {
    if r.sameExtraInfo {
      forall i | 2 <= i < N_FIELDS && Bit(r.sameMask, i)
        ensures SameString(b.statics[i], my'.statics[i])
      {
        assert SameString(a.statics[i], my.statics[i]) && SameString(a.statics[i], my'.statics[i]);
      }
    }
    if Bit(r.sameMask, DYNAMICS) {
      forall f | f in r.sameFields ensures SameString(FieldOf(my', f), FieldOf(b, f)) {
        assert SameString(FieldOf(my, f), FieldOf(a, f)) && SameString(FieldOf(my', f), FieldOf(a, f));
      }
    }
  }

  /** A name longer than any of these, and so different from all of them. */
  function NewName(names: seq<string>): (name: string)
    ensures forall f | f in names :: |f| < |name|
  {
    if names == [] then "x"
    else
      var rest := NewName(names[1..]);
      if |names[0]| < |rest| then rest else names[0] + "x"
  }

  function Empties(names: seq<string>): (fields: seq<Field>)
    ensures |fields| == |names| && forall i | 0 <= i < |names| :: fields[i] == Field(names[i], "")
  {
    seq(|names|, i requires 0 <= i < |names| => Field(names[i], ""))
  }

  /** An event that has every field the rule compares for equality, and none that it compares for difference. */
  function PlainEvent(r: Rule): (e: Event)
    ensures e.generateTime == 0
  {
    Attrs(
      0, Some(""),
      seq(N_FIELDS, i requires 0 <= i < N_FIELDS =>
        if r.sameExtraInfo && Bit(r.differentMask, i) then None else Some("")),
      [Field(NewName(r.notSameFields), "")] + Empties(if Bit(r.sameMask, DYNAMICS) then r.sameFields else []),
      "")
  }

  /** Fields that are all empty have the empty value under every name they have at all. */
  lemma {:induction false} EmptyField(fields: seq<Field>, name: string, i: nat, k: nat)
    requires i <= k < |fields| && SameName(fields[k].key, name)
    requires forall j | 0 <= j < |fields| :: fields[j].value == ""
    ensures FieldFrom(fields, name, i) == Some("")
    decreases k - i
  {
    if !SameName(fields[i].key, name) {
      EmptyField(fields, name, i + 1, k);
    }
  }

  lemma PlainSame(r: Rule, f: string)
    requires Bit(r.sameMask, DYNAMICS) && f in r.sameFields
    ensures FieldOf(PlainEvent(r), f) == Some("")
  {
    var k :| 0 <= k < |r.sameFields| && r.sameFields[k] == f;
    assert PlainEvent(r).fields[k + 1] == Field(f, "");
    EmptyField(PlainEvent(r).fields, f, 0, k + 1);
  }

  /** A field that is found is found where more fields follow. */
  lemma SameFieldKept(fields: seq<Field>, more: seq<Field>, name: string)
    requires fields <= more && FieldFrom(fields, name, 0).Some?
    requires forall j | 0 <= j < |more| :: more[j].value == ""
    ensures FieldFrom(more, name, 0) == Some("")
  {
    var k :| 0 <= k < |fields| && SameName(fields[k].key, name);
    assert more[k] == fields[k];
    EmptyField(more, name, 0, k);
  }

  lemma PlainDifferent(r: Rule, g: string)
    requires Bit(r.differentMask, DYNAMICS) && g in r.notSameFields && !Contradictory(r)
    ensures FieldOf(PlainEvent(r), g) == None
  {
  }

  lemma PlainEventPasses(r: Rule)
    requires !Contradictory(r)
    ensures Passes(r, PlainEvent(r), PlainEvent(r))
  {
    forall f | Bit(r.sameMask, DYNAMICS) && f in r.sameFields ensures FieldOf(PlainEvent(r), f) == Some("") {
      PlainSame(r, f);
    }
    forall g | Bit(r.differentMask, DYNAMICS) && g in r.notSameFields ensures FieldOf(PlainEvent(r), g) == None {
      PlainDifferent(r, g);
    }
  }

  /** A plain event with a value for one field that is to differ, or with no decoded field at all. */
  ghost function TellingEvent(r: Rule): (m: Event)
    requires Differs(r)
    ensures m.generateTime == 0
  {
    var e := PlainEvent(r);
    if r.sameExtraInfo && HasStatic(r.differentMask) then
      var i :| 0 <= i < N_FIELDS && Bit(r.differentMask, i);
      e.(statics := e.statics[i := Some("")])
    else if r.notSameFields != [] then e.(fields := e.fields + [Field(r.notSameFields[0], "")])
    else e.(fields := [])
  }

  /** An event that passes with a plain one, both ways round, but not with itself. */
  ghost predicate Tells(r: Rule, m: Event) {
    Passes(r, m, PlainEvent(r)) && Passes(r, PlainEvent(r), m) && !Passes(r, m, m)
  }

  lemma TellsByStatic(r: Rule, i: nat)
    requires !Contradictory(r) && r.sameExtraInfo && i < N_FIELDS && Bit(r.differentMask, i)
    ensures var e := PlainEvent(r); Tells(r, e.(statics := e.statics[i := Some("")]))
  {
    hide FieldFrom, Differs;
    var e := PlainEvent(r);
    var m := e.(statics := e.statics[i := Some("")]);
    PlainEventPasses(r);
    assert SameString(m.statics[i], m.statics[i]);
    assert forall f :: FieldOf(m, f) == FieldOf(e, f);
  }

  lemma TellsByField(r: Rule)
    requires !Contradictory(r) && Bit(r.differentMask, DYNAMICS) && r.notSameFields != []
    ensures var e := PlainEvent(r); Tells(r, e.(fields := e.fields + [Field(r.notSameFields[0], "")]))
  {
    hide FieldFrom, Differs;
    var e, g := PlainEvent(r), r.notSameFields[0];
    var m := e.(fields := e.fields + [Field(g, "")]);
    PlainEventPasses(r);
    EmptyField(m.fields, g, 0, |m.fields| - 1);
    assert g in r.notSameFields && SameString(FieldOf(m, g), FieldOf(m, g));
    forall f | Bit(r.sameMask, DYNAMICS) && f in r.sameFields
      ensures FieldOf(m, f) == FieldOf(e, f) == Some("")
    {
      PlainSame(r, f);
      SameFieldKept(e.fields, m.fields, f);
    }
    forall x | x in r.notSameFields ensures FieldOf(e, x) == None {
      PlainDifferent(r, x);
    }
  }

  lemma TellsByNone(r: Rule)
    requires !Contradictory(r)
    requires Bit(r.differentMask, DYNAMICS) && r.notSameFields == [] && !Bit(r.sameMask, DYNAMICS)
    ensures Tells(r, PlainEvent(r).(fields := []))
  {
    hide FieldFrom, Differs;
    PlainEventPasses(r);
  }

  lemma TellingEventPasses(r: Rule)
    requires Differs(r) && !Contradictory(r)
    ensures Tells(r, TellingEvent(r))
  {
    var e, m := PlainEvent(r), TellingEvent(r);
    hide Tells, Contradictory, PlainEvent, FieldFrom;
    if r.sameExtraInfo && HasStatic(r.differentMask) {
      var i :| 0 <= i < N_FIELDS && Bit(r.differentMask, i) && m == e.(statics := e.statics[i := Some("")]);
      TellsByStatic(r, i);
    } else if r.notSameFields != [] {
      TellsByField(r);
    } else {
      TellsByNone(r);
    }
  }

  /** Whether the filters of a rule group events into classes, for every event they are asked about. */
  ghost predicate Groups(r: Rule) {
    forall a: Event, b: Event, my: Event, my': Event | Passes(r, a, my) && Passes(r, b, my) && Passes(r, a, my') ::
      Passes(r, b, my')
  }

  /** They do exactly if no effective condition asks for a difference, or nothing ever passes. */
  lemma GroupsExactly(r: Rule)
    ensures Groups(r) <==> !Differs(r) || Contradictory(r)
  {
    if Contradictory(r) {
      forall a: Event, my: Event ensures !Passes(r, a, my) {
        NothingPasses(r, a, my);
      }
    } else if Differs(r) {
      PlainEventPasses(r);
      TellingEventPasses(r);
    } else {
      forall a: Event, b: Event, my: Event, my': Event | Passes(r, a, my) && Passes(r, b, my) && Passes(r, a, my')
        ensures Passes(r, b, my')
      {
        ClassesOfEvents(r, a, b, my, my');
      }
    }
  }
}
