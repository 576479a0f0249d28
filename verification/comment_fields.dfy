/**
 * Where the values in a comment come from, said about the result: which of the event's fields a
 * variable shows, that nothing else of the event matters, and that all the rest stays as written.
 */
module CommentFields {
  import opened Options
  import opened CStrings
  import opened RuleComments
  import opened CommentLimits

  /** The fields of the event itself. */
  const FIXED: set<string> := {
    "dstuser", "srcuser", "srcip", "dstip", "srcport", "dstport", "protocol", "action",
    "id", "url", "data", "status", "extra_data", "system_name", "program_name", "hostname"
  }

  function ValueIn(fields: map<string, CString>, name: string): CString {
    if name in fields then fields[name] else ""
  }

  function Variable(name: string): string {
    "$(" + name + ")"
  }

  lemma VariableParsed(name: string)
    requires ')' !in name
    ensures Parsed(Variable(name)) == Part("", name, Last(""))
  {
    var t := Part("", name, Last(""));
    assert Written(t) == Variable(name);
    hide Parsed;
    assert NoOpening("") && Canonical(t);
    OneReading(Variable(name), t);
  }

  /** A variable that is cut off before its closing parenthesis is text. */
  lemma CutVariable(name: string)
    requires ')' !in name && COMMENT_MAX < |Variable(name)|
    ensures Parsed(Truncated(Variable(name))) == Last(Truncated(Variable(name)))
  {
    var cut := Truncated(Variable(name));
    forall e | 2 <= e < |cut| ensures cut[e] != ')' {
      assert cut[e] == name[e - 2];
    }
    assert NeverClosed(cut) && Canonical(Last(cut));
    hide Parsed;
    OneReading(cut, Last(cut));
  }

  /**
   * A comment that is one variable becomes the event's own field of that name if it is one of the sixteen, and else
   * the decoded field; nothing if there is none; and it stays as it is if the value, or the comment, is too long.
   */
  lemma ShowsField(name: string, event: Event)
    requires ')' !in name
    ensures var comment := "$(" + name + ")";
            var value := ValueIn(if name in FIXED then event.statics else event.dynamics, name);
            Expanded(comment, event) == if |comment| <= 1024 && |value| < 1024 then value else comment
  {
    hide Parsed;
    if |Variable(name)| <= COMMENT_MAX {
      VariableParsed(name);
      assert Filled(Last(""), event) == "";
    } else {
      CutVariable(name);
    }
  }

  ghost predicate SameIn(a: map<string, CString>, b: map<string, CString>, name: string) {
    ValueIn(a, name) == ValueIn(b, name)
  }

  ghost predicate SameFor(a: Event, b: Event, names: set<string>) {
    forall name | name in names ::
      if name in FIXED then SameIn(a.statics, b.statics, name) else SameIn(a.dynamics, b.dynamics, name)
  }

  lemma {:induction false} FilledAlike(t: Template, a: Event, b: Event)
    requires SameFor(a, b, Names(t))
    ensures Filled(t, a) == Filled(t, b)
  {
    if t.Part? {
      FilledAlike(t.rest, a, b);
      assert t.name in Names(t);
      FixedExactly(t.name);
      hide StaticName;
    }
  }

  lemma FixedExactly(name: string)
    ensures StaticName(name) <==> name in FIXED
  {
  }

  /** Only the fields that the comment names matter: the event's own for the sixteen names, decoded ones for others. */
  lemma OnlyNamedFields(comment: string, a: Event, b: Event)
    requires SameFor(a, b, Names(Parsed(Truncated(comment))))
    ensures Expanded(comment, a) == Expanded(comment, b)
  {
    hide Parsed, Filled, SameFor;
    FilledAlike(Parsed(Truncated(comment)), a, b);
  }

  /** The event whose fields are the variables that stand for them. */
  function Echo(names: set<string>): Event {
    var fields: map<string, CString> := map name | name in names && '\0' !in name :: Variable(name);
    Event(fields, fields)
  }

  lemma {:induction false} FilledWithEcho(t: Template, names: set<string>)
    requires Names(t) <= names && forall name | name in names :: '\0' !in name
    ensures Filled(t, Echo(names)) == Written(t)
  {
    hide StaticName;
    if t.Part? {
      FilledWithEcho(t.rest, names);
      assert t.name in names;
      var value := ValueOf(Echo(names), t.name);
      assert value.Some? && value.value == Variable(t.name);
      assert t.text + Variable(t.name) + Written(t.rest) == Piece(t.text, t.name, Written(t.rest));
    }
  }

  lemma {:induction false} NamesAreWritten(t: Template, name: string)
    requires name in Names(t) && '\0' !in Written(t)
    ensures '\0' !in name
  {
    hide Piece;
    PieceHas(t.text, t.name, Written(t.rest));
    if name != t.name {
      NamesAreWritten(t.rest, name);
    }
  }

  lemma PieceHas(text: string, name: string, rest: string)
    requires '\0' !in Piece(text, name, rest)
    ensures '\0' !in name && '\0' !in rest
  {
    var s := Piece(text, name, rest);
    assert forall i | 0 <= i < |name| :: name[i] == s[|text| + 2 + i];
    assert forall i | 0 <= i < |rest| :: rest[i] == s[|text| + |name| + 3 + i];
  }

  /** Everything around the variables stays in its place: variables that stand for themselves give the comment back. */
  lemma EchoGivesBack(comment: CString)
    requires |comment| < COMMENT_MAX
    ensures Expanded(comment, Echo(Names(Parsed(comment)))) == comment
  {
    var t := Parsed(comment);
    OneReading(comment, t);
    hide Parsed, Written, Filled, Names, Echo;
    forall name | name in Names(t) ensures '\0' !in name {
      NamesAreWritten(t, name);
    }
    FilledWithEcho(t, Names(t));
  }
}
