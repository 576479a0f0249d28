/** When the expansion of a rule's comment is all of it, or the comment as it stands. */
module CommentLimits {
  import opened Options
  import opened CStrings
  import opened RuleComments

  /** For every event the result is the whole comment expanded, or the comment as it stands. */
  ghost predicate AllOrNothing(comment: string) {
    forall event :: Expanded(comment, event) == Filled(Parsed(comment), event) || Expanded(comment, event) == comment
  }

  /** The first 1024 characters hold a variable with its closing parenthesis. */
  predicate ClosedEarly(comment: string) {
    HasPart(Truncated(comment), 0)
  }

  function TextLength(t: Template): nat {
    match t
    case Last(text) => |text|
    case Part(text, _, rest) => |text| + TextLength(rest)
  }

  function Variables(t: Template): nat {
    match t
    case Last(_) => 0
    case Part(_, _, rest) => 1 + Variables(rest)
  }

  function Names(t: Template): set<string> {
    match t
    case Last(_) => {}
    case Part(_, name, rest) => {name} + Names(rest)
  }

  const NO_VALUES := Event(map[], map[])

  /** Every one of these names has a value of one character. */
  function Ones(names: set<string>): Event {
    var values: map<string, CString> := map name | name in names :: "v";
    Event(values, values)
  }

  lemma {:induction false} FilledWithNothing(t: Template)
    ensures |Filled(t, NO_VALUES)| == TextLength(t)
  {
    if t.Part? {
      FilledWithNothing(t.rest);
    }
  }

  lemma {:induction false} FilledWithOnes(t: Template, names: set<string>)
    requires Names(t) <= names
    ensures |Filled(t, Ones(names))| == TextLength(t) + Variables(t)
  {
    hide StaticName;
    if t.Part? {
      FilledWithOnes(t.rest, names);
      assert t.name in names;
    }
  }

  lemma {:induction false} WrittenLength(t: Template)
    ensures TextLength(t) + 3 * Variables(t) <= |Written(t)|
  {
    if t.Part? {
      WrittenLength(t.rest);
    }
  }

  lemma FindsSame(s: string, more: string, i: nat)
    requires i <= |s| && FindOpening(s, i) < |s|
    ensures FindOpening(s + more, i) == FindOpening(s, i)
  {
    hide FindOpening;
    var tok := FindOpening(s, i);
    OpensFirst(s, i);
    forall j | i <= j < tok ensures !OpensAt(s + more, j) {
      assert !OpensAt(s, j);
    }
    OpeningAt(s + more, i, tok);
  }

  lemma PartExtends(s: string, more: string, i: nat)
    requires i <= |s| && HasPart(s, i)
    ensures FindOpening(s, i) < |s| && HasPart(s + more, i) && FindOpening(s + more, i) < |s + more|
    ensures FindOpening(s + more, i) == FindOpening(s, i) && Closing(s + more, i) == Closing(s, i)
  {
    hide FindOpening, FindFrom;
    FindsSame(s, more, i);
    var from := FindOpening(s, i) + 2;
    FindsFirst(s, ')', from);
    FoundAt(s + more, ')', from, FindFrom(s, ')', from));
  }

  lemma PartLength(s: string, i: nat)
    requires i <= |s|
    ensures HasPart(s, i) ==>
      && i < Closing(s, i) < |s|
      && Variables(ParsedFrom(s, i)) == 1 + Variables(ParsedFrom(s, Closing(s, i) + 1))
      && TextLength(ParsedFrom(s, i)) == FindOpening(s, i) - i + TextLength(ParsedFrom(s, Closing(s, i) + 1))
    ensures !HasPart(s, i) ==> Variables(ParsedFrom(s, i)) == 0 && TextLength(ParsedFrom(s, i)) == |s| - i
  {
    hide FindOpening, FindFrom;
  }

  /** A longer text has more variables, or the same ones and that much more text. */
  lemma {:induction false} LongerText(s: string, more: string, i: nat)
    requires i <= |s|
    ensures var t, u := ParsedFrom(s, i), ParsedFrom(s + more, i);
            || Variables(t) < Variables(u)
            || (Variables(t) == Variables(u) && TextLength(u) == TextLength(t) + |more|)
    decreases |s| - i
  {
    hide ParsedFrom, HasPart, Variables, TextLength;
    PartLength(s, i);
    PartLength(s + more, i);
    if HasPart(s, i) {
      PartExtends(s, more, i);
      LongerText(s, more, Closing(s, i) + 1);
    }
  }

  /** A long comment with an early variable comes out cut for some event. */
  lemma CutForSome(comment: string) returns (event: Event)
    requires COMMENT_MAX < |comment| && ClosedEarly(comment)
    ensures Expanded(comment, event) != Filled(Parsed(comment), event) && Expanded(comment, event) != comment
  {
    var s, more := Truncated(comment), comment[COMMENT_MAX..];
    assert comment == s + more;
    var t, u := Parsed(s), Parsed(comment);
    PartLength(s, 0);
    OneReading(s, t);
    WrittenLength(t);
    LongerText(s, more, 0);
    var names := Names(t) + Names(u);
    FilledWithNothing(t);
    FilledWithNothing(u);
    FilledWithOnes(t, names);
    FilledWithOnes(u, names);
    event := if TextLength(t) == TextLength(u) then Ones(names) else NO_VALUES;
  }

  /**
   * The result is always all or nothing exactly if the comment fits, or has no closed variable in the part that
   * does.
   */
  lemma AllOrNothingExactly(comment: string)
    ensures AllOrNothing(comment) <==> |comment| <= COMMENT_MAX || !ClosedEarly(comment)
  {
    if |comment| > COMMENT_MAX {
      if ClosedEarly(comment) {
        var event := CutForSome(comment);
      } else {
        assert Tail(Truncated(comment), 0) == Truncated(comment);
      }
    }
  }

  /** A comment that starts with a variable, for an event that has no value for it. */
  lemma LeadingVariable(text: string)
    requires NeverClosed(text)
    ensures Filled(Parsed("$(id)" + text), NO_VALUES) == text
  {
    var t := Part("", "id", Last(text));
    assert Written(t) == "$(id)" + text;
    hide NeverClosed, StaticName, Parsed;
    assert NoOpening("") && Canonical(t);
    OneReading("$(id)" + text, t);
    assert ValueOf(NO_VALUES, "id").None? && Filled(t.rest, NO_VALUES) == text;
    assert Filled(t, NO_VALUES) == "" + "" + text;
  }

  /** For instance: of $(id) and 1024 more characters, an event without an id leaves 1019. */
  lemma LongCommentIsCut(text: string)
    requires |text| == COMMENT_MAX && NeverClosed(text)
    ensures Expanded("$(id)" + text, NO_VALUES) == text[..COMMENT_MAX - 5]
    ensures Filled(Parsed("$(id)" + text), NO_VALUES) == text
  {
    var cut := text[..COMMENT_MAX - 5];
    assert NeverClosed(cut) by {
      forall k: nat, e: nat | OpensAt(cut, k) && k + 2 <= e < |cut| ensures cut[e] != ')' {
        assert OpensAt(text, k);
      }
    }
    LeadingVariable(text);
    LeadingVariable(cut);
    hide Parsed, Filled;
    assert Truncated("$(id)" + text) == "$(id)" + cut;
  }
}
