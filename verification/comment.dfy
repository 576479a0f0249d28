/**
 * The comment of an alert: the rule's comment with each $(name) replaced by the value the
 * event has for that name. The work is done in two buffers of fixed size.
 */
module RuleComments {
  import opened Options
  import opened CStrings

  const COMMENT_MAX: nat := 1024

  /** Names that stand for fixed fields of the event; any other name is looked up among the decoded fields. */
  predicate StaticName(name: string) {
    || name == "dstuser" || name == "srcuser" || name == "srcip" || name == "dstip"
    || name == "srcport" || name == "dstport" || name == "protocol" || name == "action"
    || name == "id" || name == "url" || name == "data" || name == "status"
    || name == "extra_data" || name == "system_name" || name == "program_name" || name == "hostname"
  }

  datatype Event = Event(statics: map<string, CString>, dynamics: map<string, CString>)

  /** The value of a name; a missing one is left out of the comment. */
  function ValueOf(event: Event, name: string): Option<CString> {
    var from := if StaticName(name) then event.statics else event.dynamics;
    if name in from then Some(from[name]) else None
  }

  // ---- Templates

  datatype Template =
    | Last(text: string)
    | Part(text: string, name: string, rest: Template)

  function Piece(text: string, name: string, rest: string): string {
    text + "$(" + name + ")" + rest
  }

  /** How a template is written. */
  function Written(t: Template): string {
    match t
    case Last(text) => text
    case Part(text, name, rest) => Piece(text, name, Written(rest))
  }

  /** What a template stands for. Values are taken as they are: nothing in them is replaced again. */
  function Filled(t: Template, event: Event): string {
    match t
    case Last(text) => text
    case Part(text, name, rest) =>
      var value := ValueOf(event, name);
      text + (if value.Some? then value.value else "") + Filled(rest, event)
  }

  predicate OpensAt(s: string, k: nat) {
    k + 1 < |s| && s[k] == '$' && s[k + 1] == '('
  }

  ghost predicate NoOpening(s: string) {
    forall k: nat :: !OpensAt(s, k)
  }

  ghost predicate NeverClosed(s: string) {
    forall k: nat, e: nat | OpensAt(s, k) && k + 2 <= e < |s| :: s[e] != ')'
  }

  /** Text holds no variable, names no closing parenthesis; what follows an opening in the last text is never closed. */
  ghost predicate Canonical(t: Template) {
    match t
    case Last(text) => NeverClosed(text)
    case Part(text, name, rest) => NoOpening(text) && ')' !in name && Canonical(rest)
  }

  /** strstr for "$(" */
  function FindOpening(s: string, i: nat): (k: nat)
    requires i <= |s|
    ensures i <= k <= |s| && (k < |s| ==> k + 1 < |s| && OpensAt(s, k))
    decreases |s| - i
  {
    if i == |s| || OpensAt(s, i) then i else FindOpening(s, i + 1)
  }

  lemma {:induction false} OpensFirst(s: string, i: nat)
    requires i <= |s|
    ensures forall k | i <= k < FindOpening(s, i) :: !OpensAt(s, k)
    decreases |s| - i
  {
    if i < |s| && !OpensAt(s, i) {
      OpensFirst(s, i + 1);
    }
  }

  lemma {:induction false} OpeningAt(s: string, i: nat, k: nat)
    requires i <= k <= |s| && (k < |s| ==> OpensAt(s, k)) && forall j | i <= j < k :: !OpensAt(s, j)
    ensures FindOpening(s, i) == k
    decreases k - i
  {
    if i < k {
      OpeningAt(s, i + 1, k);
    }
  }

  function Cut(s: string, lo: nat, hi: nat): string
    requires lo <= hi <= |s|
  {
    s[lo..hi]
  }

  function Tail(s: string, i: nat): string
    requires i <= |s|
  {
    s[i..]
  }

  function Closing(s: string, i: nat): (end: nat)
    requires i <= |s| && FindOpening(s, i) < |s|
    ensures FindOpening(s, i) + 2 <= end <= |s| && (end < |s| ==> s[end] == ')')
  {
    FindFrom(s, ')', FindOpening(s, i) + 2)
  }

  predicate HasPart(s: string, i: nat)
    requires i <= |s|
  {
    FindOpening(s, i) < |s| && Closing(s, i) < |s|
  }

  /** The template that a comment is, from position i on. */
  function ParsedFrom(s: string, i: nat): Template
    requires i <= |s|
    decreases |s| - i
  {
    if HasPart(s, i) then
      var tok, end := FindOpening(s, i), Closing(s, i);
      Part(Cut(s, i, tok), Cut(s, tok + 2, end), ParsedFrom(s, end + 1))
    else Last(Tail(s, i))
  }

  function Parsed(s: string): Template {
    ParsedFrom(s, 0)
  }

  lemma Pieces(s: string, i: nat, tok: nat, end: nat)
    requires i <= tok && tok + 2 <= end < |s| && OpensAt(s, tok) && s[end] == ')'
    ensures Tail(s, i) == Piece(Cut(s, i, tok), Cut(s, tok + 2, end), Tail(s, end + 1))
  {
    var piece := Piece(s[i..tok], s[tok + 2..end], s[end + 1..]);
    assert |piece| == |s| - i;
    forall j | 0 <= j < |piece| ensures piece[j] == s[i..][j] {}
  }

  lemma {:induction false} WrittenBack(s: string, i: nat)
    requires i <= |s|
    ensures Written(ParsedFrom(s, i)) == Tail(s, i)
    decreases |s| - i
  {
    hide FindOpening, FindFrom, Piece, Tail, Cut, Closing, OpensAt;
    if HasPart(s, i) {
      WrittenBack(s, Closing(s, i) + 1);
      Pieces(s, i, FindOpening(s, i), Closing(s, i));
    }
  }

  lemma NoOpeningBefore(s: string, i: nat)
    requires i <= |s|
    ensures NoOpening(Cut(s, i, FindOpening(s, i)))
  {
    hide FindOpening;
    var text := Cut(s, i, FindOpening(s, i));
    OpensFirst(s, i);
    forall k: nat ensures !OpensAt(text, k) {
      assert OpensAt(text, k) ==> OpensAt(s, i + k);
    }
  }

  lemma NoClosingBefore(s: string, i: nat)
    requires i <= |s| && FindOpening(s, i) < |s|
    ensures ')' !in Cut(s, FindOpening(s, i) + 2, Closing(s, i))
  {
    hide FindOpening, FindFrom;
    FindsFirst(s, ')', FindOpening(s, i) + 2);
  }

  lemma LastIsCanonical(s: string, i: nat)
    requires i <= |s| && !HasPart(s, i)
    ensures NeverClosed(Tail(s, i))
  {
    hide FindOpening, FindFrom;
    var text := Tail(s, i);
    OpensFirst(s, i);
    forall k: nat, e: nat | OpensAt(text, k) && k + 2 <= e < |text| ensures text[e] != ')' {
      assert OpensAt(s, i + k);
      FindsFirst(s, ')', FindOpening(s, i) + 2);
    }
  }

  lemma {:induction false} ParsedIsCanonical(s: string, i: nat)
    requires i <= |s|
    ensures Canonical(ParsedFrom(s, i))
    decreases |s| - i
  {
    hide FindOpening, FindFrom, NoOpening, NeverClosed, OpensAt, Tail, Cut, Closing;
    if HasPart(s, i) {
      NoOpeningBefore(s, i);
      NoClosingBefore(s, i);
      ParsedIsCanonical(s, Closing(s, i) + 1);
    } else {
      LastIsCanonical(s, i);
    }
  }

  lemma ReadLast(s: string, i: nat)
    requires i <= |s| && NeverClosed(Tail(s, i))
    ensures !HasPart(s, i)
  {
    hide FindOpening, FindFrom;
    var text, tok := s[i..], FindOpening(s, i);
    if tok < |s| {
      assert OpensAt(text, tok - i);
      forall e | tok + 2 <= e < |s| ensures s[e] != ')' {
        assert text[e - i] != ')';
      }
      FoundAt(s, ')', tok + 2, |s|);
    }
  }

  /** Where the pieces of a written part stand. */
  lemma ReadPart(s: string, i: nat, text: string, name: string, rest: string)
    requires i <= |s| && Tail(s, i) == Piece(text, name, rest) && NoOpening(text) && ')' !in name
    ensures HasPart(s, i)
    ensures var tok, end := FindOpening(s, i), Closing(s, i);
            end == i + |text| + 2 + |name| && Cut(s, i, tok) == text && Cut(s, tok + 2, end) == name
                && Tail(s, end + 1) == rest
  {
    hide FindOpening, FindFrom;
    var w, tok := s[i..], i + |text|;
    var end := tok + 2 + |name|;
    assert |w| == |text| + 3 + |name| + |rest|;
    forall j | i <= j < |s| ensures s[j] == w[j - i] {}
    forall j | i <= j < tok ensures !OpensAt(s, j) {
      assert !OpensAt(text, j - i);
    }
    assert OpensAt(s, tok);
    OpeningAt(s, i, tok);
    forall e | tok + 2 <= e < end ensures s[e] != ')' {
      assert s[e] == name[e - tok - 2];
    }
    assert s[end] == ')';
    FoundAt(s, ')', tok + 2, end);
  }

  /** Reading a written template gives it back. */
  lemma {:induction false} ReadBack(s: string, i: nat, t: Template)
    requires i <= |s| && Tail(s, i) == Written(t) && Canonical(t)
    ensures ParsedFrom(s, i) == t
    decreases t
  {
    hide FindOpening, FindFrom, NoOpening, NeverClosed, OpensAt, Tail, Cut, Closing, Piece;
    if t.Part? {
      ReadPart(s, i, t.text, t.name, Written(t.rest));
      ReadBack(s, Closing(s, i) + 1, t.rest);
    } else {
      ReadLast(s, i);
    }
  }

  /** Every comment is the writing of exactly one canonical template. */
  lemma OneReading(s: string, t: Template)
    ensures Written(Parsed(s)) == s && Canonical(Parsed(s))
    ensures Written(t) == s && Canonical(t) ==> t == Parsed(s)
  {
    WrittenBack(s, 0);
    ParsedIsCanonical(s, 0);
    assert Tail(s, 0) == s;
    if Written(t) == s && Canonical(t) {
      ReadBack(s, 0, t);
    }
  }

  // ---- The buffers

  function Truncated(comment: string): string {
    if |comment| <= COMMENT_MAX then comment else comment[..COMMENT_MAX]
  }

  /** What ParseRuleComment returns. */
  function Expanded(comment: string, event: Event): string {
    var filled := Filled(Parsed(Truncated(comment)), event);
    if |filled| < COMMENT_MAX then filled else comment
  }

  function Value(event: Event, name: string): string {
    var value := ValueOf(event, name);
    if value.Some? then value.value else ""
  }

  /** What is still to be filled in from position i on. */
  function FilledFrom(s: string, i: nat, event: Event): string
    requires i <= |s|
  {
    Filled(ParsedFrom(s, i), event)
  }

  lemma FilledStep(s: string, i: nat, event: Event)
    requires i <= |s|
    ensures FilledFrom(s, i, event) ==
      if HasPart(s, i) then
        Cut(s, i, FindOpening(s, i)) + Value(event, Cut(s, FindOpening(s, i) + 2, Closing(s, i)))
            + FilledFrom(s, Closing(s, i) + 1, event)
      else Tail(s, i)
  {
    hide FindOpening, FindFrom, Cut, Tail, Closing, ValueOf;
  }

  lemma TailSplits(s: string, i: nat, tok: nat)
    requires i <= tok <= |s|
    ensures Tail(s, i) == Cut(s, i, tok) + Tail(s, tok)
  {
  }

  /** strstr for "$(" in a buffer; the terminator's place if there is none. */
  method Strstr(a: array<char>, i: nat, ghost s: string) returns (tok: nat)
    requires Buffers(a, s, i)
    ensures tok == FindOpening(s, i)
  {
    hide FindOpening;
    tok := i;
    while a[tok] != '\0' && !(a[tok] == '$' && a[tok + 1] == '(')
      invariant i <= tok <= |s|
      invariant forall j | i <= j < tok :: !OpensAt(s, j)
      decreases |s| - tok
    {
      assert tok + 1 < |s| ==> a[tok + 1] == s[tok + 1];
      tok := tok + 1;
    }
    OpeningAt(s, i, tok);
  }

  lemma SameCut(a: array<char>, s: string, lo: nat, hi: nat)
    requires lo <= hi <= |s| && hi <= a.Length && forall j | lo <= j < hi :: a[j] == s[j]
    ensures a[lo..hi] == Cut(s, lo, hi)
    ensures hi == |s| ==> Cut(s, lo, hi) == Tail(s, lo)
  {
  }

  /** Ends the text before the next opening with a terminator, and reads it. */
  method CutAtOpening(orig: array<char>, str: nat, ghost text: string) returns (found: bool, tok: nat, before: string)
    requires Buffers(orig, text, str)
    modifies orig
    ensures tok == FindOpening(text, str) && found == (tok < |text|)
    ensures found ==> before == Cut(text, str, tok) && Buffers(orig, text, tok + 1)
    ensures !found ==> Buffers(orig, text, str)
  {
    hide FindOpening, Cut, Tail;
    tok := Strstr(orig, str, text);
    found, before := orig[tok] != '\0', "";
    if found {
      orig[tok] := '\0';
      before := Read(orig, str, tok);
      SameCut(orig, text, str, tok);
    }
  }

  /** Ends the name after an opening with a terminator, and reads it; an opening that is never closed is restored. */
  method CutAtClosing(orig: array<char>, tok: nat, ghost text: string) returns (closed: bool, end: nat, name: string)
    requires tok < |text| && OpensAt(text, tok) && Buffers(orig, text, tok + 1)
    modifies orig
    ensures end == FindFrom(text, ')', tok + 2) && closed == (end < |text|)
    ensures if closed then name == Cut(text, tok + 2, end) && Buffers(orig, text, end + 1) else Buffers(orig, text, tok)
  {
    hide FindFrom, Cut, Tail;
    end := Strchr(orig, tok + 2, ')', text);
    closed, name := orig[end] != '\0', "";
    if !closed {
      orig[tok] := '$';
      return;
    }
    orig[end] := '\0';
    name := Read(orig, tok + 2, end);
    SameCut(orig, text, tok + 2, end);
  }

  /** One bounded append: the test on the length, then strncat. */
  method Append(final: array<char>, n: nat, piece: string) returns (fits: bool, m: nat)
    requires n < COMMENT_MAX && final.Length == COMMENT_MAX + 1
    modifies final
    ensures m == n + |piece| && fits == (m < COMMENT_MAX)
    ensures fits ==> final[..m] == old(final[..n]) + piece
  {
    m := n + |piece|;
    fits := m < COMMENT_MAX;
    if fits {
      Strncat(final, n, piece);
    }
  }

  /** done is what has been filled in before position i of the text. */
  ghost predicate Progress(text: string, event: Event, done: string, i: nat)
    requires i <= |text|
  {
    FilledFrom(text, 0, event) == done + FilledFrom(text, i, event)
  }

  /**
   * Once the text before the next opening is appended, the rest is its value and what follows, or the tail as
   * it stands.
   */
  lemma ProgressBefore(text: string, event: Event, done: string, i: nat)
    requires i <= |text| && Progress(text, event, done, i) && FindOpening(text, i) < |text|
    ensures var tok := FindOpening(text, i);
            var before := done + Cut(text, i, tok);
            && |FilledFrom(text, 0, event)| >= |before|
            && FilledFrom(text, 0, event) == before +
               if HasPart(text, i) then Value(event, Cut(text, tok + 2, Closing(text, i)))
                   + FilledFrom(text, Closing(text, i) + 1, event)
               else Tail(text, tok)
  {
    hide FindOpening, FindFrom, Cut, Tail, ValueOf, FilledFrom;
    FilledStep(text, i, event);
    TailSplits(text, i, FindOpening(text, i));
  }

  lemma ProgressLast(text: string, event: Event, done: string, i: nat)
    requires i <= |text| && Progress(text, event, done, i) && FindOpening(text, i) == |text|
    ensures FilledFrom(text, 0, event) == done + Tail(text, i)
  {
    hide FindOpening, FindFrom, Cut, Tail, ValueOf, FilledFrom;
    FilledStep(text, i, event);
  }

  lemma ProgressStart(text: string, event: Event)
    ensures Progress(text, event, "", 0) && FilledFrom(text, 0, event) == Filled(Parsed(text), event)
  {
  }

  lemma ProgressAfter(text: string, event: Event, done: string, i: nat, field: Option<CString>)
    requires i <= |text|
    requires FilledFrom(text, 0, event) ==
        done + ((if field.Some? then field.value else "") + FilledFrom(text, i, event))
    ensures field.None? ==> Progress(text, event, done, i)
    ensures field.Some? ==>
      Progress(text, event, done + field.value, i)
      && |FilledFrom(text, 0, event)| >= |done + field.value|
  {
    hide FilledFrom;
  }

  /** The round of the loop that handles the next opening. */
  method ExpandNext(orig: array<char>, final: array<char>, n: nat, str: nat, event: Event, ghost text: string,
                    ghost done: string)
    returns (fits: bool, more: bool, m: nat, next: nat, ghost after: string)
    requires Buffers(orig, text, str) && final.Length == COMMENT_MAX + 1 && final != orig
    requires n < COMMENT_MAX && final[..n] == done && Progress(text, event, done, str)
    modifies orig, final
    ensures !fits ==> |FilledFrom(text, 0, event)| >= COMMENT_MAX
    ensures fits ==> next <= |text| && Buffers(orig, text, next) && m < COMMENT_MAX && final[..m] == after
    ensures fits && more ==> str < next && Progress(text, event, after, next)
    ensures fits && !more ==> FilledFrom(text, 0, event) == after + Tail(text, next)
  {
    hide FindOpening, FindFrom, Cut, Tail, ValueOf, Filled, ParsedFrom, Progress, FilledFrom;
    var before: string, tok: nat;
    fits, m, next, after := true, n, str, done;
    more, tok, before := CutAtOpening(orig, str, text);
    if !more {
      ProgressLast(text, event, done, str);
      return;
    }
    ProgressBefore(text, event, done, str);
    after := done + before;
    fits, m := Append(final, n, before);
    if !fits {
      return;
    }
    var end: nat, name: string;
    more, end, name := CutAtClosing(orig, tok, text);
    if !more {
      next := tok;
      return;
    }
    var field := ValueOf(event, name);
    next := end + 1;
    ProgressAfter(text, event, after, next, field);
    if field.Some? {
      after := after + field.value;
      fits, m := Append(final, m, field.value);
    }
  }

  /**
   * ParseRuleComment: the filled-in comment if it is shorter than the limit, and the rule's comment as it stands
   * otherwise. Overflow is tested piece by piece, before each piece is appended.
   */
  method ParseRuleComment(comment: CString, event: Event) returns (result: string)
    ensures result == Expanded(comment, event)
  {
    var final := new char[COMMENT_MAX + 1](_ => '\0');
    var orig := new char[COMMENT_MAX + 1](_ => '\0');
    ghost var text, done := Truncated(comment), "";
    Strncat(orig, 0, Truncated(comment));
    BuffersAll(orig, text);
    ProgressStart(text, event);
    hide FindOpening, FindFrom, Cut, Tail, ValueOf, Filled, ParsedFrom, Truncated, Progress, FilledFrom;
    var n: nat, str: nat, more := 0, 0, true;
    while more
      invariant Buffers(orig, text, str) && final.Length == orig.Length == COMMENT_MAX + 1 && final != orig
      invariant n < COMMENT_MAX && final[..n] == done
      invariant if more then Progress(text, event, done, str) else FilledFrom(text, 0, event) == done + Tail(text, str)
      modifies final, orig
      decreases more, |text| - str
    {
      var fits;
      fits, more, n, str, done := ExpandNext(orig, final, n, str, event, text, done);
      if !fits {
        return comment;
      }
    }
    var last := Read(orig, str, |text|);
    SameCut(orig, text, str, |text|);
    var fits, m := Append(final, n, last);
    result := if fits then final[..m] else comment;
  }
}
