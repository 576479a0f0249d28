/**
 * The lines of a CDB list: a key, a colon, a value, either of them in double quotes if it
 * must hold a colon or stand apart from what surrounds it. A line is cut up in place.
 */
module CdbLists {
  import opened Options
  import opened CStrings

  function Before(s: string, c: char): string {
    s[..Find(s, c)]
  }

  /** A line without its line end. */
  function Content(line: string): string {
    Before(Before(line, '\r'), '\n')
  }

  // ---- What a line means

  datatype KeyPart =
    | QuotedKey(before: string, key: string, between: string)
    | BareKey(key: string)

  datatype ValuePart =
    | QuotedValue(before: string, value: string, after: string)
    | BareValue(value: string)

  datatype Entry = Entry(k: KeyPart, v: ValuePart)

  /** A text in quotes with something before and after it. */
  function InQuotes(before: string, text: string, after: string): string {
    before + "\"" + text + "\"" + after
  }

  function KeyText(k: KeyPart): string {
    match k
    case QuotedKey(before, key, between) => InQuotes(before, key, between)
    case BareKey(key) => key
  }

  function ValueText(v: ValuePart): string {
    match v
    case QuotedValue(before, value, after) => InQuotes(before, value, after)
    case BareValue(value) => value
  }

  function Around(key: string, value: string): string {
    key + ":" + value
  }

  function Written(e: Entry): string {
    Around(KeyText(e.k), ValueText(e.v))
  }

  predicate Without(s: string, c: char) {
    forall i | 0 <= i < |s| :: s[i] != c
  }

  predicate KeyOk(k: KeyPart) {
    match k
    case QuotedKey(before, key, between) => Without(before, '"') && Without(before, ':') && Without(key, '"')
        && Without(between, ':')
    case BareKey(key) => Without(key, '"') && Without(key, ':')
  }

  predicate ValueOk(v: ValuePart) {
    match v
    case QuotedValue(before, value, _) => Without(before, '"') && Without(value, '"')
    case BareValue(value) => Without(value, '"')
  }

  /** Quotes and colons stand only where they leave the parts what they are called. */
  predicate WellFormed(e: Entry) {
    KeyOk(e.k) && ValueOk(e.v)
  }

  // ---- The steps of the parser, on positions

  function Cut(s: string, lo: nat, hi: nat): string
    requires lo <= hi <= |s|
  {
    s[lo..hi]
  }

  /** The key is in quotes if a quote stands before the first colon. */
  predicate KeyIsQuoted(s: string) {
    Find(s, '"') < Find(s, ':') < |s|
  }

  /** The value part, from a position on. */
  function ParsedValue(s: string, i: nat): Option<ValuePart>
    requires i <= |s|
  {
    var open := FindFrom(s, '"', i);
    if open == |s| then Some(BareValue(Cut(s, i, |s|)))
    else
      var close := FindFrom(s, '"', open + 1);
      if close == |s| then None else Some(QuotedValue(Cut(s, i, open), Cut(s, open + 1, close), Cut(s, close + 1, |s|)))
  }

  function ParsedFrom(s: string, k: KeyPart, colon: nat): Option<Entry>
    requires colon <= |s|
  {
    if colon == |s| then None
    else match ParsedValue(s, colon + 1)
      case None => None
      case Some(v) => Some(Entry(k, v))
  }

  /** The entry of a line, or None if the line is skipped. */
  function Parsed(s: string): Option<Entry> {
    if KeyIsQuoted(s) then
      var open := Find(s, '"');
      var close := FindFrom(s, '"', open + 1);
      if close == |s| then None
      else
        var colon := FindFrom(s, ':', close + 1);
        ParsedFrom(s, QuotedKey(Cut(s, 0, open), Cut(s, open + 1, close), Cut(s, close + 1, colon)), colon)
    else ParsedFrom(s, BareKey(Cut(s, 0, Find(s, ':'))), Find(s, ':'))
  }

  // ---- Parsing inverts writing

  lemma CutAt(s: string, lo: nat, p: nat, hi: nat)
    requires lo <= p < hi <= |s|
    ensures Cut(s, lo, hi) == Cut(s, lo, p) + [s[p]] + Cut(s, p + 1, hi)
  {
  }

  lemma QuotesCut(s: string, lo: nat, open: nat, close: nat, hi: nat)
    requires lo <= open < close < hi <= |s| && s[open] == '"' && s[close] == '"'
    ensures Cut(s, lo, hi) == InQuotes(Cut(s, lo, open), Cut(s, open + 1, close), Cut(s, close + 1, hi))
  {
    hide Cut;
    CutAt(s, lo, open, hi);
    CutAt(s, open + 1, close, hi);
  }

  lemma CutIsWithout(s: string, c: char, lo: nat, hi: nat)
    requires lo <= hi <= |s| && hi <= FindFrom(s, c, lo)
    ensures Without(Cut(s, lo, hi), c)
  {
    hide FindFrom;
    FindsFirst(s, c, lo);
  }

  lemma ValueParsed(s: string, i: nat)
    requires i <= |s| && ParsedValue(s, i).Some?
    ensures ValueOk(ParsedValue(s, i).value) && ValueText(ParsedValue(s, i).value) == Cut(s, i, |s|)
  {
    hide FindFrom, Cut, InQuotes, Without;
    var open := FindFrom(s, '"', i);
    CutIsWithout(s, '"', i, open);
    if open < |s| {
      var close := FindFrom(s, '"', open + 1);
      CutIsWithout(s, '"', open + 1, close);
      QuotesCut(s, i, open, close, |s|);
    }
  }

  lemma EntryParsed(s: string, k: KeyPart, colon: nat)
    requires colon <= |s| && ParsedFrom(s, k, colon).Some?
    requires colon < |s| ==> s[colon] == ':' && KeyOk(k) && KeyText(k) == Cut(s, 0, colon)
    ensures var e := ParsedFrom(s, k, colon).value; WellFormed(e) && Written(e) == s
  {
    hide FindFrom, Cut, KeyOk, ValueOk, KeyText, ValueText, ParsedValue;
    ValueParsed(s, colon + 1);
    CutAt(s, 0, colon, |s|);
    WholeCut(s);
  }

  lemma WholeCut(s: string)
    ensures Cut(s, 0, |s|) == s
  {
  }

  lemma FindsEarlier(s: string, c: char, i: nat, j: nat)
    requires i <= j < |s| && s[j] == c
    ensures FindFrom(s, c, i) <= j
  {
    hide FindFrom;
    FindsFirst(s, c, i);
  }

  lemma ParsedIsWritten(s: string)
    requires Parsed(s).Some?
    ensures WellFormed(Parsed(s).value) && Written(Parsed(s).value) == s
  {
    hide FindFrom, Cut, InQuotes, Without, ParsedFrom;
    if KeyIsQuoted(s) {
      var open := Find(s, '"');
      var close := FindFrom(s, '"', open + 1);
      var colon := FindFrom(s, ':', close + 1);
      CutIsWithout(s, '"', 0, open);
      CutIsWithout(s, ':', 0, open);
      CutIsWithout(s, '"', open + 1, close);
      CutIsWithout(s, ':', close + 1, colon);
      if colon < |s| {
        QuotesCut(s, 0, open, close, colon);
      }
      EntryParsed(s, QuotedKey(Cut(s, 0, open), Cut(s, open + 1, close), Cut(s, close + 1, colon)), colon);
    } else {
      var colon := Find(s, ':');
      CutIsWithout(s, ':', 0, colon);
      if colon < |s| {
        BareHasNoQuote(s);
      }
      EntryParsed(s, BareKey(Cut(s, 0, colon)), colon);
    }
  }

  lemma BareHasNoQuote(s: string)
    requires !KeyIsQuoted(s) && Find(s, ':') < |s|
    ensures Without(Cut(s, 0, Find(s, ':')), '"')
  {
    CutIsWithout(s, '"', 0, Find(s, ':'));
  }

  /** s has w at position i. */
  predicate Has(s: string, i: nat, w: string) {
    i + |w| <= |s| && forall j | 0 <= j < |w| :: s[i + j] == w[j]
  }

  lemma HasQuotes(s: string, i: nat, before: string, text: string, after: string)
    requires Has(s, i, InQuotes(before, text, after))
    ensures var open := i + |before|; var close := open + 1 + |text|;
            && Has(s, i, before) && close < |s| && s[open] == '"' && Has(s, open + 1, text) && s[close] == '"'
            && Has(s, close + 1, after) && close + 1 + |after| == i + |InQuotes(before, text, after)|
  {
    var w := InQuotes(before, text, after);
    assert forall j | 0 <= j < |before| :: w[j] == before[j];
    assert w[|before|] == '"' && w[|before| + 1 + |text|] == '"';
    assert forall j | 0 <= j < |text| :: w[|before| + 1 + j] == text[j];
    assert forall j | 0 <= j < |after| :: w[|before| + 2 + |text| + j] == after[j];
  }

  lemma FoundAfter(s: string, c: char, i: nat, w: string)
    requires Has(s, i, w) && Without(w, c) && (i + |w| < |s| ==> s[i + |w|] == c)
    ensures FindFrom(s, c, i) == i + |w|
  {
    hide FindFrom;
    forall j | i <= j < i + |w| ensures s[j] != c {
      assert s[i + (j - i)] == w[j - i];
    }
    FoundAt(s, c, i, i + |w|);
  }

  lemma HasIsCut(s: string, i: nat, w: string)
    requires Has(s, i, w)
    ensures Cut(s, i, i + |w|) == w
  {
  }

  lemma ValueReadBack(s: string, i: nat, v: ValuePart)
    requires ValueOk(v) && Has(s, i, ValueText(v)) && i + |ValueText(v)| == |s|
    ensures ParsedValue(s, i) == Some(v)
  {
    hide FindFrom, Cut, InQuotes, Without, Has;
    match v {
      case BareValue(value) =>
        FoundAfter(s, '"', i, value);
        HasIsCut(s, i, value);
      case QuotedValue(before, value, after) =>
        var open := i + |before|;
        var close := open + 1 + |value|;
        HasQuotes(s, i, before, value, after);
        FoundAfter(s, '"', i, before);
        FoundAfter(s, '"', open + 1, value);
        HasIsCut(s, i, before);
        HasIsCut(s, open + 1, value);
        HasIsCut(s, close + 1, after);
    }
  }

  /** The key part before a colon is recognized as what it is. */
  lemma KeyReadBack(s: string, k: KeyPart)
    requires KeyOk(k) && Has(s, 0, KeyText(k)) && |KeyText(k)| < |s| && s[|KeyText(k)|] == ':'
    ensures Parsed(s) == ParsedFrom(s, k, |KeyText(k)|)
  {
    hide FindFrom, Cut, InQuotes, Without, Has, ParsedFrom;
    var colon := |KeyText(k)|;
    match k {
      case BareKey(key) =>
        FoundAfter(s, ':', 0, key);
        HasIsCut(s, 0, key);
        BareIsNotQuoted(s, key);
      case QuotedKey(before, key, between) =>
        var open := |before|;
        var close := open + 1 + |key|;
        HasQuotes(s, 0, before, key, between);
        FoundAfter(s, '"', 0, before);
        FoundAfter(s, '"', open + 1, key);
        FoundAfter(s, ':', close + 1, between);
        HasIsCut(s, 0, before);
        HasIsCut(s, open + 1, key);
        HasIsCut(s, close + 1, between);
        FindsEarlier(s, ':', 0, colon);
        QuoteBeforeColon(s, before);
    }
  }

  lemma BareIsNotQuoted(s: string, key: string)
    requires Has(s, 0, key) && Without(key, '"') && Find(s, ':') == |key|
    ensures !KeyIsQuoted(s)
  {
    hide FindFrom;
    forall j | 0 <= j < |key| ensures s[j] != '"' {
      assert s[0 + j] == key[j];
    }
  }

  lemma QuoteBeforeColon(s: string, before: string)
    requires Has(s, 0, before) && Without(before, ':') && |before| < |s| && s[|before|] == '"'
    ensures |before| < Find(s, ':')
  {
    hide FindFrom;
    forall j | 0 <= j < |before| ensures s[j] != ':' {
      assert s[0 + j] == before[j];
    }
  }

  lemma HasAround(key: string, value: string)
    ensures var s := Around(key, value);
            Has(s, 0, key) && s[|key|] == ':' && Has(s, |key| + 1, value) && |s| == |key| + 1 + |value|
  {
  }

  lemma WrittenIsParsed(e: Entry)
    requires WellFormed(e)
    ensures Parsed(Written(e)) == Some(e)
  {
    hide Parsed, ParsedValue, KeyOk, ValueOk, Has, KeyText, ValueText, Around;
    HasAround(KeyText(e.k), ValueText(e.v));
    KeyReadBack(Written(e), e.k);
    ValueReadBack(Written(e), |KeyText(e.k)| + 1, e.v);
  }

  /** A line yields an entry exactly if it is the writing of that entry, and there is at most one. */
  lemma ParsedExactly(s: string, e: Entry)
    ensures Parsed(s) == Some(e) <==> WellFormed(e) && Written(e) == s
  {
    hide Parsed, Written, WellFormed;
    if Parsed(s) == Some(e) {
      ParsedIsWritten(s);
    }
    if WellFormed(e) && Written(e) == s {
      WrittenIsParsed(e);
    }
  }

  // ---- What the list stores

  function KeyOf(k: KeyPart): string {
    match k
    case QuotedKey(_, key, _) => key
    case BareKey(key) => key
  }

  function ValueOf(v: ValuePart): string {
    match v
    case QuotedValue(_, value, _) => value
    case BareValue(value) => value
  }

  datatype Pair = Pair(key: string, value: string)

  function Stored(s: string): Option<Pair> {
    match Parsed(s)
    case None => None
    case Some(e) => Some(Pair(KeyOf(e.k), ValueOf(e.v)))
  }

  function Quoted(s: string): string {
    InQuotes("", s, "")
  }

  /** What an entry written for a pair has besides the pair itself: its quotes, and what stands around them. */
  function Extra(e: Entry): nat {
    (match e.k case QuotedKey(before, _, between) => |before| + 2 + |between| case BareKey(_) => 0) +
    (match e.v case QuotedValue(before, _, after) => |before| + 2 + |after| case BareValue(_) => 0)
  }

  lemma WrittenSize(e: Entry)
    ensures |Written(e)| == |KeyOf(e.k)| + 1 + |ValueOf(e.v)| + Extra(e)
  {
  }

  /** A pair is stored exactly if some well-formed entry for it is what is written. */
  lemma StoredIf(s: string, e: Entry)
    requires WellFormed(e) && Written(e) == s
    ensures Stored(s) == Some(Pair(KeyOf(e.k), ValueOf(e.v)))
  {
    hide Parsed, WellFormed, Written;
    ParsedExactly(s, e);
  }

  lemma StoredBy(s: string, key: string, value: string) returns (e: Entry)
    requires Stored(s) == Some(Pair(key, value))
    ensures WellFormed(e) && Written(e) == s && KeyOf(e.k) == key && ValueOf(e.v) == value
    ensures |s| == |key| + 1 + |value| + Extra(e)
  {
    hide Parsed, WellFormed, Written;
    e := Parsed(s).value;
    ParsedExactly(s, e);
    WrittenSize(e);
  }

  lemma HeadOf(e: Entry)
    requires WellFormed(e) && e.k.BareKey?
    ensures Written(e)[0] != '"'
  {
  }

  lemma LastOf(e: Entry)
    requires WellFormed(e) && e.v.BareValue?
    ensures Written(e)[|Written(e)| - 1] != '"'
  {
  }

  lemma QuotedHead(e: Entry)
    requires e.k.QuotedKey? && e.k.before == ""
    ensures Written(e)[0] == '"'
  {
  }

  /** Both bare: the pair comes back exactly if the key has no quote and no colon, and the value no quote. */
  lemma BareRoundTrip(key: string, value: string)
    ensures Stored(Around(key, value)) == Some(Pair(key, value)) <==>
      Without(key, '"') && Without(key, ':') && Without(value, '"')
  {
    hide Parsed, Without, Around, InQuotes;
    HasAround(key, value);
    if Stored(Around(key, value)) == Some(Pair(key, value)) {
      var e := StoredBy(Around(key, value), key, value);
    }
    if Without(key, '"') && Without(key, ':') && Without(value, '"') {
      StoredIf(Around(key, value), Entry(BareKey(key), BareValue(value)));
    }
  }

  /** A bare key with a quoted value: the same. */
  lemma BareKeyRoundTrip(key: string, value: string)
    ensures Stored(Around(key, Quoted(value))) == Some(Pair(key, value)) <==>
      Without(key, '"') && Without(key, ':') && Without(value, '"')
  {
    var s := Around(key, Quoted(value));
    assert s[0] == if key == "" then ':' else key[0];
    hide Parsed, Around, InQuotes;
    HasAround(key, Quoted(value));
    QuotedSize(value);
    if Stored(s) == Some(Pair(key, value)) {
      var e := StoredBy(s, key, value);
      if e.k.QuotedKey? {
        QuotedHead(e);
      }
    }
    if Without(key, '"') && Without(key, ':') && Without(value, '"') {
      StoredIf(s, Entry(BareKey(key), QuotedValue("", value, "")));
    }
  }

  lemma QuotedSize(s: string)
    ensures |Quoted(s)| == |s| + 2
  {
  }

  /** A quoted key, with the value quoted or not: the pair comes back exactly if neither has a quote. */
  lemma QuotedKeyRoundTrip(key: string, value: string)
    ensures Stored(Around(Quoted(key), Quoted(value))) == Some(Pair(key, value)) <==>
      Without(key, '"')
      && Without(value, '"')
    ensures Stored(Around(Quoted(key), value)) == Some(Pair(key, value)) <==> Without(key, '"') && Without(value, '"')
  {
    var s, t := Around(Quoted(key), Quoted(value)), Around(Quoted(key), value);
    assert s[0] == '"' && t[0] == '"' && s[|s| - 1] == '"';
    hide Parsed, Around, InQuotes;
    HasAround(Quoted(key), Quoted(value));
    HasAround(Quoted(key), value);
    QuotedSize(key);
    QuotedSize(value);
    if Stored(s) == Some(Pair(key, value)) {
      var e := StoredBy(s, key, value);
      if e.k.BareKey? {
        HeadOf(e);
      }
      if e.v.BareValue? {
        LastOf(e);
      }
    }
    if Stored(t) == Some(Pair(key, value)) {
      var e := StoredBy(t, key, value);
      if e.k.BareKey? {
        HeadOf(e);
      }
    }
    if Without(key, '"') && Without(value, '"') {
      assert Without("", '"') && Without("", ':');
      StoredIf(s, Entry(QuotedKey("", key, ""), QuotedValue("", value, "")));
      StoredIf(t, Entry(QuotedKey("", key, ""), BareValue(value)));
    }
  }

  /** A line end is taken off, and nothing else exactly if the text has no line break of its own. */
  lemma ContentOfLine(s: string)
    ensures Content(s + "\n") == s <==> Without(s, '\r') && Without(s, '\n')
  {
    hide FindFrom;
    var line := s + "\n";
    FindsFirst(line, '\r', 0);
    var cut := Before(line, '\r');
    FindsFirst(cut, '\n', 0);
    if Without(s, '\r') && Without(s, '\n') {
      FoundAt(line, '\r', 0, |line|);
      assert cut == line;
      FoundAt(line, '\n', 0, |s|);
    }
    if Content(line) == s {
      forall i | 0 <= i < |s| ensures s[i] != '\n' && s[i] != '\r' {
        assert s[i] == Content(line)[i] == cut[i] == line[i];
      }
    }
  }

  predicate OneLine(s: string) {
    Without(s, '\r') && Without(s, '\n')
  }

  lemma ContentIsOneLine(line: string)
    ensures OneLine(Content(line))
  {
    hide FindFrom;
    FindsFirst(line, '\r', 0);
    FindsFirst(Before(line, '\r'), '\n', 0);
  }

  lemma OneLineJoin(a: string, b: string)
    ensures OneLine(a + b) <==> OneLine(a) && OneLine(b)
  {
    assert forall i | 0 <= i < |a| :: a[i] == (a + b)[i];
    assert forall i | 0 <= i < |b| :: b[i] == (a + b)[|a| + i];
  }

  lemma OneLineQuotes(before: string, text: string, after: string)
    ensures OneLine(InQuotes(before, text, after)) <==> OneLine(before) && OneLine(text) && OneLine(after)
  {
    assert OneLine("\"");
    hide OneLine;
    OneLineJoin(before, "\"");
    OneLineJoin(before + "\"", text);
    OneLineJoin(before + "\"" + text, "\"");
    OneLineJoin(before + "\"" + text + "\"", after);
  }

  lemma OneLineAround(key: string, value: string)
    ensures OneLine(Around(key, value)) <==> OneLine(key) && OneLine(value)
  {
    assert OneLine(":");
    hide OneLine;
    OneLineJoin(key, ":");
    OneLineJoin(key + ":", value);
  }

  /** What is stored was in the text. */
  lemma StoredIsOneLine(s: string, key: string, value: string)
    requires OneLine(s) && Stored(s) == Some(Pair(key, value))
    ensures OneLine(key) && OneLine(value)
  {
    hide Stored, OneLine, InQuotes, Around, WellFormed;
    var e := StoredBy(s, key, value);
    OneLineAround(KeyText(e.k), ValueText(e.v));
    if e.k.QuotedKey? {
      OneLineQuotes(e.k.before, key, e.k.between);
    }
    if e.v.QuotedValue? {
      OneLineQuotes(e.v.before, value, e.v.after);
    }
  }

  /** A key or a value as it may be written. */
  function Shown(s: string, quoted: bool): string {
    if quoted then Quoted(s) else s
  }

  lemma OneLineShown(s: string, quoted: bool)
    ensures OneLine(Shown(s, quoted)) <==> OneLine(s)
  {
    assert OneLine("");
    hide OneLine, InQuotes;
    OneLineQuotes("", s, "");
  }

  /**
   * A pair written on a line is what the list stores exactly if neither part has a quote or a line break, and the
   * key no colon unless it is quoted.
   */
  lemma LineRoundTrip(key: string, value: string, quotedKey: bool, quotedValue: bool)
    ensures Stored(Content(Around(Shown(key, quotedKey), Shown(value, quotedValue)) + "\n")) == Some(Pair(key, value))
      <==> OneLine(key) && OneLine(value) && Without(key, '"') && Without(value, '"')
           && (quotedKey || Without(key, ':'))
  {
    BareRoundTrip(key, value);
    BareKeyRoundTrip(key, value);
    QuotedKeyRoundTrip(key, value);
    OneLineShown(key, quotedKey);
    OneLineShown(value, quotedValue);
    OneLineAround(Shown(key, quotedKey), Shown(value, quotedValue));
    assert OneLine(Around(Shown(key, quotedKey), Shown(value, quotedValue))) <==> OneLine(key) && OneLine(value);
    hide Stored, Content, Around, Quoted;
    var s := Around(Shown(key, quotedKey), Shown(value, quotedValue));
    ContentOfLine(s);
    ContentIsOneLine(s + "\n");
    if Stored(Content(s + "\n")) == Some(Pair(key, value)) {
      StoredIsOneLine(Content(s + "\n"), key, value);
    }
  }

  // ---- The parser, in place

  /**
   * One round of the loop in Lists_OP_MakeCDB: the line is cut by writing terminators into it, and what is passed to
   * cdb_make_add is returned, or None if the line is skipped.
   */
  method ParseLine(str: array<char>, ghost line: CString) returns (pair: Option<Pair>)
    requires Buffers(str, line, 0)
    modifies str
    ensures pair == Stored(Content(line))
  {
    ghost var s := Before(line, '\r');
    CutBuffer(str, '\r', line);
    CutBuffer(str, '\n', s);
    s := Content(line);
    pair := ParseContent(str, s);
  }

  /** strchr, and a terminator there. */
  method CutBuffer(str: array<char>, c: char, ghost s: CString)
    requires Buffers(str, s, 0) && c != '\0'
    modifies str
    ensures Buffers(str, Before(s, c), 0)
  {
    var tmp := Strchr(str, 0, c, s);
    if str[tmp] != '\0' {
      str[tmp] := '\0';
    }
  }

  /** The stretch of the buffer from lo is the text of s up to hi, ended by a terminator. */
  ghost predicate Ended(str: array<char>, s: string, lo: nat, hi: nat)
    reads str
  {
    lo <= hi <= |s| < str.Length && str[hi] == '\0' && forall j | lo <= j < hi :: str[j] == s[j]
  }

  /** The quotes around a key, if there are any: where the key starts and where the search for the colon does. */
  method TakeQuotes(str: array<char>, ghost s: CString) returns (ok: bool, quoted: bool, key: nat, begin: nat)
    requires Buffers(str, s, 0)
    modifies str
    ensures quoted == KeyIsQuoted(s)
    ensures !quoted ==> ok && key == begin == 0 && Buffers(str, s, 0)
    ensures quoted ==>
      var open := Find(s, '"'); var close := FindFrom(s, '"', open + 1);
      ok == (close < |s|) && (ok ==>
        key == open + 1 && begin == close + 1 && Ended(str, s, key, close)
        && Buffers(str, s, begin))
  {
    hide FindFrom;
    ok, quoted, key, begin := true, false, 0, 0;
    var keyQuotes := Strchr(str, 0, '"', s);
    if str[keyQuotes] == '\0' {
      return;
    }
    var isKey := Strchr(str, 0, ':', s);
    if str[isKey] == '\0' || isKey <= keyQuotes {
      return;
    }
    quoted := true;
    str[keyQuotes] := '\0';
    key := keyQuotes + 1;
    var close := Strchr(str, key, '"', s);
    ok := str[close] != '\0';
    if ok {
      str[close] := '\0';
      begin := close + 1;
    }
  }

  /** The value, with or without quotes. */
  method TakeValue(str: array<char>, i: nat, ghost s: CString) returns (value: Option<string>)
    requires Buffers(str, s, i)
    modifies str
    ensures value == match ParsedValue(s, i) case None => None case Some(v) => Some(ValueOf(v))
    ensures forall j | 0 <= j < i :: str[j] == old(str[j])
  {
    hide FindFrom, Cut;
    var open := Strchr(str, i, '"', s);
    if str[open] == '\0' {
      var bare := Read(str, i, |s|);
      IsCut(str, s, i, |s|);
      return Some(bare);
    }
    str[open] := '\0';
    var close := Strchr(str, open + 1, '"', s);
    if str[close] == '\0' {
      return None;
    }
    str[close] := '\0';
    var quoted := Read(str, open + 1, close);
    IsCut(str, s, open + 1, close);
    value := Some(quoted);
  }

  lemma IsCut(str: array<char>, s: string, lo: nat, hi: nat)
    requires Ended(str, s, lo, hi)
    ensures str[lo..hi] == Cut(s, lo, hi)
  {
  }

  method ParseContent(str: array<char>, ghost s: CString) returns (pair: Option<Pair>)
    requires Buffers(str, s, 0)
    modifies str
    ensures pair == Stored(s)
  {
    hide FindFrom, Cut, ParsedValue;
    var ok, quoted, key, begin := TakeQuotes(str, s);
    if !ok {
      return None;
    }
    var val := Strchr(str, begin, ':', s);
    if str[val] == '\0' {
      return None;
    }
    str[val] := '\0';
    ghost var keyEnd := if quoted then begin - 1 else val;
    assert Ended(str, s, key, keyEnd);
    var value := TakeValue(str, val + 1, s);
    assert Ended(str, s, key, keyEnd);
    var name := Read(str, key, keyEnd);
    IsCut(str, s, key, keyEnd);
    pair := if value.Some? then Some(Pair(name, value.value)) else None;
  }
}
