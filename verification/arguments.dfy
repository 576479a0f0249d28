/**
 * The extra arguments of an active response. The manager splits them at spaces into an array
 * that travels in a message, and the agent joins the array again.
 */
module ResponseArguments {
  import opened Options
  import opened CStrings

  const SPLIT_SIZE: nat := 2048
  const JOIN_SIZE: nat := 4096

  // ---- What arrives, said about the characters alone

  ghost predicate Started(s: string, i: nat)
    requires i <= |s|
  {
    exists j: nat :: j < i && s[j] != ' '
  }

  /** A character is kept unless it is a space that does not stand right before a later word. */
  ghost predicate Kept(s: string, i: nat)
    requires i < |s|
  {
    s[i] != ' ' || (i + 1 < |s| && s[i + 1] != ' ' && Started(s, i))
  }

  ghost function KeptFrom(s: string, i: nat): string
    requires i <= |s|
    decreases |s| - i
  {
    if i == |s| then "" else (if Kept(s, i) then [s[i]] else "") + KeptFrom(s, i + 1)
  }

  /** The string with runs of spaces collapsed and the ends trimmed. */
  ghost function Collapsed(s: string): string {
    KeptFrom(s, 0)
  }

  // ---- Splitting

  function SkipSpaces(s: string, i: nat): (k: nat)
    requires i <= |s|
    ensures i <= k <= |s| && (k < |s| ==> s[k] != ' ')
    decreases |s| - i
  {
    if i < |s| && s[i] == ' ' then SkipSpaces(s, i + 1) else i
  }

  predicate More(s: string, i: nat)
    requires i <= |s|
  {
    SkipSpaces(s, i) < |s|
  }

  /** Where the next word ends. */
  function WordEnd(s: string, i: nat): (end: nat)
    requires i <= |s| && More(s, i)
    ensures SkipSpaces(s, i) < end <= |s|
  {
    FindFrom(s, ' ', SkipSpaces(s, i) + 1)
  }

  function NextWord(s: CString, i: nat): CString
    requires i <= |s| && More(s, i)
  {
    s[SkipSpaces(s, i)..WordEnd(s, i)]
  }

  /** The words of s from position i on: what strtok with " " yields, call by call. */
  function WordsFrom(s: CString, i: nat): seq<CString>
    requires i <= |s|
    decreases |s| - i
  {
    if More(s, i) then [NextWord(s, i)] + WordsFrom(s, WordEnd(s, i)) else []
  }

  function Words(s: CString): seq<CString> {
    WordsFrom(s, 0)
  }

  // ---- Joining

  function Append(args: string, word: string): string {
    if args == "" then word else args + " " + word
  }

  predicate Fits(args: string, word: string) {
    |args| + |word| + 2 <= JOIN_SIZE
  }

  /**
   * The items from i on joined after args; one that is no string is passed over, and the first that does not
   * fit ends it.
   */
  function JoinedFrom(args: string, items: seq<Option<CString>>, i: nat): string
    requires i <= |items|
    decreases |items| - i
  {
    if i == |items| then args
    else if items[i].None? then JoinedFrom(args, items, i + 1)
    else if !Fits(args, items[i].value) then args
    else JoinedFrom(Append(args, items[i].value), items, i + 1)
  }

  function AsItems(words: seq<CString>): seq<Option<CString>> {
    seq(|words|, i requires 0 <= i < |words| => Some(words[i]))
  }

  // ---- The two programs

  /** What the copy of the arguments has room for. */
  function Copied(extraArgs: CString): CString {
    if |extraArgs| < SPLIT_SIZE then extraArgs else extraArgs[..SPLIT_SIZE - 1]
  }

  /** strncpy: at most n characters, and terminators up to n; later places are left alone. */
  method Strncpy(a: array<char>, s: CString, n: nat)
    requires n <= a.Length
    modifies a
    ensures forall j | 0 <= j < n :: a[j] == if j < |s| then s[j] else '\0'
    ensures forall j | n <= j < a.Length :: a[j] == old(a[j])
  {
    for i := 0 to n
      invariant forall j | 0 <= j < i :: a[j] == if j < |s| then s[j] else '\0'
      invariant forall j | n <= j < a.Length :: a[j] == old(a[j])
    {
      a[i] := if i < |s| then s[i] else '\0';
    }
  }

  /**
   * The split of getActiveResponseInJSON: strtok cuts a copy of the arguments in place. The last character of the
   * copy is never written; longer arguments are ended only if a terminator happens to stand there.
   */
  method Split(extraArgs: CString, unwritten: char) returns (items: seq<CString>)
    requires |extraArgs| < SPLIT_SIZE - 1 || unwritten == '\0'
    ensures items == Words(Copied(extraArgs))
  {
    hide FindFrom, SkipSpaces, NextWord, WordEnd, WordsFrom;
    var str := new char[SPLIT_SIZE](_ => unwritten);
    Strncpy(str, extraArgs, SPLIT_SIZE - 1);
    ghost var text := Copied(extraArgs);
    assert Buffers(str, text, 0);
    items := [];
    var i: nat := 0;
    var more := true;
    while more
      invariant Buffers(str, text, i)
      invariant Words(text) == if more then items + WordsFrom(text, i) else items
      modifies str
      decreases more, |text| - i
    {
      var word: CString;
      WordsStep(items, text, i);
      more, word, i := Strtok(str, i, text);
      if more {
        items := items + [word];
      }
    }
  }

  lemma WordsStep(items: seq<CString>, s: CString, i: nat)
    requires i <= |s|
    ensures items + WordsFrom(s, i) ==
        if More(s, i) then (items + [NextWord(s, i)]) + WordsFrom(s, WordEnd(s, i)) else items
  {
    hide NextWord, WordEnd, SkipSpaces;
  }

  /** One call of strtok: the next word, ended by a terminator, and the place to go on from. */
  method Strtok(a: array<char>, i: nat, ghost s: CString) returns (found: bool, word: CString, next: nat)
    requires Buffers(a, s, i)
    modifies a
    ensures found == More(s, i)
    ensures found ==>
      i < next && word == NextWord(s, i) && Buffers(a, s, next)
      && WordsFrom(s, next) == WordsFrom(s, WordEnd(s, i))
    ensures !found ==> next == i && Buffers(a, s, next)
  {
    hide FindFrom, WordsFrom, SkipSpaces;
    var start := SkipIn(a, i, s);
    found, word, next := a[start] != '\0', "", i;
    if !found {
      return;
    }
    var end := Strchr(a, start + 1, ' ', s);
    next := end;
    if a[end] != '\0' {
      a[end] := '\0';
      next := end + 1;
      SpaceSkipped(s, end);
    }
    word := Read(a, start, end);
    assert word == s[start..end];
  }

  /** The first place in a buffer that is not a space. */
  method SkipIn(a: array<char>, i: nat, ghost s: string) returns (start: nat)
    requires Buffers(a, s, i)
    ensures start == SkipSpaces(s, i)
  {
    start := i;
    while a[start] == ' '
      invariant i <= start <= |s| && SkipSpaces(s, i) == SkipSpaces(s, start)
      decreases |s| - start
    {
      start := start + 1;
    }
  }

  lemma SpaceSkipped(s: CString, end: nat)
    requires end < |s| && s[end] == ' '
    ensures WordsFrom(s, end + 1) == WordsFrom(s, end)
  {
  }

  /** The two calls of strcat for one item. */
  method AppendWord(args: array<char>, n: nat, word: string) returns (m: nat)
    requires args.Length == JOIN_SIZE && n + |word| + 2 <= JOIN_SIZE
    modifies args
    ensures m < JOIN_SIZE && args[..m] == Append(old(args[..n]), word)
  {
    m := n;
    if n > 0 {
      Strncat(args, n, " ");
      m := n + 1;
    }
    Strncat(args, m, word);
    m := m + |word|;
  }

  /** get_extra_args_from_json: NULL for an empty result. */
  method Join(items: seq<Option<CString>>) returns (extraArgs: Option<string>)
    ensures var args := JoinedFrom("", items, 0); extraArgs == if args == "" then None else Some(args)
  {
    hide Append;
    var args := new char[JOIN_SIZE](_ => '\0');
    var n: nat := 0;                            // strlen(args)
    var i := 0;
    while i < |items|
      invariant 0 <= i <= |items| && n < JOIN_SIZE && args.Length == JOIN_SIZE
      invariant JoinedFrom("", items, 0) == JoinedFrom(args[..n], items, i)
      modifies args
    {
      if items[i].Some? {
        if n + |items[i].value| + 2 > JOIN_SIZE {
          break;
        }
        n := AppendWord(args, n, items[i].value);
      }
      i := i + 1;
    }
    extraArgs := if n == 0 then None else Some(args[..n]);
  }

  // ---- What is joined, and where it ends

  /** The items that are strings. */
  function Strings(items: seq<Option<CString>>): seq<CString> {
    if items == [] then []
    else (if items[0].Some? then [items[0].value] else []) + Strings(items[1..])
  }

  /** Words one after the other, each after a space unless nothing stands before it. */
  function Spaced(words: seq<CString>): string {
    if words == [] then ""
    else
      var before, word := Spaced(words[..|words| - 1]), words[|words| - 1];
      before + (if before == "" then "" else " ") + word
  }

  /** The first k words are joined; each of them had room when its turn came, and the next one would not. */
  ghost predicate JoinsFirst(words: seq<CString>, k: nat, args: string) {
    && k <= |words| && args == Spaced(words[..k])
    && (forall j | 0 <= j < k :: |Spaced(words[..j])| + |words[j]| + 2 <= 4096)
    && (k < |words| ==> |args| + |words[k]| + 2 > 4096)
  }

  lemma SpacedSnoc(words: seq<CString>, k: nat)
    requires k < |words|
    ensures Spaced(words[..k + 1]) == Append(Spaced(words[..k]), words[k])
  {
    assert words[..k + 1][..k] == words[..k];
  }

  /** Strings that fit are joined in order, with single spaces, up to the first that does not. */
  lemma {:induction false} JoinedIsFirst(words: seq<CString>, items: seq<Option<CString>>, i: nat, k: nat)
      returns (m: nat)
    requires i <= |items| && k <= |words| && words[k..] == Strings(items[i..])
    requires forall j | 0 <= j < k :: |Spaced(words[..j])| + |words[j]| + 2 <= 4096
    ensures JoinsFirst(words, m, JoinedFrom(Spaced(words[..k]), items, i))
    decreases |items| - i
  {
    m := k;
    if i < |items| {
      assert items[i..][0] == items[i] && items[i..][1..] == items[i + 1..];
      if items[i].None? {
        m := JoinedIsFirst(words, items, i + 1, k);
      } else {
        assert words[k..][0] == items[i].value && words[k..][1..] == words[k + 1..];
        SpacedSnoc(words, k);
        if Fits(Spaced(words[..k]), words[k]) {
          m := JoinedIsFirst(words, items, i + 1, k + 1);
        }
      }
    }
  }

  /** What the agent makes of an array. */
  lemma JoinMeans(items: seq<Option<CString>>) returns (k: nat)
    ensures JoinsFirst(Strings(items), k, JoinedFrom("", items, 0))
  {
    assert items[0..] == items;
    k := JoinedIsFirst(Strings(items), items, 0, 0);
  }

  // ---- The round trip

  ghost predicate Blank(s: string, lo: nat, hi: nat)
    requires hi <= |s|
  {
    forall j | lo <= j < hi :: s[j] == ' '
  }

  lemma {:induction false} SkipsBlank(s: string, i: nat)
    requires i <= |s|
    ensures Blank(s, i, SkipSpaces(s, i))
    decreases |s| - i
  {
    if i < |s| && s[i] == ' ' {
      SkipsBlank(s, i + 1);
    }
  }

  /** Of a run of spaces, the last is kept if words stand on both sides. */
  lemma {:induction false} KeptBlank(s: string, i: nat, start: nat)
    requires i <= start <= |s| && Blank(s, i, start) && (start < |s| ==> s[start] != ' ')
    ensures KeptFrom(s, i) == (if i < start < |s| && Started(s, i) then " " else "") + KeptFrom(s, start)
    decreases start - i
  {
    if i < start {
      assert Started(s, i + 1) <==> Started(s, i);
      KeptBlank(s, i + 1, start);
    }
  }

  lemma KeptLetter(s: string, i: nat)
    requires i < |s| && s[i] != ' '
    ensures KeptFrom(s, i) == [s[i]] + KeptFrom(s, i + 1)
  {
  }

  lemma {:induction false} KeptWord(s: string, start: nat, end: nat)
    requires start <= end <= |s| && forall j | start <= j < end :: s[j] != ' '
    ensures KeptFrom(s, start) == s[start..end] + KeptFrom(s, end)
    decreases end - start
  {
    if start < end {
      KeptWord(s, start + 1, end);
      KeptLetter(s, start);
      hide KeptFrom;
      assert s[start..end] == [s[start]] + s[start + 1..end];
    }
  }

  /** A place between words. */
  predicate Boundary(s: string, i: nat) {
    i <= |s| && (i == 0 || i == |s| || s[i] == ' ')
  }

  /** What is kept from a boundary on: a space if a word went before, the next word, and so on. */
  lemma KeptStep(s: CString, i: nat)
    requires Boundary(s, i)
    ensures KeptFrom(s, i) ==
      if More(s, i) then (if Started(s, i) then " " else "") + NextWord(s, i) + KeptFrom(s, WordEnd(s, i)) else ""
    ensures More(s, i) ==>
      Boundary(s, WordEnd(s, i)) && Started(s, WordEnd(s, i))
      && (Started(s, i) ==> i < SkipSpaces(s, i))
  {
    hide KeptFrom, SkipSpaces;
    var start := SkipSpaces(s, i);
    SkipsBlank(s, i);
    KeptBlank(s, i, start);
    if More(s, i) {
      var end := WordEnd(s, i);
      FindsFirst(s, ' ', start + 1);
      KeptWord(s, start, end);
    } else {
      KeptWord(s, start, start);
      KeptNothing(s);
    }
  }

  lemma KeptNothing(s: string)
    ensures KeptFrom(s, |s|) == ""
  {
  }

  lemma {:induction false} JoinsKept(s: CString, i: nat, args: string, items: seq<Option<CString>>, k: nat)
    requires |s| < SPLIT_SIZE && Boundary(s, i) && |args| <= i && (Started(s, i) <==> args != "")
    requires k <= |items| && items[k..] == AsItems(WordsFrom(s, i))
    ensures JoinedFrom(args, items, k) == args + KeptFrom(s, i)
    decreases |s| - i
  {
    hide NextWord, SkipSpaces, KeptFrom, Started;
    KeptStep(s, i);
    if More(s, i) {
      var word, end := NextWord(s, i), WordEnd(s, i);
      WordLength(s, i);
      assert items[k] == items[k..][0] == Some(word);
      assert items[k + 1..] == items[k..][1..] == AsItems(WordsFrom(s, end));
      JoinsKept(s, end, Append(args, word), items, k + 1);
    }
  }

  lemma WordLength(s: CString, i: nat)
    requires i <= |s| && More(s, i)
    ensures 0 < |NextWord(s, i)| == WordEnd(s, i) - SkipSpaces(s, i)
  {
  }

  lemma {:induction false} NothingKept(s: string, i: nat)
    requires i <= |s|
    ensures KeptFrom(s, i) == "" <==> Blank(s, i, |s|)
    decreases |s| - i
  {
    if i < |s| {
      NothingKept(s, i + 1);
    }
  }

  /**
   * Arguments of at most 2047 characters arrive with runs of spaces collapsed and ends trimmed, or as NULL exactly
   * if they are all spaces; the bound of the agent's buffer is never felt.
   */
  lemma ArgumentsArrive(s: CString)
    requires |s| < SPLIT_SIZE
    ensures var args := JoinedFrom("", AsItems(Words(s)), 0);
            args == Collapsed(s) && (args == "" <==> Blank(s, 0, |s|))
  {
    var items := AsItems(Words(s));
    assert items[0..] == items;
    JoinsKept(s, 0, "", items, 0);
    NothingKept(s, 0);
  }

  /** The two programs, one after the other. */
  method SendAndReceive(extraArgs: CString, unwritten: char) returns (received: Option<string>)
    requires |extraArgs| < SPLIT_SIZE - 1 || unwritten == '\0'
    ensures var s := extraArgs[..if |extraArgs| < 2047 then |extraArgs| else 2047];
            received == if Blank(s, 0, |s|) then None else Some(Collapsed(s))
  {
    var items := Split(extraArgs, unwritten);
    ArgumentsArrive(Copied(extraArgs));
    assert extraArgs[..if |extraArgs| < 2047 then |extraArgs| else 2047] == Copied(extraArgs);
    received := Join(AsItems(items));
  }
}
