/**
 * The agent key file: one line per agent, "id name ip key". Removing an agent marks its
 * line by a '!' before the name, so that its id is never given out again. The file is read
 * with fgets, at most 255 characters at a time.
 */
module KeyFiles {
  import opened Options
  import opened CStrings

  const CHUNK: nat := 255       // fgets with FILE_SIZE - 1
  const LONG_CHUNK: nat := 2045 // fgets with OS_BUFFER_SIZE - 2
  const OS_BUFFER_SIZE: nat := 2048

  /** Where one fgets from position at stops: after the first newline, or after limit characters. */
  function Stop(file: string, at: nat, limit: nat): (end: nat)
    requires at < |file| && limit > 0
    ensures at < end <= |file| && end <= at + limit
  {
    var e := FindFrom(file, '\n', at);
    var line := if e < |file| then e + 1 else e;
    if line < at + limit then line else at + limit
  }

  /** A line as the searches read it. */
  datatype Agent =
    | Live(id: string, name: Option<string>, ip: Option<string>)
    | Removed(id: string)

  /** A field that ends in a space. */
  function Field(s: string): Option<string> {
    if Find(s, ' ') < |s| then Some(s[..Find(s, ' ')]) else None
  }

  function AfterSpace(s: string): string {
    if Find(s, ' ') < |s| then s[Find(s, ' ') + 1..] else ""
  }

  predicate Marked(rest: string) {
    rest != "" && (rest[0] == '!' || rest[0] == '#')
  }

  function AgentOf(chunk: string): Option<Agent> {
    if chunk == "" || chunk[0] == '#' || Field(chunk).None? then None
    else if Marked(AfterSpace(chunk)) then Some(Removed(Field(chunk).value))
    else Some(Live(Field(chunk).value, Field(AfterSpace(chunk)), Field(AfterSpace(AfterSpace(chunk)))))
  }

  /** The agent on the chunk that fgets reads at a position, if that chunk shows one. */
  function AgentAt(file: string, at: nat): Option<Agent>
    requires at < |file|
  {
    AgentOf(file[at..Stop(file, at, CHUNK)])
  }

  function Prepend(a: Option<Agent>, rest: seq<Agent>): seq<Agent> {
    if a.Some? then [a.value] + rest else rest
  }

  function AgentsFrom(file: string, at: nat): seq<Agent>
    requires at <= |file|
    decreases |file| - at
  {
    if at == |file| then []
    else Prepend(AgentAt(file, at), AgentsFrom(file, Stop(file, at, CHUNK)))
  }

  /** The agents of the file, in order. */
  function Agents(file: string): seq<Agent> {
    AgentsFrom(file, 0)
  }

  predicate Wanted(a: Option<Agent>, id: string, discardRemoved: bool) {
    a.Some? && a.value.id == id && (discardRemoved ==> a.value.Live?)
  }

  function PositionFrom(file: string, at: nat, id: string, discardRemoved: bool): (k: nat)
    requires at <= |file|
    ensures at <= k <= |file|
    decreases |file| - at
  {
    if at == |file| || Wanted(AgentAt(file, at), id, discardRemoved) then at
    else PositionFrom(file, Stop(file, at, CHUNK), id, discardRemoved)
  }

  /** The position of the first line of an agent, or the end of the file. */
  function Position(file: string, id: string, discardRemoved: bool): (k: nat)
    ensures k <= |file|
  {
    PositionFrom(file, 0, id, discardRemoved)
  }

  ghost predicate Holds(agents: seq<Agent>, id: string, discardRemoved: bool) {
    exists a :: a in agents && Wanted(Some(a), id, discardRemoved)
  }

  ghost predicate HasId(file: string, id: string, discardRemoved: bool) {
    Holds(Agents(file), id, discardRemoved)
  }

  function LiveName(a: Option<Agent>): Option<string> {
    if a.Some? && a.value.Live? then a.value.name else None
  }

  ghost predicate Named(agents: seq<Agent>, name: string) {
    exists a :: a in agents && LiveName(Some(a)) == Some(name)
  }

  /** The file with the line at position at marked as removed. */
  function MarkAt(file: string, at: nat): string
    requires at <= |file|
  {
    var sp := FindFrom(file, ' ', at);
    if sp == |file| then file else file[..sp + 1] + "!" + file[sp + 1..]
  }

  function Tombstoned(file: string, id: string): string {
    MarkAt(file, Position(file, id, true))
  }

  /** What a chunk shows, by how it is written. */
  lemma ChunkShows(id: string, rest: string)
    requires ' ' !in id
    ensures AgentOf(id) == None
    ensures AgentOf(id + " " + rest) ==
      if id != "" && id[0] == '#' then None
      else if rest != "" && (rest[0] == '!' || rest[0] == '#') then Some(Removed(id))
      else Some(Live(id, Field(rest), Field(AfterSpace(rest))))
  {
    var chunk := id + " " + rest;
    FoundAt(chunk, ' ', 0, |id|);
    FoundAt(id, ' ', 0, |id|);
    assert chunk[..|id|] == id && chunk[|id| + 1..] == rest;
  }

  // ---- Names and ids

  predicate Digit(c: char) { '0' <= c <= '9' }

  function DigitValue(c: char): nat
    requires Digit(c)
  {
    (c - '0') as nat
  }

  predicate NameChar(c: char) {
    'a' <= c <= 'z' || 'A' <= c <= 'Z' || Digit(c) || c == '-' || c == '_' || c == '.'
  }

  predicate ValidName(s: string) {
    2 <= |s| <= 128 && forall i | 0 <= i < |s| :: NameChar(s[i])
  }

  predicate ValidId(s: string) {
    |s| <= 8 && forall i | 0 <= i < |s| :: Digit(s[i])
  }

  /** strtol on digits */
  function Value(s: string): nat
    requires forall i | 0 <= i < |s| :: Digit(s[i])
  {
    if s == "" then 0 else Value(s[..|s| - 1]) * 10 + DigitValue(s[|s| - 1])
  }

  function Digits(n: nat): string {
    if n == 0 then "" else Digits(n / 10) + [('0' as nat + n % 10) as char]
  }

  function Padded(s: string): string
    decreases 3 - |s|
  {
    if |s| >= 3 then s else Padded("0" + s)
  }

  /** printf with "%03d" */
  function Format3(n: nat): string {
    Padded(Digits(n))
  }

  lemma {:induction false} DigitsValue(n: nat)
    ensures forall i | 0 <= i < |Digits(n)| :: Digit(Digits(n)[i])
    ensures Value(Digits(n)) == n
  {
    if n > 0 {
      DigitsValue(n / 10);
      assert Digits(n)[..|Digits(n)| - 1] == Digits(n / 10);
    }
  }

  lemma {:induction false} LeadingZero(s: string)
    requires forall i | 0 <= i < |s| :: Digit(s[i])
    ensures Value("0" + s) == Value(s)
  {
    if s != "" {
      assert ("0" + s)[..|s|] == "0" + s[..|s| - 1];
      LeadingZero(s[..|s| - 1]);
    } else {
      assert ("0" + s)[..0] == "";
    }
  }

  lemma {:induction false} PaddedValue(s: string)
    requires forall i | 0 <= i < |s| :: Digit(s[i])
    ensures forall i | 0 <= i < |Padded(s)| :: Digit(Padded(s)[i])
    ensures Value(Padded(s)) == Value(s)
    decreases 3 - |s|
  {
    if |s| < 3 {
      LeadingZero(s);
      PaddedValue("0" + s);
    }
  }

  /** Formatting an id and reading it back gives the number, so different numbers have different ids. */
  lemma FormatRoundTrip(n: nat)
    ensures forall i | 0 <= i < |Format3(n)| :: Digit(Format3(n)[i])
    ensures Value(Format3(n)) == n
  {
    DigitsValue(n);
    PaddedValue(Digits(n));
  }

  lemma {:induction false} DigitsAreShortest(n: nat)
    ensures Digits(n) != "" ==> Digits(n)[0] != '0'
  {
    if n > 9 {
      DigitsAreShortest(n / 10);
    }
  }

  /** Digits that do not start with 0 are the digits of their value. */
  lemma {:induction false} DigitsOfValue(s: string)
    requires forall i | 0 <= i < |s| :: Digit(s[i])
    requires s != "" ==> s[0] != '0'
    ensures Digits(Value(s)) == s && (s == "" <==> Value(s) == 0)
  {
    if s != "" {
      var front, last := s[..|s| - 1], s[|s| - 1];
      DigitsOfValue(front);
      assert Value(s) / 10 == Value(front) && Value(s) % 10 == DigitValue(last);
      assert ('0' as nat + DigitValue(last)) as char == last;
      assert s == front + [last];
    }
  }

  /** The usual format is three digits, or more that do not start with 0. */
  lemma FormatExactly(n: nat, s: string)
    ensures s == Format3(n) <==>
      && (forall i | 0 <= i < |s| :: Digit(s[i])) && Value(s) == n
      && |s| >= 3 && (|s| > 3 ==> s[0] != '0')
  {
    FormatRoundTrip(n);
    PaddedIsShortest(n);
    hide Digits, Value, Padded, Format3;
    if (forall i | 0 <= i < |s| :: Digit(s[i])) && Value(s) == n && |s| >= 3 && (|s| > 3 ==> s[0] != '0') {
      PaddingBack(s);
      PaddedLength(s);
    }
  }

  lemma PaddedIsShortest(n: nat)
    ensures |Format3(n)| >= 3 && (|Format3(n)| > 3 ==> Format3(n)[0] != '0')
  {
    hide Digits;
    DigitsAreShortest(n);
    PaddedLength(Digits(n));
  }

  lemma {:induction false} PaddedLength(s: string)
    ensures |s| < 3 ==> |Padded(s)| == 3
    ensures |s| >= 3 ==> Padded(s) == s
    decreases 3 - |s|
  {
    if |s| < 3 {
      PaddedLength("0" + s);
    }
  }

  /** Leading zeros of three digits are what padding puts back. */
  lemma {:induction false} PaddingBack(s: string)
    requires forall i | 0 <= i < |s| :: Digit(s[i])
    requires |s| > 3 ==> s[0] != '0'
    ensures Format3(Value(s)) == Padded(s)
  {
    hide Digits, Value;
    if s == "" || s[0] != '0' {
      DigitsOfValue(s);
    } else {
      assert s == "0" + s[1..];
      LeadingZero(s[1..]);
      PaddingBack(s[1..]);
    }
  }

  method IsValidName(name: string) returns (ok: bool)
    ensures ok == ValidName(name)
  {
    if |name| < 2 || |name| > 128 {
      return false;
    }
    for i := 0 to |name|
      invariant forall j | 0 <= j < i :: NameChar(name[j])
    {
      if !NameChar(name[i]) {
        return false;
      }
    }
    return true;
  }

  method IsValidID(id: string) returns (ok: bool)
    ensures ok == ValidId(id)
  {
    if |id| > 8 {
      return false;
    }
    for i := 0 to |id|
      invariant forall j | 0 <= j < i :: Digit(id[j])
    {
      if !Digit(id[i]) {
        return false;
      }
    }
    return true;
  }

  // ---- The searches, and the removal

  lemma HoldsPrepend(a: Option<Agent>, rest: seq<Agent>, id: string, discardRemoved: bool)
    ensures Holds(Prepend(a, rest), id, discardRemoved) <==>
      Wanted(a, id, discardRemoved)
      || Holds(rest, id, discardRemoved)
  {
    if Wanted(a, id, discardRemoved) {
      assert a.value in Prepend(a, rest);
    } else if x :| x in rest && Wanted(Some(x), id, discardRemoved) {
      assert x in Prepend(a, rest);
    }
  }

  lemma NamedPrepend(a: Option<Agent>, rest: seq<Agent>, name: string)
    ensures Named(Prepend(a, rest), name) <==> LiveName(a) == Some(name) || Named(rest, name)
  {
    if LiveName(a) == Some(name) {
      assert a.value in Prepend(a, rest);
    } else if x :| x in rest && LiveName(Some(x)) == Some(name) {
      assert x in Prepend(a, rest);
    }
  }

  /** The search finds a position exactly if some agent of the file is the one wanted, and it finds that one. */
  lemma {:induction false} PositionFinds(file: string, at: nat, id: string, discardRemoved: bool)
    requires at <= |file|
    ensures var k := PositionFrom(file, at, id, discardRemoved);
            && (k < |file| <==> Holds(AgentsFrom(file, at), id, discardRemoved))
            && (k < |file| ==> Wanted(AgentAt(file, k), id, discardRemoved))
    decreases |file| - at
  {
    if at < |file| {
      HoldsPrepend(AgentAt(file, at), AgentsFrom(file, Stop(file, at, CHUNK)), id, discardRemoved);
      PositionFinds(file, Stop(file, at, CHUNK), id, discardRemoved);
    }
  }

  lemma ChunkHasSpace(chunk: string)
    requires AgentOf(chunk).Some?
    ensures Find(chunk, ' ') < |chunk| && AgentOf(chunk).value.id == chunk[..Find(chunk, ' ')] && chunk[0] != '#'
  {
  }

  /** The line of an agent has its id, then a space, within the first chunk. */
  lemma AgentHasSpace(file: string, at: nat)
    requires at < |file| && AgentAt(file, at).Some?
    ensures var sp := FindFrom(file, ' ', at);
            sp < Stop(file, at, CHUNK) && file[at..sp] == AgentAt(file, at).value.id && file[at] != '#'
  {
    hide AgentOf;
    var end := Stop(file, at, CHUNK);
    FindSlice(file, ' ', at, end);
    var chunk := file[at..end];
    ChunkHasSpace(chunk);
    assert chunk[..Find(chunk, ' ')] == file[at..at + Find(chunk, ' ')];
  }

  /** The test that IDExist makes on each line. */
  method LineMatches(lineRead: string, id: string, discardRemoved: bool) returns (hit: bool)
    requires lineRead != ""
    ensures hit == Wanted(AgentOf(lineRead), id, discardRemoved)
  {
    var sp := Find(lineRead, ' ');
    if lineRead[0] == '#' || sp == |lineRead| || lineRead[..sp] != id {
      return false;
    }
    var name := lineRead[sp + 1..];
    return !(discardRemoved && name != "" && (name[0] == '!' || name[0] == '#'));
  }

  /** The name of an agent in use, read off its line. */
  method NameOnLine(lineRead: string) returns (name: Option<string>)
    requires lineRead != ""
    ensures name == LiveName(AgentOf(lineRead))
  {
    var sp := Find(lineRead, ' ');
    if lineRead[0] == '#' || sp == |lineRead| {
      return None;
    }
    var rest := lineRead[sp + 1..];
    if rest != "" && (rest[0] == '#' || rest[0] == '!') {
      return None;
    }
    var ip := Find(rest, ' ');
    return if ip < |rest| then Some(rest[..ip]) else None;
  }

  /** memcpy */
  method Copy(s: string, a: array<char>, at: nat)
    requires at + |s| <= a.Length
    modifies a
    ensures a[..at] == old(a[..at]) && a[at..at + |s|] == s && a[at + |s|..] == old(a[at + |s|..])
  {
    for i := 0 to |s|
      invariant a[..at] == old(a[..at]) && a[at..at + i] == s[..i] && a[at + i..] == old(a[at + i..])
    {
      a[at + i] := s[i];
    }
  }

  predicate Shows(a: Agent, id: string) {
    a.Live? && a.id == id && a.name.Some?
  }

  ghost predicate FirstNamed(agents: seq<Agent>, id: string, k: nat, name: Option<string>)
    requires k < |agents|
  {
    Shows(agents[k], id) && agents[k].name == name && forall j | 0 <= j < k :: !Shows(agents[j], id)
  }

  lemma IsFirstNamed(seen: seq<Agent>, a: Agent, rest: seq<Agent>, id: string)
    requires Shows(a, id) && forall x | x in seen :: !Shows(x, id)
    ensures FirstNamed(seen + Prepend(Some(a), rest), id, |seen|, a.name)
  {
  }

  predicate Unsearched(ip: string) {
    "any" <= ip || '/' in ip
  }

  /** An address is nobody's, whoever has it, exactly if it starts with "any" or is a network. */
  lemma NobodysExactly(ip: string)
    ensures (forall agents: seq<Agent> :: Holder(agents, ip, None)) <==>
      (|ip| >= 3 && ip[0] == 'a' && ip[1] == 'n' && ip[2] == 'y') || exists i :: 0 <= i < |ip| && ip[i] == '/'
  {
    if !Unsearched(ip) {
      var agents := [Live("001", None, Some(ip))];
      assert agents[0] in agents && UsesIp(agents[0], ip) && !Holder(agents, ip, None);
    }
    assert "any" <= ip <==> |ip| >= 3 && ip[0] == 'a' && ip[1] == 'n' && ip[2] == 'y';
  }

  predicate UsesIp(a: Agent, ip: string) {
    a.Live? && a.ip == Some(ip)
  }

  ghost predicate FirstAt(agents: seq<Agent>, ip: string, k: nat)
    requires k < |agents|
  {
    UsesIp(agents[k], ip) && forall j | 0 <= j < k :: !UsesIp(agents[j], ip)
  }

  /** The id of the first agent in use with the address, if the address is one that is looked up. */
  ghost predicate Holder(agents: seq<Agent>, ip: string, id: Option<string>) {
    match id
    case Some(x) => !Unsearched(ip) && exists k :: 0 <= k < |agents| && FirstAt(agents, ip, k) && agents[k].id == x
    case None => !Unsearched(ip) ==> forall a | a in agents :: !UsesIp(a, ip)
  }

  lemma IsFirstAt(seen: seq<Agent>, a: Agent, rest: seq<Agent>, ip: string)
    requires UsesIp(a, ip) && forall x | x in seen :: !UsesIp(x, ip)
    ensures FirstAt(seen + Prepend(Some(a), rest), ip, |seen|)
  {
  }

  lemma LongerChunk(file: string, at: nat)
    requires at < |file|
    ensures Stop(file, at, CHUNK) <= Stop(file, at, LONG_CHUNK)
  {
  }

  /** A line with the mark after its first space. */
  function MarkFirst(line: string): string
    requires Find(line, ' ') < |line|
  {
    line[..Find(line, ' ') + 1] + "!" + line[Find(line, ' ') + 1..]
  }

  lemma MarkParts(s: string, at: nat, sp: nat, end: nat)
    requires at <= sp < end <= |s|
    ensures s[..sp + 1] + "!" + s[sp + 1..] ==
        s[..at] + (s[at..end][..sp - at + 1] + "!" + s[at..end][sp - at + 1..]) + s[end..]
  {
    assert s[..sp + 1] == s[..at] + s[at..end][..sp - at + 1];
    assert s[sp + 1..] == s[at..end][sp - at + 1..] + s[end..];
  }

  /** Marking the line within the file is the same as marking it apart and putting it back. */
  lemma MarkInPlace(file: string, at: nat, end: nat)
    requires at < end <= |file| && FindFrom(file, ' ', at) < end
    ensures Find(file[at..end], ' ') < |file[at..end]|
    ensures file[..at] + MarkFirst(file[at..end]) + file[end..] == MarkAt(file, at)
    ensures |MarkAt(file, at)| == |file| + 1
  {
    var sp, line := FindFrom(file, ' ', at), file[at..end];
    FindSlice(file, ' ', at, end);
    assert MarkFirst(line) == line[..sp - at + 1] + "!" + line[sp - at + 1..];
    MarkParts(file, at, sp, end);
  }

  /** The marking of the line read, in a buffer of fixed size. */
  method MarkLine(curline: string) returns (marked: string)
    requires |curline| <= LONG_CHUNK && Find(curline, ' ') < |curline|
    ensures marked == MarkFirst(curline)
  {
    var line := new char[OS_BUFFER_SIZE];
    Copy(curline, line, 0);
    var ptrName := Find(curline, ' ') + 1;
    assert line[..ptrName] == line[0..0 + |curline|][..ptrName] == curline[..ptrName];
    Copy(curline[ptrName..], line, ptrName + 1);                 // memmove by one place
    ghost var tail := line[ptrName + 1..ptrName + 1 + |curline[ptrName..]|];
    assert line[..ptrName] == line[..ptrName + 1][..ptrName];
    line[ptrName] := '!';
    marked := line[..|curline| + 1];
    assert marked == line[..ptrName] + [line[ptrName]] + tail;
  }

  /** Three stretches copied one after the other into a buffer. */
  method Assemble(prefix: string, line: string, rest: string, size: nat) returns (text: string)
    requires |prefix| + |line| + |rest| <= size
    ensures text == prefix + line + rest
  {
    var buffer := new char[size];
    Copy(prefix, buffer, 0);
    assert buffer[..|prefix|] == buffer[0..0 + |prefix|];
    Copy(line, buffer, |prefix|);
    var read := |prefix| + |line|;
    assert buffer[..read] == buffer[..|prefix|] + buffer[|prefix|..read];
    Copy(rest, buffer, read);
    text := buffer[..read + |rest|];
    assert text == buffer[..read] + buffer[read..read + |rest|];
  }

  class KeyFile {
    var bytes: string
    var fpPos: nat

    constructor (bytes: string)
      ensures this.bytes == bytes && fpPos == 0
    {
      this.bytes, fpPos := bytes, 0;
    }

    /** IDExist: leaves fp_pos at the line found, for OS_RemoveAgent. */
    method IDExist(id: string, discardRemoved: bool) returns (found: bool)
      modifies this`fpPos
      ensures found == HasId(bytes, id, discardRemoved)
      ensures fpPos == Position(bytes, id, discardRemoved)
    {
      PositionFinds(bytes, 0, id, discardRemoved);
      fpPos := 0;
      while fpPos < |bytes|
        invariant fpPos <= |bytes|
        invariant Position(bytes, id, discardRemoved) == PositionFrom(bytes, fpPos, id, discardRemoved)
      {
        var end := Stop(bytes, fpPos, CHUNK);
        var hit := LineMatches(bytes[fpPos..end], id, discardRemoved);
        if hit {
          return true;
        }
        fpPos := end;
      }
      return false;
    }

    /** NameExist: a removed agent's name is free again. The position it leaves in fp_pos is never used. */
    method NameExist(name: string) returns (found: bool)
      ensures found == (name != "" && name[0] != '\r' && name[0] != '\n' && Named(Agents(bytes), name))
    {
      if name == "" || name[0] == '\r' || name[0] == '\n' {
        return false;
      }
      var at := 0;
      while at < |bytes|
        invariant at <= |bytes|
        invariant Named(Agents(bytes), name) <==> Named(AgentsFrom(bytes, at), name)
      {
        var end := Stop(bytes, at, CHUNK);
        var shown := NameOnLine(bytes[at..end]);
        NamedPrepend(AgentAt(bytes, at), AgentsFrom(bytes, end), name);
        if shown == Some(name) {
          return true;
        }
        at := end;
      }
      return false;
    }

    /** getNameById: the name of the first agent in use under an id whose line is complete enough to show one. */
    method GetNameById(id: string) returns (name: Option<string>)
      ensures match name
              case Some(_) => exists k :: 0 <= k < |Agents(bytes)| && FirstNamed(Agents(bytes), id, k, name)
              case None => forall a | a in Agents(bytes) :: !Shows(a, id)
    {
      var at := 0;
      ghost var seen: seq<Agent> := [];
      while at < |bytes|
        invariant at <= |bytes|
        invariant Agents(bytes) == seen + AgentsFrom(bytes, at)
        invariant forall a | a in seen :: !Shows(a, id)
      {
        var end := Stop(bytes, at, CHUNK);
        var agent := AgentOf(bytes[at..end]);
        if agent.Some? {
          if Shows(agent.value, id) {
            IsFirstNamed(seen, agent.value, AgentsFrom(bytes, end), id);
            return agent.value.name;
          }
          seen := seen + [agent.value];
        }
        at := end;
      }
      return None;
    }

    /** IPExist: the id of the first agent in use with exactly this address; "any" and networks are not looked up. */
    method IPExist(ip: string) returns (id: Option<string>)
      ensures Holder(Agents(bytes), ip, id)
    {
      if Unsearched(ip) {
        return None;
      }
      var at := 0;
      ghost var seen: seq<Agent> := [];
      while at < |bytes|
        invariant at <= |bytes|
        invariant Agents(bytes) == seen + AgentsFrom(bytes, at)
        invariant forall a | a in seen :: !UsesIp(a, ip)
      {
        var end := Stop(bytes, at, CHUNK);
        var agent := AgentOf(bytes[at..end]);
        if agent.Some? {
          if UsesIp(agent.value, ip) {
            IsFirstAt(seen, agent.value, AgentsFrom(bytes, end), ip);
            return Some(agent.value.id);
          }
          seen := seen + [agent.value];
        }
        at := end;
      }
      return None;
    }

    /** OS_RemoveAgent: the file is copied with the mark inserted, through a buffer of its size plus one. */
    method RemoveAgent(id: string) returns (removed: bool)
      modifies this
      ensures removed == HasId(old(bytes), id, true)
      ensures bytes == if removed then Tombstoned(old(bytes), id) else old(bytes)
      ensures removed ==> |bytes| == |old(bytes)| + 1
    {
      removed := IDExist(id, true);
      if !removed {
        return;
      }
      PositionFinds(bytes, 0, id, true);
      AgentHasSpace(bytes, fpPos);
      var end := Stop(bytes, fpPos, LONG_CHUNK);
      LongerChunk(bytes, fpPos);
      MarkInPlace(bytes, fpPos, end);
      var line := MarkLine(bytes[fpPos..end]);
      bytes := Assemble(bytes[..fpPos], line, bytes[end..], |bytes| + 1);
    }
  }
}
