/**
 * What appending a line and marking a line do to the agents of the key file. Both work on
 * characters; a search sees chunks of at most 255, so a line must have its fields within them.
 */
module KeyFileLines {
  import opened Options
  import opened CStrings
  import opened KeyFiles

  predicate NoSpace(file: string, lo: nat, hi: nat)
    requires hi <= |file|
  {
    forall i | lo <= i < hi :: file[i] != ' '
  }

  function LineEnd(file: string, at: nat): nat
    requires at <= |file|
  {
    FindFrom(file, '\n', at) + 1
  }

  predicate LiveAt(file: string, at: nat)
    requires at < |file|
  {
    AgentAt(file, at).Some? && AgentAt(file, at).value.Live?
  }

  /** The spaces of a line lie within a chunk, with room for a mark if the agent is in use. Shorter lines qualify. */
  predicate TidyLine(file: string, at: nat)
    requires at < |file|
  {
    && LineEnd(file, at) <= |file|
    && NoSpace(file, at + CHUNK - (if LiveAt(file, at) then 1 else 0), LineEnd(file, at))
  }

  predicate TidyFrom(file: string, at: nat)
    requires at <= |file|
    decreases |file| - at
  {
    at < |file| ==> TidyLine(file, at) && TidyFrom(file, LineEnd(file, at))
  }

  /** Every line ends in a newline and is tidy. */
  predicate Tidy(file: string) {
    TidyFrom(file, 0)
  }

  // ---- Only the text from a position on matters

  predicate SameFrom(f: string, p: nat, g: string, q: nat)
    requires p <= |f| && q <= |g|
  {
    |f| - p == |g| - q && forall i | p <= i < |f| :: f[i] == g[i - p + q]
  }

  lemma FindShift(f: string, p: nat, g: string, q: nat, c: char)
    requires p <= |f| && q <= |g| && SameFrom(f, p, g, q)
    ensures FindFrom(g, c, q) - q == FindFrom(f, c, p) - p
  {
    FindsFirst(f, c, p);
    var k := FindFrom(f, c, p);
    forall j | q <= j < k - p + q ensures g[j] != c {
      assert f[j - q + p] == g[j - q + p - p + q];
    }
    assert k < |f| ==> f[k] == g[k - p + q];
    FoundAt(g, c, q, k - p + q);
  }

  lemma AgentShift(f: string, p: nat, g: string, q: nat)
    requires p < |f| && q < |g| && SameFrom(f, p, g, q)
    ensures Stop(f, p, CHUNK) - p == Stop(g, q, CHUNK) - q
    ensures AgentAt(f, p) == AgentAt(g, q)
  {
    hide AgentOf;
    FindShift(f, p, g, q, '\n');
    var n := Stop(f, p, CHUNK) - p;
    assert f[p..p + n] == g[q..q + n];
  }

  lemma {:induction false} AgentsShift(f: string, p: nat, g: string, q: nat)
    requires p <= |f| && q <= |g| && SameFrom(f, p, g, q)
    ensures AgentsFrom(f, p) == AgentsFrom(g, q)
    decreases |f| - p
  {
    hide AgentOf;
    if p < |f| {
      AgentShift(f, p, g, q);
      AgentsShift(f, Stop(f, p, CHUNK), g, Stop(g, q, CHUNK));
    }
  }

  lemma {:induction false} TidyShift(f: string, p: nat, g: string, q: nat)
    requires p <= |f| && q <= |g| && SameFrom(f, p, g, q) && TidyFrom(f, p)
    ensures TidyFrom(g, q)
    decreases |f| - p
  {
    hide AgentOf;
    if p < |f| {
      AgentShift(f, p, g, q);
      FindShift(f, p, g, q, '\n');
      forall i | q + CHUNK - (if LiveAt(g, q) then 1 else 0) <= i < LineEnd(g, q) ensures g[i] != ' ' {
        assert f[i - q + p] == g[i - q + p - p + q];
      }
      TidyShift(f, LineEnd(f, p), g, LineEnd(g, q));
    }
  }

  // ---- Line by line

  /** The later chunks of a long line show no agent. */
  lemma {:induction false} TailIsSilent(file: string, at: nat, end: nat, id: string, discardRemoved: bool)
    requires at <= end <= |file| && NoSpace(file, at, end)
    requires at < end ==> LineEnd(file, at) == end
    ensures AgentsFrom(file, at) == AgentsFrom(file, end)
    ensures PositionFrom(file, at, id, discardRemoved) == PositionFrom(file, end, id, discardRemoved)
    decreases end - at
  {
    hide AgentOf;
    if at < end {
      var stop := Stop(file, at, CHUNK);
      SilentChunk(file, at, stop);
      if stop < end {
        FindsFirst(file, '\n', at);
        FoundAt(file, '\n', stop, end - 1);
      }
      TailIsSilent(file, stop, end, id, discardRemoved);
    }
  }

  lemma SilentChunk(file: string, at: nat, stop: nat)
    requires at < stop <= |file| && NoSpace(file, at, stop)
    ensures AgentOf(file[at..stop]).None?
  {
    FoundAt(file[at..stop], ' ', 0, stop - at);
  }

  /** A tidy line shows one agent or none, whatever its length. */
  lemma LineStep(file: string, at: nat, id: string, discardRemoved: bool)
    requires at < |file| && TidyLine(file, at)
    ensures var end := LineEnd(file, at);
            && AgentsFrom(file, at) == Prepend(AgentAt(file, at), AgentsFrom(file, end))
            && PositionFrom(file, at, id, discardRemoved) ==
               if Wanted(AgentAt(file, at), id, discardRemoved) then at else PositionFrom(file, end, id, discardRemoved)
  {
    hide AgentOf;
    var stop, end := Stop(file, at, CHUNK), LineEnd(file, at);
    if stop < end {
      FindsFirst(file, '\n', at);
      FoundAt(file, '\n', stop, end - 1);
    }
    TailIsSilent(file, stop, end, id, discardRemoved);
  }

  /** A line that stands the same in two texts shows the same agent in both. */
  lemma SameLine(f: string, g: string, at: nat)
    requires at < |f| && LineEnd(f, at) <= |f| && LineEnd(f, at) <= |g| && f[..LineEnd(f, at)] == g[..LineEnd(f, at)]
    ensures LineEnd(g, at) == LineEnd(f, at)
    ensures AgentAt(f, at) == AgentAt(g, at)
    ensures TidyLine(f, at) == TidyLine(g, at)
  {
    hide AgentOf;
    var end := LineEnd(f, at);
    FindsFirst(f, '\n', at);
    forall j | at <= j < end ensures f[j] == g[j] {
      assert f[..end][j] == g[..end][j];
    }
    FoundAt(g, '\n', at, end - 1);
    var stop := Stop(f, at, CHUNK);
    assert f[at..stop] == g[at..stop];
  }

  // ---- Appending

  /** Appending a text to tidy lines appends its agents. */
  lemma {:induction false} AppendAgents(file: string, line: string, at: nat)
    requires at <= |file| && TidyFrom(file, at)
    ensures AgentsFrom(file + line, at) == AgentsFrom(file, at) + Agents(line)
    ensures Tidy(line) ==> TidyFrom(file + line, at)
    decreases |file| - at
  {
    hide AgentOf;
    if at == |file| {
      AgentsShift(line, 0, file + line, at);
      if Tidy(line) {
        TidyShift(line, 0, file + line, at);
      }
    } else {
      var end := LineEnd(file, at);
      assert file[..end] == (file + line)[..end];
      SameLine(file, file + line, at);
      LineStep(file, at, "", false);
      LineStep(file + line, at, "", false);
      AppendAgents(file, line, end);
    }
  }

  // ---- Marking

  /** The agents with the first one in use under an id marked as removed. */
  function Retired(agents: seq<Agent>, id: string): seq<Agent> {
    if agents == [] then []
    else if Wanted(Some(agents[0]), id, true) then [Removed(id)] + agents[1..]
    else [agents[0]] + Retired(agents[1..], id)
  }

  lemma RetiredPrepend(a: Option<Agent>, rest: seq<Agent>, id: string)
    ensures Retired(Prepend(a, rest), id) ==
      if Wanted(a, id, true) then Prepend(Some(Removed(id)), rest) else Prepend(a, Retired(rest, id))
  {
    if a.Some? {
      assert ([a.value] + rest)[1..] == rest;
    }
  }

  /** The marked line shows a removed agent with the same id. */
  lemma MarkedLine(file: string, at: nat)
    requires at < |file| && TidyLine(file, at) && LiveAt(file, at)
    ensures var g := MarkAt(file, at);
            && |g| == |file| + 1
            && LineEnd(g, at) == LineEnd(file, at) + 1
            && AgentAt(g, at) == Some(Removed(AgentAt(file, at).value.id))
            && TidyLine(g, at)
            && FindFrom(file, ' ', at) < LineEnd(file, at)
  {
    hide AgentOf, FindFrom;
    var g, end, sp := MarkAt(file, at), LineEnd(file, at), FindFrom(file, ' ', at);
    AgentHasSpace(file, at);
    FindsFirst(file, '\n', at);
    FindsFirst(file, ' ', at);
    assert g[..sp + 1] == file[..sp + 1] && g[sp + 1] == '!';
    forall j | sp + 2 <= j < |g| ensures g[j] == file[j - 1] {}
    forall j | at <= j < end ensures g[j] != '\n' {
      assert j <= sp ==> g[j] == file[j];
    }
    FoundAt(g, '\n', at, end);
    var stop := Stop(g, at, CHUNK);
    MarkedChunk(file, g, at, sp, stop);
  }

  lemma MarkedIsRemoved(chunk: string, n: nat)
    requires n + 1 < |chunk| && Find(chunk, ' ') == n && chunk[n + 1] == '!' && chunk[0] != '#'
    ensures AgentOf(chunk) == Some(Removed(chunk[..n]))
  {
    assert AfterSpace(chunk)[0] == '!';
  }

  lemma MarkedChunk(file: string, g: string, at: nat, sp: nat, stop: nat)
    requires at <= sp && sp + 1 < stop <= |g| && sp < |file|
    requires g[..sp + 1] == file[..sp + 1] && g[sp + 1] == '!' && FindFrom(file, ' ', at) == sp && file[at] != '#'
    ensures AgentOf(g[at..stop]) == Some(Removed(file[at..sp]))
  {
    hide AgentOf;
    var chunk := g[at..stop];
    FindsFirst(file, ' ', at);
    forall j | 0 <= j < sp + 1 - at ensures chunk[j] == file[at + j] {
      assert g[..sp + 1][at + j] == file[..sp + 1][at + j];
    }
    FoundAt(chunk, ' ', 0, sp - at);
    assert chunk[..sp - at] == file[at..sp];
    MarkedIsRemoved(chunk, sp - at);
  }

  /** What follows the mark moves by one. */
  lemma MarkedRest(file: string, at: nat, end: nat)
    requires at <= |file| && FindFrom(file, ' ', at) < end <= |file|
    ensures var g := MarkAt(file, at);
            && |g| == |file| + 1
            && AgentsFrom(g, end + 1) == AgentsFrom(file, end)
            && (TidyFrom(file, end) ==> TidyFrom(g, end + 1))
  {
    hide FindFrom, AgentsFrom, TidyFrom;
    var g := MarkAt(file, at);
    AgentsShift(file, end, g, end + 1);
    if TidyFrom(file, end) {
      TidyShift(file, end, g, end + 1);
    }
  }

  lemma TidyHead(file: string, at: nat)
    requires at < |file| && TidyFrom(file, at)
    ensures TidyLine(file, at) && LineEnd(file, at) <= |file| && TidyFrom(file, LineEnd(file, at))
  {
  }

  lemma TidyOn(file: string, at: nat)
    requires at < |file| && TidyLine(file, at) && TidyFrom(file, LineEnd(file, at))
    ensures TidyFrom(file, at)
  {
  }

  lemma WantedIsLive(file: string, at: nat, id: string)
    requires at < |file| && Wanted(AgentAt(file, at), id, true)
    ensures LiveAt(file, at) && AgentAt(file, at).value.id == id
  {
  }

  lemma MarkHere(file: string, at: nat, id: string)
    requires at < |file| && TidyFrom(file, at) && Wanted(AgentAt(file, at), id, true)
    ensures var g := MarkAt(file, at);
            && |g| == |file| + 1
            && AgentsFrom(g, at) == Retired(AgentsFrom(file, at), id)
            && TidyFrom(g, at)
  {
    hide *;
    var g, end := MarkAt(file, at), LineEnd(file, at);
    TidyHead(file, at);
    WantedIsLive(file, at, id);
    MarkedLine(file, at);
    MarkedRest(file, at, end);
    MarkedAgents(file, g, at, end, id);
    TidyOn(g, at);
  }

  lemma MarkedAgents(file: string, g: string, at: nat, end: nat, id: string)
    requires at < |file| && TidyLine(file, at) && end == LineEnd(file, at) && Wanted(AgentAt(file, at), id, true)
    requires at < |g| && TidyLine(g, at) && LineEnd(g, at) == end + 1 && AgentAt(g, at) == Some(Removed(id))
    requires AgentsFrom(g, end + 1) == AgentsFrom(file, end)
    ensures AgentsFrom(g, at) == Retired(AgentsFrom(file, at), id)
  {
    assert end <= |file| && end + 1 <= |g|;
    hide AgentOf, AgentAt, TidyLine, LineEnd, FindFrom, SameFrom, AgentsFrom, PositionFrom, Prepend, Wanted, Retired;
    LineStep(file, at, id, true);
    LineStep(g, at, id, true);
    RetiredPrepend(AgentAt(file, at), AgentsFrom(file, end), id);
  }

  /** A line before the marked one stays as it is. */
  lemma MarkBefore(file: string, at: nat, k: nat)
    requires at < |file| && TidyLine(file, at) && LineEnd(file, at) <= k < |file| && AgentAt(file, k).Some?
    ensures var g := MarkAt(file, k);
            && |g| == |file| + 1
            && LineEnd(g, at) == LineEnd(file, at) && AgentAt(g, at) == AgentAt(file, at) && TidyLine(g, at)
  {
    hide AgentOf;
    var g, end := MarkAt(file, k), LineEnd(file, at);
    AgentHasSpace(file, k);
    assert g[..end] == file[..end];
    SameLine(file, g, at);
  }

  /** Marking the line found retires exactly the first agent in use under the id. */
  lemma {:induction false} MarkAgents(file: string, at: nat, id: string)
    requires at <= |file| && TidyFrom(file, at)
    requires PositionFrom(file, at, id, true) < |file|
    ensures var k := PositionFrom(file, at, id, true);
            var g := MarkAt(file, k);
            && |g| == |file| + 1
            && AgentsFrom(g, at) == Retired(AgentsFrom(file, at), id)
            && TidyFrom(g, at)
    decreases |file| - at
  {
    hide AgentOf;
    var k, end := PositionFrom(file, at, id, true), LineEnd(file, at);
    LineStep(file, at, id, true);
    PositionFinds(file, at, id, true);
    if k == at {
      MarkHere(file, at, id);
    } else {
      var g := MarkAt(file, k);
      MarkAgents(file, end, id);
      MarkBefore(file, at, k);
      LineStep(g, at, id, true);
      RetiredPrepend(AgentAt(file, at), AgentsFrom(file, end), id);
    }
  }
}
