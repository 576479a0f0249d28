/**
 * The logtest session table as one thread sees it while it holds the table lock:
 * registration with eviction of the session idle for longest, removal, and the sweep
 * that drops inactive sessions.
 */
module LogtestSessions {
  import opened Options

  type Token = nat

  /** x is idle for at least as long as every session of the table. */
  ghost predicate IsOldest(table: map<Token, int>, x: Token) {
    x in table && forall y | y in table :: table[x] <= table[y]
  }

  function Without(table: map<Token, int>, x: Token): map<Token, int> {
    map y | y in table && y != x :: table[y]
  }

  lemma WithoutSize(table: map<Token, int>, x: Token)
    requires x in table
    ensures |Without(table, x)| == |table| - 1
  {
    assert Without(table, x).Keys == table.Keys - {x};
  }

  lemma WithSize(table: map<Token, int>, x: Token, at: int)
    ensures |table[x := at]| == if x in table then |table| else |table| + 1
  {
    assert table[x := at].Keys == table.Keys + {x};
    if x in table {
      assert table.Keys + {x} == table.Keys;
    }
  }

  ghost predicate Distinct(s: seq<Token>) {
    forall i, j | 0 <= i < j < |s| :: s[i] != s[j]
  }

  /** Insertion into a hash row: the place among the nodes depends on the key only. */
  function Insert(s: seq<Token>, at: nat, x: Token): seq<Token>
    requires at <= |s|
  {
    s[..at] + [x] + s[at..]
  }

  function IndexOf(s: seq<Token>, x: Token): (k: nat)
    requires x in s
    ensures k < |s| && s[k] == x && x !in s[..k]
  {
    if s[0] == x then 0 else
      assert s[..IndexOf(s[1..], x) + 1] == [s[0]] + s[1..][..IndexOf(s[1..], x)];
      IndexOf(s[1..], x) + 1
  }

  function Delete(s: seq<Token>, at: nat): seq<Token>
    requires at < |s|
  {
    s[..at] + s[at + 1..]
  }

  lemma InsertKeeps(s: seq<Token>, at: nat, x: Token)
    requires at <= |s| && Distinct(s) && x !in s
    ensures Distinct(Insert(s, at, x))
    ensures forall y :: y in Insert(s, at, x) <==> y in s || y == x
  {
    assert s == s[..at] + s[at..];
    forall y ensures y in Insert(s, at, x) <==> y in s || y == x {}
  }

  lemma DeleteKeeps(s: seq<Token>, at: nat)
    requires at < |s| && Distinct(s)
    ensures Distinct(Delete(s, at))
    ensures forall y :: y in Delete(s, at) <==> y in s && y != s[at]
  {
    assert s == s[..at] + [s[at]] + s[at + 1..];
    forall y | y in s[..at] || y in s[at + 1..] ensures y != s[at] {}
  }

  /** What a sweep that has visited the first n nodes leaves: sessions in use, or not expired when visited. */
  function Survivors(table: map<Token, int>, walk: seq<Token>, clock: seq<int>, timeout: int, busy: set<Token>,
                     n: nat): map<Token, int>
    requires n <= |walk| == |clock|
  {
    map x | x in table
            && (x !in busy ==> forall k | 0 <= k < n && walk[k] == x :: clock[k] - table[x] < timeout) ::
      table[x]
  }

  lemma SurvivorsStep(table: map<Token, int>, walk: seq<Token>, clock: seq<int>, timeout: int, busy: set<Token>, i: nat)
    requires i < |walk| == |clock| && Distinct(walk) && walk[i] in table
    ensures var left := Survivors(table, walk, clock, timeout, busy, i);
            && walk[i] in left && left[walk[i]] == table[walk[i]]
            && Survivors(table, walk, clock, timeout, busy, i + 1) ==
               if clock[i] - table[walk[i]] >= timeout && walk[i] !in busy then Without(left, walk[i]) else left
  {
  }

  /** After a whole sweep a session is left exactly if it was in use, or not expired at the one visit paid to it. */
  lemma SurvivorsAt(table: map<Token, int>, walk: seq<Token>, clock: seq<int>, timeout: int, busy: set<Token>)
    requires |walk| == |clock| && Distinct(walk) && forall x :: x in walk <==> x in table
    ensures var left := Survivors(table, walk, clock, timeout, busy, |walk|);
            && (forall i | 0 <= i < |walk| ::
                  walk[i] in left <==> walk[i] in busy || clock[i] - table[walk[i]] < timeout)
            && forall x | x in left :: x in table && left[x] == table[x]
  {
  }

  function Room(maxSessions: nat): nat {
    if maxSessions == 0 then 1 else maxSessions
  }

  /** The table after token is registered at time now. */
  ghost predicate Registered(maxSessions: nat, before: map<Token, int>, token: Token, now: int,
                             after: map<Token, int>) {
    if before == map[] || |before| < maxSessions then after == before[token := now]
    else exists victim :: IsOldest(before, victim) && after == Without(before, victim)[token := now]
  }

  lemma FirstLeast(walk: seq<Token>, last: map<Token, int>, first: nat)
    requires first < |walk| && Distinct(walk) && forall x :: x in walk <==> x in last
    requires forall j | 0 <= j < |walk| :: last[walk[j]] >= last[walk[first]]
    ensures IndexOf(walk, walk[first]) == first && IsOldest(last, walk[first])
  {
    forall y | y in last ensures last[walk[first]] <= last[y] {
      assert y == walk[IndexOf(walk, y)];
    }
  }

  class SessionTable {
    const maxSessions: nat
    var nodes: seq<Token>           // in the order the hash is walked
    var table: map<Token, int>      // last_connection of each session
    var activeClient: int

    ghost predicate Valid()
      reads this
    {
      Linked() && activeClient == |table|
    }

    ghost predicate Linked()
      reads this
    {
      Distinct(nodes) && forall x :: x in nodes <==> x in table
    }

    constructor (max: nat)
      ensures Valid() && table == map[] && maxSessions == max
    {
      maxSessions, nodes, table, activeClient := max, [], map[], 0;
    }

    /** w_logtest_remove_session, for a token that may be absent. */
    method RemoveSession(token: Token) returns (removed: bool)
      requires Linked()
      modifies this`nodes, this`table
      ensures Linked()
      ensures removed == (token in old(table))
      ensures table == Without(old(table), token)
      ensures nodes == if removed then Delete(old(nodes), IndexOf(old(nodes), token)) else old(nodes)
    {
      removed := token in table;
      if !removed {
        assert Without(table, token) == table;
        return;
      }
      DeleteKeeps(nodes, IndexOf(nodes, token));
      nodes := Delete(nodes, IndexOf(nodes, token));
      table := Without(table, token);
    }

    /** w_logtest_remove_old_session: of the sessions idle for longest, the first in walking order goes. */
    method RemoveOldSession() returns (victim: Option<Token>)
      requires Linked()
      modifies this`nodes, this`table, this`activeClient
      ensures Linked()
      ensures victim.None? <==> old(table) == map[]
      ensures victim.None? ==> nodes == old(nodes) && table == old(table) && activeClient == old(activeClient)
      ensures victim.Some? ==>
        && IsOldest(old(table), victim.value)
        && table == Without(old(table), victim.value)
        && nodes == Delete(old(nodes), IndexOf(old(nodes), victim.value))
        && (forall j | 0 <= j < IndexOf(old(nodes), victim.value) ::
            old(table)[old(nodes)[j]] > old(table)[victim.value])
        && activeClient == old(activeClient) - 1
    {
      if nodes == [] {
        assert table.Keys == {};
        return None;
      }
      var walk, last := nodes, table;
      var first := 0;
      for i := 1 to |walk|
        invariant 0 <= first < i
        invariant forall j | 0 <= j < first :: last[walk[j]] > last[walk[first]]
        invariant forall j | 0 <= j < i :: last[walk[j]] >= last[walk[first]]
      {
        if last[walk[first]] > last[walk[i]] {
          first := i;
        }
      }
      var v := walk[first];
      FirstLeast(walk, last, first);
      var _ := RemoveSession(v);
      activeClient := activeClient - 1;
      victim := Some(v);
    }

    /**
     * w_logtest_register_session: the new client is counted before room is made for it.
     * slot is the place the hash gives the new node among those that remain.
     */
    method RegisterSession(token: Token, now: int, slot: nat)
      requires Valid() && token !in table
      requires slot <= |nodes| - if nodes != [] && |table| >= maxSessions then 1 else 0
      modifies this`nodes, this`table, this`activeClient
      ensures Valid()
      ensures Registered(maxSessions, old(table), token, now, table)
    {
      activeClient := activeClient + 1;
      if activeClient > maxSessions {
        var victim := RemoveOldSession();
        if victim.Some? {
          WithoutSize(old(table), victim.value);
        }
      }
      InsertKeeps(nodes, slot, token);
      WithSize(table, token, now);
      nodes := Insert(nodes, slot, token);
      table := table[token := now];
    }

    method Expire(token: Token)
      requires Valid() && token in table
      modifies this`nodes, this`table, this`activeClient
      ensures Valid() && table == Without(old(table), token)
    {
      WithoutSize(table, token);
      var _ := RemoveSession(token);
      activeClient := activeClient - 1;
    }

    /**
     * One pass of w_logtest_check_inactive_sessions. clock[i] is the time read at the i-th node;
     * busy are the sessions whose mutex another thread holds when it is tried.
     */
    method CheckInactiveSessions(clock: seq<int>, timeout: int, busy: set<Token>)
      requires Valid() && |clock| == |nodes|
      modifies this`nodes, this`table, this`activeClient
      ensures Valid()
      ensures table == Survivors(old(table), old(nodes), clock, timeout, busy, |old(nodes)|)
    {
      ghost var before := table;
      var walk := nodes;              // the next node is fetched before this one may be deleted
      assert table == Survivors(before, walk, clock, timeout, busy, 0);
      hide Survivors, Delete, IndexOf;
      for i := 0 to |walk|
        invariant Valid()
        invariant table == Survivors(before, walk, clock, timeout, busy, i)
      {
        var token := walk[i];
        SurvivorsStep(before, walk, clock, timeout, busy, i);
        if clock[i] - table[token] >= timeout && token !in busy {
          Expire(token);
        }
      }
    }
  }
}
