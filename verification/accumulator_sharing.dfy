/**
 * Which events share a record of the accumulator: those of one host, one decoder and one id,
 * as long as host and decoder names hold no space.
 */
module AccumulatorSharing {
  import opened Options
  import opened Accumulators
  import opened AccumulatorRuns

  predicate Spaceless(s: string) {
    forall k | 0 <= k < |s| :: s[k] != ' '
  }

  /** The part of a key before the id. */
  function Head(hostname: string, decoder: string): string {
    hostname + " " + decoder + " "
  }

  /** Names without spaces can be told apart where they stand before a space. */
  lemma NameBeforeSpace(a: string, b: string, x: string, y: string)
    requires Spaceless(a) && Spaceless(b) && a + " " + x == b + " " + y
    ensures a == b && x == y
  {
    var s := a + " " + x;
    assert s[|a|] == ' ' && s[|b|] == ' ';
    assert a == s[..|a|] == b && x == s[|a| + 1..] == y;
  }

  /** Whatever the ids are, keys are equal exactly if host, decoder and id are. */
  lemma SameKeyExactly(h: string, d: string, i: string, h': string, d': string, i': string)
    requires Spaceless(h) && Spaceless(d) && Spaceless(h') && Spaceless(d')
    ensures Key(h, d, i) == Key(h', d', i') <==> h == h' && d == d' && i == i'
  {
    assert Key(h, d, i) == h + " " + (d + " " + i) && Key(h', d', i') == h' + " " + (d' + " " + i');
    if Key(h, d, i) == Key(h', d', i') {
      NameBeforeSpace(h, h', d + " " + i, d' + " " + i');
      NameBeforeSpace(d, d', i, i');
    }
  }

  /**
   * With spaces in the names: some ids give the same key exactly if what stands before the one id begins what stands
   * before the other.
   */
  lemma KeysMeetExactly(h: string, d: string, h': string, d': string)
    ensures (exists i, i' :: Key(h, d, i) == Key(h', d', i')) <==>
      Head(h, d) <= Head(h', d') || Head(h', d') <= Head(h, d)
  {
    var a, b := Head(h, d), Head(h', d');
    assert forall i :: Key(h, d, i) == a + i;
    assert forall i :: Key(h', d', i) == b + i;
    if i, i' :| Key(h, d, i) == Key(h', d', i') {
      assert (a + i)[..|a|] == a && (b + i')[..|b|] == b;
    }
    if a <= b {
      assert Key(h, d, b[|a|..]) == Key(h', d', "");
    }
    if b <= a {
      assert Key(h, d, "") == Key(h', d', a[|b|..]);
    }
  }

  /** Two hosts and decoders whose events share a record. */
  lemma SpacesMix(id: string)
    ensures Key("mail", "relay postfix", id) == Key("mail relay", "postfix", id)
  {
  }

  // ---- Runs

  datatype Arrival = Arrival(from: Origin, own: Fields, now: int)

  function CallsOf(arrivals: seq<Arrival>): (calls: seq<Call>)
    ensures |calls| == |arrivals|
    ensures forall j | 0 <= j < |calls| :: calls[j] == Call(KeyOf(arrivals[j].from), arrivals[j].own, arrivals[j].now)
  {
    seq(|arrivals|, j requires 0 <= j < |arrivals| =>
      Call(KeyOf(arrivals[j].from), arrivals[j].own, arrivals[j].now))
  }

  predicate SpacelessNames(o: Origin) {
    Spaceless(o.hostname) && (o.decoder.Some? && o.decoder.value.Some? ==> Spaceless(o.decoder.value.value))
  }

  lemma SameOrigin(a: Origin, b: Origin)
    requires SpacelessNames(a) && SpacelessNames(b) && KeyOf(a).Some? && KeyOf(a) == KeyOf(b)
    ensures a == b
  {
    SameKeyExactly(a.hostname, a.decoder.value.value, a.id.value, b.hostname, b.decoder.value.value, b.id.value);
  }

  /** The calls of a key are the same at the same places. */
  ghost predicate SameFor(calls: seq<Call>, others: seq<Call>, key: string) {
    |calls| == |others|
    && forall j | 0 <= j < |calls| && (Of(calls, j, key) || Of(others, j, key)) :: calls[j] == others[j]
  }

  function Record(store: Store, key: string): Option<Entry> {
    if key in store then Some(store[key]) else None
  }

  lemma {:induction false} RecordIsOwn(calls: seq<Call>, others: seq<Call>, purges: Schedule, key: string, n: nat)
    requires |purges| == |calls| && SameFor(calls, others, key) && n <= |calls|
    ensures Record(After(calls, purges, n), key) == Record(After(others, purges, n), key)
  {
    if n > 0 {
      RecordIsOwn(calls, others, purges, key, n - 1);
      StepRecord(After(calls, purges, n - 1), After(others, purges, n - 1), calls[n - 1], others[n - 1],
                 purges[n - 1], key);
    }
  }

  lemma StepRecord(a: Store, b: Store, call: Call, other: Call, purge: Option<int>, key: string)
    requires Record(a, key) == Record(b, key)
    requires call.key == Some(key) || other.key == Some(key) ==> call == other
    ensures Record(StepStore(a, call, purge), key) == Record(StepStore(b, other, purge), key)
  {
    assert Record(AfterPurge(a, purge), key) == Record(AfterPurge(b, purge), key);
  }

  /**
   * What Accumulate makes of an event does not depend on events of another host, decoder or id: replacing them by any
   * others of that kind changes nothing, whatever the clock reads.
   */
  lemma OthersDoNotMatter(arrivals: seq<Arrival>, others: seq<Arrival>, purges: Schedule, i: nat)
    requires |purges| == |arrivals| == |others| && i < |arrivals| && arrivals[i] == others[i]
    requires forall j | 0 <= j < |arrivals| :: SpacelessNames(arrivals[j].from) && SpacelessNames(others[j].from)
    requires forall j | 0 <= j < |arrivals| && arrivals[i].from in {arrivals[j].from, others[j].from} ::
      arrivals[j] == others[j]
    ensures OutputOf(CallsOf(arrivals), purges, i) == OutputOf(CallsOf(others), purges, i)
  {
    var calls, more, own := CallsOf(arrivals), CallsOf(others), arrivals[i].from;
    if KeyOf(own).Some? {
      var key := KeyOf(own).value;
      forall j | 0 <= j < |calls| && (Of(calls, j, key) || Of(more, j, key)) ensures calls[j] == more[j] {
        if Of(calls, j, key) {
          SameOrigin(own, arrivals[j].from);
        } else {
          SameOrigin(own, others[j].from);
        }
      }
      RecordIsOwn(calls, more, purges, key, i);
      assert Record(AfterPurge(After(calls, purges, i), purges[i]), key)
          == Record(AfterPurge(After(more, purges, i), purges[i]), key);
    }
  }

  /** Some event of the key among the first n brought this value for a field. */
  ghost predicate Brought(calls: seq<Call>, n: nat, key: string, name: Name, v: Option<string>)
    requires n <= |calls|
  {
    exists j: nat :: j < n && Of(calls, j, key) && Get(calls[j].own, name) == v && Useful(v)
  }

  lemma {:induction false} RecordIsBrought(calls: seq<Call>, purges: Schedule, n: nat, key: string, name: Name)
    requires |purges| == |calls| && n <= |calls| && key in After(calls, purges, n)
    requires Get(After(calls, purges, n)[key].fields, name).Some?
    ensures Brought(calls, n, key, name, Get(After(calls, purges, n)[key].fields, name))
  {
    var store, call := After(calls, purges, n - 1), calls[n - 1];
    var v := Get(After(calls, purges, n)[key].fields, name);
    if key in store && Get(store[key].fields, name) == v {
      RecordIsBrought(calls, purges, n - 1, key, name);
      var j: nat :| j < n - 1 && Of(calls, j, key) && Get(calls[j].own, name) == v && Useful(v);
    } else {
      assert call.key == Some(key);
      assert Get(call.own, name) == v && Useful(v);
      assert Of(calls, n - 1, key);
    }
  }

  /** A field of an output is the event's own, or one that an earlier event of the same host, decoder and id brought. */
  lemma FieldsStayTogether(arrivals: seq<Arrival>, purges: Schedule, i: nat, name: Name)
    requires |purges| == |arrivals| && i < |arrivals|
    requires forall j | 0 <= j <= i :: SpacelessNames(arrivals[j].from)
    ensures var v := Get(OutputOf(CallsOf(arrivals), purges, i), name); var own := Get(arrivals[i].own, name);
            v == own
            || (!NonEmpty(own) && Useful(v) && exists j | 0 <= j < i ::
                  arrivals[j].from == arrivals[i].from && Get(arrivals[j].own, name) == v)
  {
    var calls := CallsOf(arrivals);
    var v, own := Get(OutputOf(calls, purges, i), name), Get(arrivals[i].own, name);
    if v != own {
      var key := KeyOf(arrivals[i].from).value;
      var store := After(calls, purges, i);
      assert key in store && Get(store[key].fields, name) == v && v.Some?;
      RecordIsBrought(calls, purges, i, key, name);
      var j: nat :| j < i && Of(calls, j, key) && Get(calls[j].own, name) == v && Useful(v);
      SameOrigin(arrivals[i].from, arrivals[j].from);
    }
  }

  // ---- What a purge leaves

  /** After a call that purges, every record is of an event less than the expiry time ago. */
  lemma PurgedIsRecent(calls: seq<Call>, purges: Schedule, n: nat, key: string)
    requires 0 < n <= |calls| == |purges| && purges[n - 1].Some? && key in After(calls, purges, n)
    ensures exists j: nat :: j < n && Of(calls, j, key) && (j == n - 1 || purges[n - 1].value - 120 <= calls[j].now)
  {
    if !Of(calls, n - 1, key) {
      RecordIsStamped(calls, purges, n - 1, key);
    }
  }

  lemma {:induction false} RecordIsStamped(calls: seq<Call>, purges: Schedule, n: nat, key: string)
    requires |calls| == |purges| && n <= |calls| && key in After(calls, purges, n)
    ensures exists j: nat :: j < n && Of(calls, j, key) && After(calls, purges, n)[key].timestamp == calls[j].now
  {
    if !Of(calls, n - 1, key) {
      RecordIsStamped(calls, purges, n - 1, key);
    }
  }
}
