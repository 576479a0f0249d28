/**
 * The accumulator: a cache, keyed by host, decoder and event id, of field values seen in
 * earlier events. It completes the fields an event lacks and forgets entries after a pause.
 */
module Accumulators {
  import opened Options

  const EXPIRE_ELM: int := 120
  const PURGE_INTERVAL: int := 300
  const PURGE_COUNT: nat := 200
  const MAXKEY: nat := 256
  const MAXELM: nat := 81

  datatype Name = DstUser | SrcUser | DstIp | SrcIp | DstPort | SrcPort | Data

  datatype Fields = Fields(
    dstuser: Option<string>,
    srcuser: Option<string>,
    dstip: Option<string>,
    srcip: Option<string>,
    dstport: Option<string>,
    srcport: Option<string>,
    data: Option<string>)

  datatype Entry = Entry(timestamp: int, fields: Fields)

  const NO_FIELDS := Fields(None, None, None, None, None, None, None)

  function Get(f: Fields, n: Name): Option<string> {
    match n
    case DstUser => f.dstuser
    case SrcUser => f.srcuser
    case DstIp => f.dstip
    case SrcIp => f.srcip
    case DstPort => f.dstport
    case SrcPort => f.srcport
    case Data => f.data
  }

  predicate NonEmpty(s: Option<string>) {
    s.Some? && s.value != ""
  }

  /** A value worth remembering. */
  predicate Useful(s: Option<string>) {
    NonEmpty(s) && |s.value| < MAXELM
  }

  /** The destination after acm_str_replace: known values stay, the rest is filled from a useful source. */
  function Filled(dst: Option<string>, src: Option<string>): Option<string> {
    if NonEmpty(dst) || !Useful(src) then dst else src
  }

  /** into has the values of a, completed field by field from b. */
  ghost predicate Completed(into: Fields, a: Fields, b: Fields) {
    forall n :: Get(into, n) == Filled(Get(a, n), Get(b, n))
  }

  function Completion(a: Fields, b: Fields): (into: Fields)
    ensures Completed(into, a, b)
  {
    Fields(
      Filled(a.dstuser, b.dstuser), Filled(a.srcuser, b.srcuser), Filled(a.dstip, b.dstip), Filled(a.srcip, b.srcip),
      Filled(a.dstport, b.dstport), Filled(a.srcport, b.srcport), Filled(a.data, b.data))
  }

  lemma SameFields(a: Fields, b: Fields)
    requires forall n :: Get(a, n) == Get(b, n)
    ensures a == b
  {
    assert Get(a, DstUser) == Get(b, DstUser) && Get(a, SrcUser) == Get(b, SrcUser) && Get(a, DstIp) == Get(b, DstIp);
    assert Get(a, SrcIp) == Get(b, SrcIp) && Get(a, DstPort) == Get(b, DstPort) && Get(a, SrcPort) == Get(b, SrcPort);
    assert Get(a, Data) == Get(b, Data);
  }

  predicate Expired(e: Entry, now: int) {
    e.timestamp < now - EXPIRE_ELM
  }

  function Purged(store: Store, now: int): Store {
    map k | k in store && !Expired(store[k], now) :: store[k]
  }

  function Key(hostname: string, decoder: string, id: string): string {
    hostname + " " + decoder + " " + id
  }

  /** The time of the purge that a call makes on its way, if it makes one. */
  function PurgeTime(lookups: nat, purgeTs: int, now: int): Option<int> {
    if lookups + 1 < PURGE_COUNT && purgeTs < now + PURGE_INTERVAL then None else Some(now)
  }

  /** The two counters that decide about purges. */
  datatype Book = Book(lookups: nat, purgeTs: int)

  /** The counters after a call of CleanUp that reads the time now. */
  function Booked(b: Book, now: int): Book {
    if PurgeTime(b.lookups, b.purgeTs, now).None? then Book(b.lookups + 1, b.purgeTs) else Book(0, now)
  }

  function AfterPurge(store: Store, purge: Option<int>): Store {
    match purge
    case None => store
    case Some(at) => Purged(store, at)
  }

  /** What the cache remembers for a key at a time; an entry counts as expired only from a positive stamp. */
  function Remembered(store: Store, key: string, now: int): Fields {
    if key in store && !(store[key].timestamp > 0 && Expired(store[key], now)) then store[key].fields else NO_FIELDS
  }

  /** An event and its record exchange what the other lacks, the event first. */
  function Output(store: Store, key: string, own: Fields, now: int): Fields {
    Completion(own, Remembered(store, key, now))
  }

  function Stored(store: Store, key: string, own: Fields, now: int): Store {
    var remembered := Remembered(store, key, now);
    store[key := Entry(now, Completion(remembered, Output(store, key, own, now)))]
  }

  type Store = map<string, Entry>

  /** A call of Accumulate; key is None when the event is not identified or its key is too long. */
  datatype Call = Call(key: Option<string>, own: Fields, now: int)

  function StepStore(store: Store, call: Call, purge: Option<int>): Store {
    var purged := AfterPurge(store, purge);
    if call.key.None? then purged else Stored(purged, call.key.value, call.own, call.now)
  }

  function StepOutput(store: Store, call: Call, purge: Option<int>): Fields {
    if call.key.None? then call.own else Output(AfterPurge(store, purge), call.key.value, call.own, call.now)
  }

  /** What an event's record is found by; decoder is the decoder, and its name. */
  datatype Origin = Origin(hostname: string, decoder: Option<Option<string>>, id: Option<string>)

  predicate Identified(o: Origin) {
    o.id.Some? && o.decoder.Some? && o.decoder.value.Some?
  }

  /** The key of an event, unless it is not identified or the key does not fit. */
  function KeyOf(o: Origin): Option<string> {
    if !Identified(o) then None
    else
      var key := Key(o.hostname, o.decoder.value.value, o.id.value);
      if |key| < MAXKEY then Some(key) else None
  }

  class AcmEvent {
    const hostname: string
    const id: Option<string>
    const decoder: Option<Option<string>>      // the decoder, and its name
    var fields: Fields

    constructor (hostname: string, id: Option<string>, decoder: Option<Option<string>>, fields: Fields)
      ensures this.hostname == hostname && this.id == id && this.decoder == decoder && this.fields == fields
    {
      this.hostname, this.id, this.decoder, this.fields := hostname, id, decoder, fields;
    }

    function From(): Origin {
      Origin(hostname, decoder, id)
    }

    function AsCall(own: Fields, now: int): Call {
      Call(KeyOf(From()), own, now)
    }
  }

  /** acm_str_replace: a value is kept unless it is empty, and only a value of 1 to 80 characters takes its place. */
  method StrReplace(dst: Option<string>, src: Option<string>) returns (r: Option<string>)
    ensures NonEmpty(dst) ==> r == dst
    ensures r != dst ==> r == src && Useful(src)
    ensures Useful(src) && !NonEmpty(dst) ==> r == src
    ensures r == Filled(dst, src)
  {
    if src.None? {
      return dst;
    }
    if dst.Some? && dst.value != "" {
      return dst;
    }
    var slen := |src.value|;
    if slen <= 0 || slen > MAXELM - 1 {
      return dst;
    }
    r := src;
  }

  /** The seven calls of acm_str_replace, in the order of the source. */
  method Fill(dst: Fields, src: Fields) returns (r: Fields)
    ensures Completed(r, dst, src)
  {
    hide NonEmpty, Useful, Filled;
    r := dst;
    var v := StrReplace(r.dstuser, src.dstuser);
    r := r.(dstuser := v);
    v := StrReplace(r.srcuser, src.srcuser);
    r := r.(srcuser := v);
    v := StrReplace(r.dstip, src.dstip);
    r := r.(dstip := v);
    v := StrReplace(r.srcip, src.srcip);
    r := r.(srcip := v);
    v := StrReplace(r.dstport, src.dstport);
    r := r.(dstport := v);
    v := StrReplace(r.srcport, src.srcport);
    r := r.(srcport := v);
    v := StrReplace(r.data, src.data);
    r := r.(data := v);
  }

  class Accumulator {
    var store: Store
    var lookups: nat
    var purgeTs: int

    constructor (now: int)
      ensures store == map[] && lookups == 0 && purgeTs == now
    {
      store, lookups, purgeTs := map[], 0, now;
    }

    /** The bookkeeping of one call of CleanUp. */
    predicate Counted(lookupsBefore: nat, purgeTsBefore: int, now: int)
      reads this
    {
      Book(lookups, purgeTs) == Booked(Book(lookupsBefore, purgeTsBefore), now)
    }

    /** Accumulate_CleanUp */
    method CleanUp(now: int)
      modifies this
      ensures store == AfterPurge(old(store), PurgeTime(old(lookups), old(purgeTs), now))
      ensures lookups != 0 ==> store == old(store)
      ensures lookups == 0 ==>
        forall k :: k in store <==> k in old(store) && now - 120 <= old(store)[k].timestamp
      ensures Counted(old(lookups), old(purgeTs), now)
    {
      lookups := lookups + 1;
      if lookups < PURGE_COUNT && purgeTs < now + PURGE_INTERVAL {
        return;
      }
      lookups := 0;
      purgeTs := now;
      var keys := store.Keys;
      while keys != {}
        invariant keys <= store.Keys
        invariant forall k | k in store :: k in old(store) && store[k] == old(store)[k]
        invariant forall k | k in old(store) && k !in store :: Expired(old(store)[k], now)
        invariant forall k | k in store && k !in keys :: !Expired(store[k], now)
        modifies this`store
        decreases keys
      {
        var key :| key in keys;
        keys := keys - {key};
        if store[key].timestamp < now - EXPIRE_ELM {
          store := store - {key};
        }
      }
    }

    /** Accumulate, with the times read by the clean-up and by the function itself. */
    method Accumulate(lf: AcmEvent, cleanTime: int, now: int)
      modifies this, lf
      ensures var purge := if Identified(lf.From()) then PurgeTime(old(lookups), old(purgeTs), cleanTime) else None;
              && store == StepStore(old(store), lf.AsCall(old(lf.fields), now), purge)
              && lf.fields == StepOutput(old(store), lf.AsCall(old(lf.fields), now), purge)
      ensures if Identified(lf.From()) then Counted(old(lookups), old(purgeTs), cleanTime)
              else lookups == old(lookups) && purgeTs == old(purgeTs)
    {
      if lf.id.None? || lf.decoder.None? || lf.decoder.value.None? {
        return;
      }
      CleanUp(cleanTime);
      var key := Key(lf.hostname, lf.decoder.value.value, lf.id.value);
      if |key| >= MAXKEY {
        return;
      }
      ghost var purged, own := store, lf.fields;
      var stored := Entry(0, NO_FIELDS);
      if key in store {
        if store[key].timestamp > 0 && store[key].timestamp < now - EXPIRE_ELM {
          store := store - {key};
        } else {
          stored := store[key];
          var completed := Fill(lf.fields, stored.fields);
          SameFields(completed, Completion(own, stored.fields));
          lf.fields := completed;
        }
      }
      assert stored.fields == Remembered(purged, key, now);
      NothingToAdd(own);
      var updated := Fill(stored.fields, lf.fields);
      SameFields(updated, Completion(stored.fields, lf.fields));
      store := store[key := Entry(now, updated)];
    }
  }

  lemma NothingToAdd(own: Fields)
    ensures Completion(own, NO_FIELDS) == own
  {
    SameFields(Completion(own, NO_FIELDS), own);
  }
}
