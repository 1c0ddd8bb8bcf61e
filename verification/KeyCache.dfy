/** The read-through cache of decoded public keys (pubkeys/pubKeyHelper.go) and its readers
    and writers, interleaved in any way. The cache lock makes lookup, install and
    invalidate atomic; database accesses happen between them. */
module KeyCache {
  import opened Basics
  import opened Sums

  const MAX_ENTRIES := 100_000
  const MAX_BYTES := 64 * 1024 * 1024
  const ADDRESS_LENGTH := 20

  /** A decoded record: what it says, and how many key bytes it holds. */
  datatype Record = Record(content: int, length: nat)

  type Key = nat

  function Size(r: Record): nat { r.length + ADDRESS_LENGTH }

  ghost function Sizes(cache: map<Key, Record>): map<Key, int> {
    map k | k in cache :: Size(cache[k])
  }

  ghost function Resident(cache: map<Key, Record>): int {
    Sum(Sizes(cache))
  }

  lemma {:induction false} ResidentRemove(cache: map<Key, Record>, k: Key)
    requires k in cache
    ensures Resident(cache - {k}) == Resident(cache) - Size(cache[k])
    ensures Resident(cache) >= Size(cache[k])
  {
    assert Sizes(cache - {k}) == Sizes(cache) - {k};
    SumRemove(Sizes(cache), k);
    SumNonNegative(Sizes(cache));
  }

  lemma {:induction false} ResidentAdd(cache: map<Key, Record>, k: Key, r: Record)
    requires k !in cache
    ensures Resident(cache[k := r]) == Resident(cache) + Size(r)
  {
    assert Sizes(cache[k := r]) == Sizes(cache)[k := Size(r)];
    SumUpdate(Sizes(cache), k, Size(r));
  }

  lemma NonEmpty(m: map<Key, Record>)
    requires |m| > 0
    ensures m.Keys != {}
  {
  }

  lemma Smaller(m: map<Key, Record>, k: Key)
    requires k in m
    ensures |m - {k}| == |m| - 1
  {
    assert (m - {k}).Keys == m.Keys - {k};
  }

  lemma Larger(m: map<Key, Record>, k: Key, r: Record)
    requires k !in m
    ensures |m[k := r]| == |m| + 1
    ensures |m| == 0 ==> m[k := r] == map[k := r]
  {
    assert m[k := r].Keys == m.Keys + {k};
  }

  class Cache {
    var entries: map<Key, Record>
    var bytes: int
    var gen: nat                 // counts invalidations

    /** The byte counter is exact. */
    ghost predicate Valid()
      reads this
    {
      bytes == Resident(entries)
    }

    constructor ()
      ensures Valid() && entries == map[] && gen == 0
    {
      entries, bytes, gen := map[], 0, 0;
    }

    /** The lookup that starts LoadPubKey. */
    method Lookup(k: Key) returns (hit: Option<Record>, sampled: nat)
      ensures hit == (if k in entries then Some(entries[k]) else None) && sampled == gen
    {
      return if k in entries then Some(entries[k]) else None, gen;
    }

    /** InvalidatePubKeyCache. */
    method Invalidate(k: Key)
      requires Valid()
      modifies this
      ensures Valid() && entries == old(entries) - {k} && gen == old(gen) + 1
    {
      hide Resident;
      if k in entries {
        ResidentRemove(entries, k);
        bytes := bytes - Size(entries[k]);
        entries := entries - {k};
      }
      gen := gen + 1;
    }

    /** The end of LoadPubKey: a record read under an older generation is not installed;
        otherwise arbitrary entries make room for it, and the loop that evicts them ends. */
    method Install(k: Key, r: Record, sampled: nat)
      requires Valid()
      modifies this
      ensures Valid() && gen == old(gen)
      ensures sampled != gen ==> unchanged(this)
      ensures sampled == gen ==>
                && k in entries && entries[k] == r
                && (forall j :: j in entries && j != k ==> j in old(entries) && entries[j] == old(entries)[j])
                && (|entries| <= MAX_ENTRIES || |entries| == 1)
                && (bytes <= MAX_BYTES || entries == map[k := r])
    {
      hide Resident;
      if gen != sampled { return; }
      if k in entries {
        ResidentRemove(entries, k);
        bytes := bytes - Size(entries[k]);
        entries := entries - {k};
      }
      while |entries| > 0 && (|entries| >= MAX_ENTRIES || bytes + Size(r) > MAX_BYTES)
        invariant Valid() && gen == old(gen) && k !in entries
        invariant forall j :: j in entries ==> j in old(entries) && entries[j] == old(entries)[j]
        decreases |entries|
      {
        NonEmpty(entries);
        var victim := Pick(entries.Keys);
        ResidentRemove(entries, victim);
        Smaller(entries, victim);
        bytes := bytes - Size(entries[victim]);
        entries := entries - {victim};
      }
      ResidentAdd(entries, k, r);
      Larger(entries, k, r);
      entries := entries[k := r];
      bytes := bytes + Size(r);
    }
  }

  // ---------------------------------------------------------------- interleavings

  /** Where a call of LoadPubKey stands: it has sampled the generation after a miss, or it
      has fetched a record since. */
  datatype Reader = Sampled(key: Key, gen: nat) | Fetched(key: Key, gen: nat, record: Record)

  /** One atomic step of some reader or writer, identified by a number. */
  datatype Step =
    | Begin(id: nat, key: Key)
    | ReadDb(id: nat)
    | Finish(id: nat)
    | WriteDb(id: nat, key: Key, record: Option<Record>)   // None deletes the record
    | Dropped(id: nat)                                     // the writer invalidates

  /** A writer of k is between its write and its invalidation. */
  ghost predicate Pending(writers: map<nat, Key>, k: Key) {
    exists w :: w in writers && writers[w] == k
  }

  /** What the database holds, unless a change of it is about to be announced. */
  ghost predicate Current(db: map<Key, Record>, writers: map<nat, Key>, k: Key, r: Record) {
    (k in db && db[k] == r) || Pending(writers, k)
  }

  lemma PendingStep(writers: map<nat, Key>, id: nat, key: Key)
    requires id !in writers
    ensures Pending(writers[id := key], key)
    ensures forall k :: Pending(writers, k) ==> Pending(writers[id := key], k)
  {
    var after := writers[id := key];
    assert id in after && after[id] == key;
    forall k | Pending(writers, k) ensures Pending(after, k) {
      var w :| w in writers && writers[w] == k;
      assert w in after && after[w] == k;
    }
  }

  lemma SettledStep(writers: map<nat, Key>, id: nat)
    requires id in writers
    ensures forall k :: k != writers[id] && Pending(writers, k) ==> Pending(writers - {id}, k)
  {
    forall k | k != writers[id] && Pending(writers, k) ensures Pending(writers - {id}, k) {
      var w :| w in writers && writers[w] == k;
      assert (writers - {id})[w] == k;
    }
  }

  class System {
    var db: map<Key, Record>
    const cache: Cache
    var readers: map<nat, Reader>
    var writers: map<nat, Key>        // writers that have written and not yet invalidated

    constructor ()
      ensures Inv() && fresh(cache)
    {
      db, readers, writers := map[], map[], map[];
      cache := new Cache();
    }

    ghost predicate Inv()
      reads this, cache
    {
      && cache.Valid()
      && (forall k :: k in cache.entries ==> Current(db, writers, k, cache.entries[k]))
      && (forall i :: i in readers && readers[i].Fetched? && readers[i].gen == cache.gen ==>
            Current(db, writers, readers[i].key, readers[i].record))
      && (forall i :: i in readers ==> readers[i].gen <= cache.gen)
    }

    /** LoadPubKey begins: a hit is answered from the cache, a miss remembers the generation. */
    method Begin(id: nat, key: Key) returns (hit: Option<Record>)
      requires Inv()
      modifies `readers
      ensures Inv()
      ensures hit == (if key in cache.entries then Some(cache.entries[key]) else None)
      ensures readers == if hit.Some? then old(readers) else old(readers)[id := Sampled(key, cache.gen)]
    {
      hide Current;
      var sampled;
      hit, sampled := cache.Lookup(key);
      if hit.None? { readers := readers[id := Sampled(key, sampled)]; }
    }

    /** The reader fetches and decodes the record; a missing one ends the call. */
    method Fetch(id: nat) returns (r: Option<Record>)
      requires Inv() && id in readers && readers[id].Sampled?
      modifies `readers
      ensures Inv()
      ensures var k := old(readers[id].key);
              && r == (if k in db then Some(db[k]) else None)
              && readers == if r.Some? then old(readers)[id := Fetched(k, old(readers[id].gen), r.value)] else old(readers) - {id}
    {
      hide Pending;
      var k := readers[id].key;
      r := if k in db then Some(db[k]) else None;
      readers := if r.Some? then readers[id := Fetched(k, readers[id].gen, r.value)] else readers - {id};
    }

    /** The reader offers what it fetched to the cache. */
    method Finish(id: nat)
      requires Inv() && id in readers && readers[id].Fetched?
      modifies `readers, cache
      ensures Inv()
      ensures readers == old(readers) - {id} && cache.gen == old(cache.gen)
      ensures old(readers[id].gen) == cache.gen ==>
                old(readers[id].key) in cache.entries && cache.entries[old(readers[id].key)] == old(readers[id].record)
      ensures old(readers[id].gen) != cache.gen ==> cache.entries == old(cache.entries)
    {
      hide Current;
      var r := readers[id];
      cache.Install(r.key, r.record, r.gen);
      readers := readers - {id};
    }

    /** StorePubKey or unregisterPubKey changes the database ... */
    method Write(id: nat, key: Key, record: Option<Record>)
      requires Inv() && id !in writers
      modifies `db, `writers
      ensures Inv()
      ensures db == (if record.Some? then old(db)[key := record.value] else old(db) - {key})
      ensures writers == old(writers)[id := key]
    {
      hide Pending;
      PendingStep(writers, id, key);
      db := if record.Some? then db[key := record.value] else db - {key};
      writers := writers[id := key];
    }

    /** ... and then drops the cached entry. */
    method Invalidate(id: nat)
      requires Inv() && id in writers
      modifies `writers, cache
      ensures Inv()
      ensures writers == old(writers) - {id}
      ensures cache.entries == old(cache.entries) - {old(writers)[id]} && cache.gen == old(cache.gen) + 1
    {
      hide Pending;
      cache.Invalidate(writers[id]);
      SettledStep(writers, id);
      writers := writers - {id};
    }

    /** One step of the schedule; a step its reader or writer is not ready for does nothing. */
    method Do(s: Step)
      requires Inv()
      modifies this, cache
      ensures Inv()
      ensures s.WriteDb? && s.id !in old(writers) ==>
                && db == (if s.record.Some? then old(db)[s.key := s.record.value] else old(db) - {s.key})
                && writers == old(writers)[s.id := s.key]
      ensures s.Dropped? && s.id in old(writers) ==>
                && writers == old(writers) - {s.id} && cache.gen == old(cache.gen) + 1
                && cache.entries == old(cache.entries) - {old(writers)[s.id]}
      ensures s.Begin? && s.key !in old(cache.entries) ==> readers == old(readers)[s.id := Sampled(s.key, cache.gen)]
      ensures s.ReadDb? && s.id in old(readers) && old(readers)[s.id].Sampled? && old(readers)[s.id].key in db ==>
                s.id in readers && readers[s.id] == Fetched(old(readers)[s.id].key, old(readers)[s.id].gen, db[old(readers)[s.id].key])
      ensures s.Finish? && s.id in old(readers) && old(readers)[s.id].Fetched? && old(readers)[s.id].gen == old(cache.gen) ==>
                old(readers)[s.id].key in cache.entries && cache.entries[old(readers)[s.id].key] == old(readers)[s.id].record
      ensures !s.WriteDb? ==> db == old(db)
    {
      hide Inv;
      match s
      case Begin(id, key) => var _ := Begin(id, key);
      case ReadDb(id) => if id in readers && readers[id].Sampled? { var _ := Fetch(id); }
      case Finish(id) => if id in readers && readers[id].Fetched? { Finish(id); }
      case WriteDb(id, key, record) => if id !in writers { Write(id, key, record); }
      case Dropped(id) => if id in writers { Invalidate(id); }
    }

    /** After every schedule a cached record differs from the database only while a writer of
        that key has written and not yet invalidated, and the byte counter is exact. */
    method Run(schedule: seq<Step>)
      requires Inv()
      modifies this, cache
      ensures Inv()
      ensures forall k :: k in cache.entries && !Pending(writers, k) ==> k in db && db[k] == cache.entries[k]
      ensures cache.bytes == Resident(cache.entries)
    {
      for i := 0 to |schedule|
        invariant Inv()
      {
        Do(schedule[i]);
      }
    }
  }
}
