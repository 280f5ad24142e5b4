/**
 * The preferences table as values: the table's state, the effect of each of
 * its operations as a function of the state before, and the properties those
 * operations promise. The class in the PreferencesTable module is proved to
 * follow these functions.
 */
module PreferencesSpec {
  import opened Wrappers
  import opened Primitives
  import opened PostboxCoding
  import opened ValueBox

  /** A memoised lookup: `entry == None` records that the key was looked up and found absent. */
  datatype CachedEntry = CachedEntry(entry: Option<PreferencesEntry>)

  /** `PreferencesOperation.update(key, value)`, one per `set`. */
  datatype PreferencesOperation = Update(key: Key, value: Option<PreferencesEntry>)

  /**
   * The cache (a missing key has not been looked up), the dirty keys, and the
   * contents of the table's part of the store.
   */
  datatype TableState = TableState(
    cachedEntries: map<Key, CachedEntry>,
    updatedEntryKeys: set<Key>,
    store: map<Key, Bytes>)

  /** Every dirty key has a cache slot: `set` creates both together. */
  predicate WellFormed(s: TableState) {
    s.updatedEntryKeys <= s.cachedEntries.Keys
  }

  /** What the store holds for `key`, decoded; absent when missing or not decodable. */
  function Fetch(registry: Registry, store: map<Key, Bytes>, key: Key): Option<PreferencesEntry> {
    if key in store then Decode(registry, store[key]) else None
  }

  /**
   * The result of `get(key:)`: a cached key's slot, or else what the store holds,
   * which is then an entry of a declared preferences class.
   */
  function Read(registry: Registry, s: TableState, key: Key): (r: Option<PreferencesEntry>)
    ensures key in s.cachedEntries ==> r == s.cachedEntries[key].entry
    ensures key !in s.cachedEntries && r.Some? ==> key in s.store && Encodable(registry, r.value)
    ensures key !in s.cachedEntries && key in s.store ==> r == Decode(registry, s.store[key])
  {
    if key in s.cachedEntries then s.cachedEntries[key].entry else Fetch(registry, s.store, key)
  }

  /** The state after `get(key:)`: a miss memoises what it found; the store and the dirty set stay. */
  function AfterRead(registry: Registry, s: TableState, key: Key): (t: TableState)
    ensures t.store == s.store && t.updatedEntryKeys == s.updatedEntryKeys
    ensures key in t.cachedEntries && s.cachedEntries.Keys <= t.cachedEntries.Keys
  {
    if key in s.cachedEntries then s
    else s.(cachedEntries := s.cachedEntries[key := CachedEntry(Fetch(registry, s.store, key))])
  }

  /** The state after `set(key:value:operations:)`: the key is cached and dirty, the store stays. */
  function AfterWrite(s: TableState, key: Key, value: Option<PreferencesEntry>): (t: TableState)
    ensures t.store == s.store
    ensures key in t.cachedEntries && key in t.updatedEntryKeys
    ensures WellFormed(s) ==> WellFormed(t)
  {
    s.(cachedEntries := s.cachedEntries[key := CachedEntry(value)],
       updatedEntryKeys := s.updatedEntryKeys + {key})
  }

  /** The cache holds a present entry for `key`. */
  predicate Present(cachedEntries: map<Key, CachedEntry>, key: Key) {
    key in cachedEntries && cachedEntries[key].entry.Some?
  }

  /** The store once every key of `keys` has been written from the cache or removed. */
  function Flush(cachedEntries: map<Key, CachedEntry>, keys: set<Key>, store: map<Key, Bytes>): map<Key, Bytes> {
    map k | k in store.Keys + keys && (k in keys ==> Present(cachedEntries, k))
      :: if k in keys then Encode(cachedEntries[k].entry.value) else store[k]
  }

  /** Flushing no key leaves the store as it is. */
  lemma FlushNothing(cachedEntries: map<Key, CachedEntry>, store: map<Key, Bytes>)
    ensures Flush(cachedEntries, {}, store) == store
  {
    var flushed := Flush(cachedEntries, {}, store);
    assert flushed.Keys == store.Keys;
  }

  /** Flushing one more key writes or removes just that key. */
  lemma FlushAddsKey(cachedEntries: map<Key, CachedEntry>, keys: set<Key>, store: map<Key, Bytes>, key: Key)
    ensures Flush(cachedEntries, keys + {key}, store)
         == if Present(cachedEntries, key)
            then Flush(cachedEntries, keys, store)[key := Encode(cachedEntries[key].entry.value)]
            else Flush(cachedEntries, keys, store) - {key}
  {
  }
  /**
   * The state after `beforeCommit()`: nothing is dirty, the cache stays, and the only
   * keys the store can gain are dirty ones.
   */
  function AfterCommit(s: TableState): (t: TableState)
    ensures t.updatedEntryKeys == {} && t.cachedEntries == s.cachedEntries
    ensures t.store.Keys <= s.store.Keys + s.updatedEntryKeys
  {
    s.(store := Flush(s.cachedEntries, s.updatedEntryKeys, s.store), updatedEntryKeys := {})
  }

  /** The entries of `values` that decode, in order. */
  function Decodable(registry: Registry, values: seq<Bytes>): seq<PreferencesEntry> {
    if values == [] then []
    else match Decode(registry, values[0])
      case None => Decodable(registry, values[1..])
      case Some(e) => [e] + Decodable(registry, values[1..])
  }

  /**
   * The entries that `enumerateEntries(f)` hands to `f`, scanning `values`:
   * undecodable values are skipped and the scan ends after the first entry `f` refuses.
   */
  function Enumerate(registry: Registry, values: seq<Bytes>, f: PreferencesEntry -> bool): (r: seq<PreferencesEntry>)
    ensures |r| <= |values|
    ensures forall e :: e in r ==> Encodable(registry, e)
  {
    if values == [] then []
    else match Decode(registry, values[0])
      case None => Enumerate(registry, values[1..], f)
      case Some(e) => if f(e) then [e] + Enumerate(registry, values[1..], f) else [e]
  }

  // ---------------------------------------------------------------- get

  /** A cached key is answered from its slot, a memoised absence included, and nothing changes. */
  lemma GetHit(registry: Registry, s: TableState, key: Key)
    requires key in s.cachedEntries
    ensures Read(registry, s, key) == s.cachedEntries[key].entry
    ensures AfterRead(registry, s, key) == s
  {
  }

  /**
   * On a miss the result is present exactly when the store holds bytes that decode
   * to an entry, and it is the entry they decode to; either way the result is memoised.
   */
  lemma GetMiss(registry: Registry, s: TableState, key: Key)
    requires key !in s.cachedEntries
    ensures var r := Read(registry, s, key);
      && (r.Some? <==> key in s.store && Decode(registry, s.store[key]).Some?)
      && (key in s.store ==> r == Decode(registry, s.store[key]))
      && key in AfterRead(registry, s, key).cachedEntries
      && AfterRead(registry, s, key).cachedEntries[key] == CachedEntry(r)
  {
  }

  /** `get` keeps the dirty set and the store, and changes at most the slot of `key`. */
  lemma GetFrame(registry: Registry, s: TableState, key: Key)
    ensures var t := AfterRead(registry, s, key);
      && t.updatedEntryKeys == s.updatedEntryKeys
      && t.store == s.store
      && t.cachedEntries.Keys == s.cachedEntries.Keys + {key}
      && (forall k :: k in s.cachedEntries && k != key ==> t.cachedEntries[k] == s.cachedEntries[k])
      && (WellFormed(s) ==> WellFormed(t))
  {
  }

  /** A second `get` of the same key is a hit with the same answer: misses are memoised, absence included. */
  lemma GetMemoises(registry: Registry, s: TableState, key: Key)
    ensures var t := AfterRead(registry, s, key);
      && key in t.cachedEntries
      && Read(registry, t, key) == Read(registry, s, key)
      && AfterRead(registry, t, key) == t
  {
  }

  // ---------------------------------------------------------------- set

  /**
   * Read-after-write: after `set(key, value)` a `get(key)` is a hit answering `value`,
   * before any commit; every other key reads as before.
   */
  lemma ReadAfterWrite(registry: Registry, s: TableState, key: Key, value: Option<PreferencesEntry>)
    ensures var t := AfterWrite(s, key, value);
      && key in t.cachedEntries
      && Read(registry, t, key) == value
      && AfterRead(registry, t, key) == t
      && forall k :: k != key ==> Read(registry, t, k) == Read(registry, s, k)
  {
  }

  /** `set` marks the key dirty, leaves the store alone and touches no other slot. */
  lemma SetFrame(s: TableState, key: Key, value: Option<PreferencesEntry>)
    ensures var t := AfterWrite(s, key, value);
      && t.updatedEntryKeys == s.updatedEntryKeys + {key}
      && t.store == s.store
      && t.cachedEntries.Keys == s.cachedEntries.Keys + {key}
      && (forall k :: k in s.cachedEntries && k != key ==> t.cachedEntries[k] == s.cachedEntries[k])
      && (WellFormed(s) ==> WellFormed(t))
  {
  }

  /** Two `set`s of one key collapse into the last one. */
  lemma LastWriterWins(s: TableState, key: Key, first: Option<PreferencesEntry>, second: Option<PreferencesEntry>)
    ensures AfterWrite(AfterWrite(s, key, first), key, second) == AfterWrite(s, key, second)
  {
  }

  // ---------------------------------------------------------------- beforeCommit

  /**
   * After a commit nothing is dirty and every previously dirty key holds the encoding
   * of its cached entry, or is gone from the store when the cache records absence;
   * every other key keeps its stored value, and the cache is as it was.
   */
  lemma CommitFlushes(s: TableState)
    ensures var t := AfterCommit(s);
      && t.updatedEntryKeys == {}
      && t.cachedEntries == s.cachedEntries
      && (forall k :: k in s.updatedEntryKeys && Present(s.cachedEntries, k) ==>
            k in t.store && t.store[k] == Encode(s.cachedEntries[k].entry.value))
      && (forall k :: k in s.updatedEntryKeys && !Present(s.cachedEntries, k) ==> k !in t.store)
      && (forall k :: k !in s.updatedEntryKeys ==>
            (k in t.store <==> k in s.store) && (k in s.store ==> t.store[k] == s.store[k]))
  {
  }

  /** A commit with nothing dirty changes nothing. */
  lemma CommitWithNothingDirty(s: TableState)
    requires s.updatedEntryKeys == {}
    ensures AfterCommit(s) == s
  {
    FlushNothing(s.cachedEntries, s.store);
  }

  /** Two commits in a row have the effect of one. */
  lemma CommitIdempotent(s: TableState)
    ensures AfterCommit(AfterCommit(s)) == AfterCommit(s)
  {
    CommitWithNothingDirty(AfterCommit(s));
  }

  /** `set(key, a)`, `set(key, b)`, commit: the store ends as after `set(key, b)` alone. */
  lemma LastWriteIsStored(s: TableState, key: Key, first: Option<PreferencesEntry>, second: Option<PreferencesEntry>)
    ensures AfterCommit(AfterWrite(AfterWrite(s, key, first), key, second)).store
         == AfterCommit(AfterWrite(s, key, second)).store
    ensures second.Some? ==>
      AfterCommit(AfterWrite(AfterWrite(s, key, first), key, second)).store[key] == Encode(second.value)
    ensures second.None? ==> key !in AfterCommit(AfterWrite(AfterWrite(s, key, first), key, second)).store
  {
    LastWriterWins(s, key, first, second);
    CommitFlushes(AfterWrite(s, key, second));
  }

  /**
   * What was committed is what a table with an empty cache reads back from the
   * store, for every key that was dirty and whose entry the decoder knows.
   */
  lemma CommittedValueReadsBack(registry: Registry, s: TableState, key: Key)
    requires WellFormed(s) && key in s.updatedEntryKeys
    requires Present(s.cachedEntries, key) ==> Encodable(registry, s.cachedEntries[key].entry.value)
    ensures Read(registry, TableState(map[], {}, AfterCommit(s).store), key) == Read(registry, s, key)
  {
    CommitFlushes(s);
    if Present(s.cachedEntries, key) {
      RoundTrip(registry, s.cachedEntries[key].entry.value);
    }
  }

  // ---------------------------------------------------------------- cache coherence

  /** Every clean cache slot agrees with the store. */
  ghost predicate Coherent(registry: Registry, s: TableState) {
    forall k :: k in s.cachedEntries && k !in s.updatedEntryKeys ==>
      s.cachedEntries[k].entry == Fetch(registry, s.store, k)
  }

  /** Every present cached entry is of a class the decoder knows. */
  ghost predicate CacheEncodable(registry: Registry, s: TableState) {
    forall k :: Present(s.cachedEntries, k) ==> Encodable(registry, s.cachedEntries[k].entry.value)
  }

  /** A table starts with an empty cache and nothing dirty, over any store. */
  lemma InitialStateCoherent(registry: Registry, store: map<Key, Bytes>)
    ensures WellFormed(TableState(map[], {}, store)) && Coherent(registry, TableState(map[], {}, store))
  {
  }

  lemma GetKeepsCoherence(registry: Registry, s: TableState, key: Key)
    requires Coherent(registry, s)
    ensures Coherent(registry, AfterRead(registry, s, key))
  {
  }

  lemma SetKeepsCoherence(registry: Registry, s: TableState, key: Key, value: Option<PreferencesEntry>)
    requires Coherent(registry, s)
    ensures Coherent(registry, AfterWrite(s, key, value))
  {
  }

  /** A commit of entries the decoder knows leaves every cache slot agreeing with the store. */
  lemma CommitKeepsCoherence(registry: Registry, s: TableState)
    requires WellFormed(s) && Coherent(registry, s) && CacheEncodable(registry, s)
    ensures Coherent(registry, AfterCommit(s))
  {
    var t := AfterCommit(s);
    CommitFlushes(s);
    forall k | k in t.cachedEntries
      ensures t.cachedEntries[k].entry == Fetch(registry, t.store, k)
    {
      if k in s.updatedEntryKeys && Present(s.cachedEntries, k) {
        RoundTrip(registry, s.cachedEntries[k].entry.value);
      }
    }
  }

  /**
   * With nothing dirty, a coherent cache answers every key as the store would:
   * dropping it (what `clearMemoryCache` is for) changes no `get` result.
   */
  lemma CleanCacheIsRedundant(registry: Registry, s: TableState, key: Key)
    requires Coherent(registry, s) && s.updatedEntryKeys == {}
    ensures Read(registry, s, key) == Read(registry, TableState(map[], {}, s.store), key)
  {
  }

  // ---------------------------------------------------------------- enumerateEntries

  /** The entries handed to `f` are the decodable entries of the scan, from the start, in order. */
  lemma {:induction false} EnumerateIsPrefix(registry: Registry, values: seq<Bytes>, f: PreferencesEntry -> bool)
    ensures Enumerate(registry, values, f) <= Decodable(registry, values)
    decreases |values|
  {
    if values != [] {
      EnumerateIsPrefix(registry, values[1..], f);
    }
  }

  /**
   * Every entry but the last was accepted by `f`; when the scan ends before the
   * decodable entries run out, the last entry handed over was refused.
   */
  lemma {:induction false} EnumerateStopsAtFirstRefusal(registry: Registry, values: seq<Bytes>, f: PreferencesEntry -> bool)
    ensures var r := Enumerate(registry, values, f);
      && (forall i :: 0 <= i < |r| - 1 ==> f(r[i]))
      && (|r| < |Decodable(registry, values)| ==> |r| > 0 && !f(r[|r| - 1]))
    decreases |values|
  {
    if values != [] {
      EnumerateStopsAtFirstRefusal(registry, values[1..], f);
      var r := Enumerate(registry, values, f);
      var rest := Enumerate(registry, values[1..], f);
      match Decode(registry, values[0])
      case None =>
      case Some(e) =>
        if f(e) {
          assert r == [e] + rest;
          assert forall i :: 1 <= i < |r| ==> r[i] == rest[i - 1];
        }
    }
  }

  /** When `f` accepts every decodable entry, the scan hands over all of them. */
  lemma {:induction false} EnumerateAllAccepted(registry: Registry, values: seq<Bytes>, f: PreferencesEntry -> bool)
    requires forall e :: e in Decodable(registry, values) ==> f(e)
    ensures Enumerate(registry, values, f) == Decodable(registry, values)
    decreases |values|
  {
    if values != [] {
      assert forall e :: e in Decodable(registry, values[1..]) ==> e in Decodable(registry, values);
      EnumerateAllAccepted(registry, values[1..], f);
    }
  }

  /** A value that decodes is among the decodable entries. */
  lemma {:induction false} DecodableContains(registry: Registry, values: seq<Bytes>, i: nat)
    requires i < |values| && Decode(registry, values[i]).Some?
    ensures Decode(registry, values[i]).value in Decodable(registry, values)
    decreases i
  {
    if i > 0 {
      DecodableContains(registry, values[1..], i - 1);
      assert values[1..][i - 1] == values[i];
    }
  }

  /** Every decodable entry is the decoding of one of the values: nothing else is handed over. */
  lemma {:induction false} DecodableOnlyDecoded(registry: Registry, values: seq<Bytes>, e: PreferencesEntry)
    requires e in Decodable(registry, values)
    ensures exists i :: 0 <= i < |values| && Decode(registry, values[i]) == Some(e)
    decreases |values|
  {
    if Decode(registry, values[0]) != Some(e) {
      DecodableOnlyDecoded(registry, values[1..], e);
      var i :| 0 <= i < |values[1..]| && Decode(registry, values[1..][i]) == Some(e);
      assert values[i + 1] == values[1..][i];
    }
  }

  /**
   * Enumeration reflects committed state: `get` and `set` leave what it scans as it
   * was, and after a commit a visitor that accepts everything is handed every
   * committed entry the decoder knows.
   */
  lemma CommittedEntryIsEnumerated(registry: Registry, s: TableState, key: Key, f: PreferencesEntry -> bool)
    requires key in s.updatedEntryKeys && Present(s.cachedEntries, key)
    requires Encodable(registry, s.cachedEntries[key].entry.value)
    requires forall e :: f(e)
    ensures s.cachedEntries[key].entry.value in Enumerate(registry, ScanValues(AfterCommit(s).store), f)
  {
    var store := AfterCommit(s).store;
    var e := s.cachedEntries[key].entry.value;
    CommitFlushes(s);
    RoundTrip(registry, e);
    ScanValuesContains(store, key);
    var values := ScanValues(store);
    var i :| 0 <= i < |values| && values[i] == store[key];
    DecodableContains(registry, values, i);
    EnumerateAllAccepted(registry, values, f);
  }

  /** `get` and `set` do not change what `enumerateEntries` visits. */
  lemma EnumerateIgnoresCache(registry: Registry, s: TableState, key: Key, value: Option<PreferencesEntry>, f: PreferencesEntry -> bool)
    ensures Enumerate(registry, ScanValues(AfterWrite(s, key, value).store), f) == Enumerate(registry, ScanValues(s.store), f)
    ensures Enumerate(registry, ScanValues(AfterRead(registry, s, key).store), f) == Enumerate(registry, ScanValues(s.store), f)
  {
  }
}
