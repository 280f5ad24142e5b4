/**
 * `PreferencesTable`: a read-through, write-back cached table of preferences
 * entries above one table of the value box. Each method is proved to move the
 * object's state as the matching function of PreferencesSpec says.
 */
module PreferencesTable {
  import opened Wrappers
  import opened Primitives
  import opened PostboxCoding
  import opened ValueBox
  import opened PreferencesSpec

  class PreferencesTable {
    const valueBox: ValueBox
    /** The classes the decoder knows (PostboxCoding's `declareEncodable` registrations). */
    const registry: Registry
    var cachedEntries: map<Key, CachedEntry>
    var updatedEntryKeys: set<Key>

    /** The table's state as a value. */
    ghost function State(): TableState
      reads this, valueBox
    {
      TableState(cachedEntries, updatedEntryKeys, valueBox.entries)
    }

    /** The class invariant is the specification's well-formedness of the state. */
    ghost predicate Valid()
      reads this, valueBox
    {
      WellFormed(State())
    }

    constructor (valueBox: ValueBox, registry: Registry)
      ensures Valid() && this.valueBox == valueBox && this.registry == registry
      ensures cachedEntries == map[] && updatedEntryKeys == {}
    {
      this.valueBox := valueBox;
      this.registry := registry;
      cachedEntries := map[];
      updatedEntryKeys := {};
    }

    /** `enumerateEntries(_:)`: scans the store only, never the cache. */
    method EnumerateEntries(f: PreferencesEntry -> bool) returns (visited: seq<PreferencesEntry>)
      ensures visited == Enumerate(registry, ScanValues(valueBox.entries), f)
    {
      var store := valueBox.entries;
      var remaining := store.Keys;
      var scanning := true;
      visited := [];
      while scanning && remaining != {}
        invariant remaining <= store.Keys
        invariant Enumerate(registry, ScanValues(store), f)
               == visited + if scanning then Unscanned(registry, store, remaining, f) else []
        decreases remaining
      {
        LeastExists(remaining);
        var key :| IsLeast(key, remaining);
        ScanStep(registry, store, remaining, key, f);
        ghost var rest := Unscanned(registry, store, remaining - {key}, f);
        var decoded := Decode(registry, store[key]);
        if decoded.Some? {
          var entry := decoded.value;
          if f(entry) {
            assert visited + ([entry] + rest) == (visited + [entry]) + rest;
          }
          visited := visited + [entry];
          scanning := f(entry);
        }
        remaining := remaining - {key};
      }
    }

    /** `get(key:)`: a hit costs no store lookup; a miss costs exactly one and is memoised. */
    method Get(key: Key) returns (entry: Option<PreferencesEntry>)
      requires Valid()
      modifies this`cachedEntries, valueBox`lookups
      ensures Valid()
      ensures entry == Read(registry, old(State()), key)
      ensures State() == AfterRead(registry, old(State()), key)
      ensures valueBox.lookups == old(valueBox.lookups) + if key in old(cachedEntries) then 0 else 1
      ensures valueBox.written == old(valueBox.written)
    {
      if key in cachedEntries {
        entry := cachedEntries[key].entry;
      } else {
        var value := valueBox.Get(key);
        match value {
          case Some(buffer) =>
            entry := Decode(registry, buffer);
          case None =>
            entry := None;
        }
        cachedEntries := cachedEntries[key := CachedEntry(entry)];
      }
    }

    /** `set(key:value:operations:)`: updates the cache, marks the key dirty and logs one operation. */
    method Set(key: Key, value: Option<PreferencesEntry>, operations: seq<PreferencesOperation>)
      returns (operations': seq<PreferencesOperation>)
      requires Valid()
      modifies this`cachedEntries, this`updatedEntryKeys
      ensures Valid()
      ensures State() == AfterWrite(old(State()), key, value)
      ensures operations' == operations + [Update(key, value)]
    {
      cachedEntries := cachedEntries[key := CachedEntry(value)];
      updatedEntryKeys := updatedEntryKeys + {key};
      operations' := operations + [Update(key, value)];
    }

    /** `clearMemoryCache()`: asserts that nothing is dirty and keeps the cache. */
    method ClearMemoryCache()
      requires Valid() && updatedEntryKeys == {}
      ensures Valid() && updatedEntryKeys == {}
      ensures unchanged(this, valueBox)
    {
    }

    /**
     * `beforeCommit()`: writes or removes every dirty key exactly once, then empties the
     * dirty set. The writes served during the call are the dirty keys, one write each.
     */
    method BeforeCommit()
      requires Valid()
      modifies this`updatedEntryKeys, valueBox`entries, valueBox`written
      ensures Valid()
      ensures State() == AfterCommit(old(State()))
      ensures |old(valueBox.written)| <= |valueBox.written|
      ensures valueBox.written[..|old(valueBox.written)|] == old(valueBox.written)
      ensures multiset(valueBox.written[|old(valueBox.written)|..]) == multiset(old(updatedEntryKeys))
      ensures valueBox.lookups == old(valueBox.lookups)
    {
      ghost var initial := valueBox.entries;
      ghost var written0 := valueBox.written;
      FlushNothing(cachedEntries, initial);
      if updatedEntryKeys != {} {
        var remaining := updatedEntryKeys;
        ghost var done: set<Key> := {};
        while remaining != {}
          invariant done !! remaining && done + remaining == updatedEntryKeys
          invariant valueBox.entries == Flush(cachedEntries, done, initial)
          invariant |written0| <= |valueBox.written| && valueBox.written[..|written0|] == written0
          invariant multiset(valueBox.written[|written0|..]) == multiset(done)
          modifies valueBox`entries, valueBox`written
          decreases remaining
        {
          var key :| key in remaining;
          MoveKey(done, remaining, key);
          FlushAddsKey(cachedEntries, done, initial, key);
          ghost var before := valueBox.written;
          WriteBack(key);
          LogKey(before, |written0|, done, key);
          remaining := remaining - {key};
          done := done + {key};
        }
        updatedEntryKeys := {};
      }
    }

    /** The body of the `beforeCommit()` loop: one dirty key written from the cache, or removed. */
    method WriteBack(key: Key)
      modifies valueBox`entries, valueBox`written
      ensures valueBox.entries == if Present(cachedEntries, key)
        then old(valueBox.entries)[key := Encode(cachedEntries[key].entry.value)]
        else old(valueBox.entries) - {key}
      ensures valueBox.written == old(valueBox.written) + [key]
    {
      if key in cachedEntries && cachedEntries[key].entry.Some? {
        valueBox.Set(key, Encode(cachedEntries[key].entry.value));
      } else {
        valueBox.Remove(key);
      }
    }
  }

  /** One key passes from the keys left to the keys done. */
  lemma MoveKey(done: set<Key>, remaining: set<Key>, key: Key)
    requires done !! remaining && key in remaining
    ensures (done + {key}) !! (remaining - {key})
    ensures (done + {key}) + (remaining - {key}) == done + remaining
  {
  }

  /** One more write, of a key not yet written, keeps the log's new part a listing of the keys done. */
  lemma LogKey(log: seq<Key>, start: nat, done: set<Key>, key: Key)
    requires start <= |log| && multiset(log[start..]) == multiset(done) && key !in done
    ensures (log + [key])[..start] == log[..start]
    ensures multiset((log + [key])[start..]) == multiset(done + {key})
  {
    assert (log + [key])[start..] == log[start..] + [key];
  }

  /** What a scan still hands to `f` when the keys `remaining` are left to visit. */
  ghost function Unscanned(registry: Registry, store: map<Key, Bytes>, remaining: set<Key>, f: PreferencesEntry -> bool): seq<PreferencesEntry>
    requires remaining <= store.Keys
  {
    Enumerate(registry, ValuesAt(store, ScanOrder(remaining)), f)
  }

  /** A scan goes on with the least key left. */
  lemma ScanStep(registry: Registry, store: map<Key, Bytes>, remaining: set<Key>, key: Key, f: PreferencesEntry -> bool)
    requires remaining <= store.Keys && IsLeast(key, remaining)
    ensures Unscanned(registry, store, remaining, f)
         == match Decode(registry, store[key])
            case None => Unscanned(registry, store, remaining - {key}, f)
            case Some(e) => if f(e) then [e] + Unscanned(registry, store, remaining - {key}, f) else [e]
  {
    ScanOrderStartsWithLeast(key, remaining);
    var rest := ScanOrder(remaining - {key});
    assert ValuesAt(store, ScanOrder(remaining)) == [store[key]] + ValuesAt(store, rest);
  }
}
