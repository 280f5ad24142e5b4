/**
 * The ordered key/value store ("value box") beneath the preferences table, at
 * its interface: one table's contents as a map from binary keys to byte
 * buffers, point lookups and writes, and a scan in ascending key order.
 * A ghost counter records how many lookups the store has served, and a ghost
 * log records the key of every write (set or removal) in the order served, so
 * that callers can state which keys they touched and when they did not touch it.
 */
module ValueBox {
  import opened Wrappers
  import opened Primitives

  /** A `ValueBoxKey` of a table whose key type is `.binary`. */
  type Key = Bytes

  /** The binary key order: byte-wise comparison, a proper prefix first. */
  predicate KeyLess(a: Key, b: Key)
    decreases |a|
  {
    if |a| == 0 then |b| > 0
    else if |b| == 0 then false
    else a[0] < b[0] || (a[0] == b[0] && KeyLess(a[1..], b[1..]))
  }

  lemma {:induction false} KeyLessIrreflexive(a: Key)
    ensures !KeyLess(a, a)
    decreases |a|
  {
    if |a| > 0 { KeyLessIrreflexive(a[1..]); }
  }

  lemma {:induction false} KeyLessTransitive(a: Key, b: Key, c: Key)
    requires KeyLess(a, b) && KeyLess(b, c)
    ensures KeyLess(a, c)
    decreases |a|
  {
    if |a| > 0 && a[0] == b[0] && b[0] == c[0] {
      KeyLessTransitive(a[1..], b[1..], c[1..]);
    }
  }

  lemma {:induction false} KeyLessTotal(a: Key, b: Key)
    ensures a == b || KeyLess(a, b) || KeyLess(b, a)
    decreases |a|
  {
    if |a| > 0 && |b| > 0 && a[0] == b[0] {
      KeyLessTotal(a[1..], b[1..]);
      if a[1..] == b[1..] {
        assert a == [a[0]] + a[1..] && b == [b[0]] + b[1..];
      }
    }
  }

  lemma KeyLessAsymmetric(a: Key, b: Key)
    requires KeyLess(a, b)
    ensures !KeyLess(b, a)
  {
    if KeyLess(b, a) {
      KeyLessTransitive(a, b, a);
      KeyLessIrreflexive(a);
    }
  }

  /** `k` is the smallest key of `s`. */
  predicate IsLeast(k: Key, s: set<Key>) {
    k in s && forall j :: j in s && j != k ==> KeyLess(k, j)
  }

  lemma {:induction false} LeastExists(s: set<Key>)
    requires s != {}
    ensures exists k :: IsLeast(k, s)
    decreases |s|
  {
    var x :| x in s;
    if s == {x} {
      assert IsLeast(x, s);
    } else {
      LeastExists(s - {x});
      var m :| IsLeast(m, s - {x});
      KeyLessTotal(x, m);
      if KeyLess(x, m) {
        forall j | j in s && j != x ensures KeyLess(x, j) {
          if j != m { KeyLessTransitive(x, m, j); }
        }
        assert IsLeast(x, s);
      } else {
        assert IsLeast(m, s);
      }
    }
  }

  lemma LeastUnique(k: Key, m: Key, s: set<Key>)
    requires IsLeast(k, s) && IsLeast(m, s)
    ensures k == m
  {
    if k != m { KeyLessAsymmetric(k, m); }
  }

  ghost function LeastKey(s: set<Key>): (k: Key)
    requires s != {}
    ensures IsLeast(k, s)
  {
    LeastExists(s);
    var k :| IsLeast(k, s); k
  }

  /** The keys of `s` in the order a full scan of the store visits them. */
  ghost function ScanOrder(s: set<Key>): (r: seq<Key>)
    ensures forall k :: k in r <==> k in s
    ensures forall i, j :: 0 <= i < j < |r| ==> KeyLess(r[i], r[j])
    decreases |s|
  {
    if s == {} then []
    else
      var m := LeastKey(s);
      var rest := ScanOrder(s - {m});
      assert forall j :: 0 <= j < |rest| ==> rest[j] in s - {m};
      [m] + rest
  }

  lemma ScanOrderStartsWithLeast(k: Key, s: set<Key>)
    requires IsLeast(k, s)
    ensures ScanOrder(s) == [k] + ScanOrder(s - {k})
  {
    LeastUnique(k, LeastKey(s), s);
  }

  /** The stored values under `keys`, in that order. */
  function ValuesAt(store: map<Key, Bytes>, keys: seq<Key>): (r: seq<Bytes>)
    requires forall k :: k in keys ==> k in store
    ensures |r| == |keys| && forall i :: 0 <= i < |keys| ==> r[i] == store[keys[i]]
  {
    if keys == [] then [] else [store[keys[0]]] + ValuesAt(store, keys[1..])
  }

  /** The values of the store in scan order. */
  ghost function ScanValues(store: map<Key, Bytes>): seq<Bytes> {
    ValuesAt(store, ScanOrder(store.Keys))
  }

  /** Every stored value is met by a full scan. */
  lemma ScanValuesContains(store: map<Key, Bytes>, k: Key)
    requires k in store
    ensures store[k] in ScanValues(store)
  {
    var keys := ScanOrder(store.Keys);
    var i :| 0 <= i < |keys| && keys[i] == k;
    assert ScanValues(store)[i] == store[k];
  }

  /** One table of the value box. */
  class ValueBox {
    var entries: map<Key, Bytes>
    ghost var lookups: nat
    /** The key of every write served, oldest first. */
    ghost var written: seq<Key>

    constructor (entries: map<Key, Bytes>)
      ensures this.entries == entries && lookups == 0 && written == []
    {
      this.entries := entries;
      lookups, written := 0, [];
    }

    /** `valueBox.get(table, key:)`. */
    method Get(key: Key) returns (value: Option<Bytes>)
      modifies this`lookups
      ensures value == if key in entries then Some(entries[key]) else None
      ensures lookups == old(lookups) + 1
    {
      value := if key in entries then Some(entries[key]) else None;
      lookups := lookups + 1;
    }

    /** `valueBox.set(table, key:, value:)`. */
    method Set(key: Key, value: Bytes)
      modifies this`entries, this`written
      ensures entries == old(entries)[key := value]
      ensures written == old(written) + [key]
    {
      entries := entries[key := value];
      written := written + [key];
    }

    /** `valueBox.remove(table, key:, secure:)`; removing a missing key is a no-op. */
    method Remove(key: Key)
      modifies this`entries, this`written
      ensures entries == old(entries) - {key}
      ensures written == old(written) + [key]
    {
      entries := entries - {key};
      written := written + [key];
    }
  }
}
