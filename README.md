# Preferences table and secure-id value types, modelled in Dafny

This project models two pieces of the Telegram iOS code base.

**The `PreferencesTable`** of the Postbox database is a cached table of
preferences entries. It sits on top of an ordered key/value store, the value box.
Reads go through an in-memory cache. A miss reads the store once, decodes the
bytes and memoises the result, and it memoises absence too. Writes go only to the
cache and a set of dirty keys; `set` also appends one `update` operation to a
caller-owned log. `beforeCommit` writes each dirty key's cached entry to the store,
or removes the key when the cache records absence, and then clears the dirty set.
`enumerateEntries` scans the store alone, skipping bytes that do not decode, and
stops after the first entry the visitor refuses. `clearMemoryCache` only asserts
that nothing is dirty.

**The secure-id value types** of TelegramCore: `SecureIdGender` with its wire
strings `"male"`/`"female"`, and `SecureIdFileReference`, which is built from
the API's `secureFile` variant and is absent for `secureFileEmpty`.

Files:

- `wrappers.dfy`: `Option`, for Swift's optionals.
- `primitives.dfy`: bytes and the fixed-width integers `Int32` and `Int64`.
- `postbox_coding.dfy`: a stand-in for the root-object codec. A root object is
  written as a 32-bit type hash (little-endian two's complement) followed by its
  field bytes. Decoding looks the hash up in a registry of declared classes.
  A short buffer, an undeclared hash and a class that is not a preferences entry
  all decode to `None`; this is where the `as? PreferencesEntry` cast is folded in.
  Round trip is proved.
- `value_box.dfy`: one table of the value box. Its state is a map from binary keys
  to byte buffers. A ghost counter counts lookups and a ghost log lists the key of
  every write. The scan order is ascending byte-wise key order.
- `preferences_spec.dfy`: the table's state as a value (cache, dirty set, store),
  each operation as a function of that state, and the properties as lemmas.
- `preferences_table.dfy`: the `PreferencesTable` class. Its fields are
  `cachedEntries` (a map), `updatedEntryKeys` (a set), the value box and the
  codec registry. `Get`, `Set` and `BeforeCommit` are proved to move `State()`
  exactly as `AfterRead`, `AfterWrite` and `AfterCommit` say; `EnumerateEntries`
  returns what `Enumerate` hands over for the scanned store; `ClearMemoryCache`
  changes nothing. The class invariant `Valid()` is `WellFormed(State())`.
- `secure_id_data_types.dfy`: gender parsing and serialising, and building a file
  reference from an API file.

The name `clearMemoryCache` suggests that the method drops the cache, but the code
(submodules/Database/PreferencesTable/Sources/PreferencesTable.swift:52-54) only asserts that the dirty set is empty and keeps the cache.
`PreferencesTable.ClearMemoryCache` therefore requires an empty dirty set and
changes nothing. `PreferencesSpec.CleanCacheIsRedundant` shows that, for a
coherent cache with nothing dirty, keeping the cache changes no `get` result
compared with dropping it.

## Model

| member | source | states |
|---|---|---|
| `PostboxCoding.Decode` | submodules/Database/PreferencesTable/Sources/PreferencesTable.swift:24 | decoding fails exactly on a short buffer or on a type hash not declared as a preferences entry; a decoded entry is of a declared preferences class (and, for this stand-in codec, re-encodes to the input bytes) |
| `PostboxCoding.Encode` | submodules/Database/PreferencesTable/Sources/PreferencesTable.swift:60-63 | the encoding of an entry carries its type hash in its first four bytes (they decode back to it) and its field bytes unchanged after them |
| `PostboxCoding.RoundTrip` | submodules/Database/PreferencesTable/Sources/PreferencesTable.swift:59-64 | an entry of a declared preferences class decodes back to itself after encoding |
| `PostboxCoding.UnencodableReadsAsAbsent` | submodules/Database/PreferencesTable/Sources/PreferencesTable.swift:36-41 | an entry whose class is undeclared or is not a preferences entry decodes to absent after encoding |
| `ValueBox.ScanOrder` | submodules/Database/PreferencesTable/Sources/PreferencesTable.swift:23 | a full scan visits every stored key exactly once, in strictly ascending key order |
| `ValueBox.ValueBox.Get` | submodules/Database/PreferencesTable/Sources/PreferencesTable.swift:36 | a lookup returns the stored bytes or absence, and counts one lookup |
| `ValueBox.ValueBox.Set` | submodules/Database/PreferencesTable/Sources/PreferencesTable.swift:63 | a write stores the bytes under the key, and appends the key to the write log |
| `ValueBox.ValueBox.Remove` | submodules/Database/PreferencesTable/Sources/PreferencesTable.swift:66 | a removal deletes the key (a no-op when it is missing), and appends the key to the write log |
| `PreferencesSpec.Read` | submodules/Database/PreferencesTable/Sources/PreferencesTable.swift:32-44 | get answers a cached key from its slot; an uncached key is answered by decoding the bytes the store holds for it, and a present answer is then of a declared preferences class |
| `PreferencesSpec.AfterRead` | submodules/Database/PreferencesTable/Sources/PreferencesTable.swift:32-44 | after get the key has a cache slot, no slot is lost, and the store and the dirty set are unchanged |
| `PreferencesSpec.AfterWrite` | submodules/Database/PreferencesTable/Sources/PreferencesTable.swift:46-48 | after set the key is cached and dirty, the store is unchanged, and the dirty keys stay within the cached keys |
| `PreferencesSpec.AfterCommit` | submodules/Database/PreferencesTable/Sources/PreferencesTable.swift:56-71 | after a commit nothing is dirty, the cache is unchanged, and the only keys the store can gain are dirty ones |
| `PreferencesSpec.Enumerate` | submodules/Database/PreferencesTable/Sources/PreferencesTable.swift:22-29 | the visitor is handed at most one entry per stored value, and only entries of a declared preferences class |
| `PreferencesSpec.GetHit` | submodules/Database/PreferencesTable/Sources/PreferencesTable.swift:33-34 | a cached key is answered from its slot, a cached absence included, and the state does not change |
| `PreferencesSpec.GetMiss` | submodules/Database/PreferencesTable/Sources/PreferencesTable.swift:36-41 | on a miss the answer is present iff the store holds bytes that decode, it is then the entry those bytes decode to, and the answer (absence included) is memoised |
| `PreferencesSpec.GetFrame` | submodules/Database/PreferencesTable/Sources/PreferencesTable.swift:32-44 | get keeps the dirty set and the store, adds at most the slot of its key and keeps every other slot |
| `PreferencesSpec.GetMemoises` | submodules/Database/PreferencesTable/Sources/PreferencesTable.swift:36-41 | a repeated get of a key is a cache hit giving the same answer |
| `PreferencesSpec.ReadAfterWrite` | submodules/Database/PreferencesTable/Sources/PreferencesTable.swift:46-47 | after set(key, v), a get of key is a hit answering v before any commit, and every other key reads as before |
| `PreferencesSpec.SetFrame` | submodules/Database/PreferencesTable/Sources/PreferencesTable.swift:46-49 | set adds the key to the dirty set, leaves the store alone and keeps every other cache slot |
| `PreferencesSpec.LastWriterWins` | submodules/Database/PreferencesTable/Sources/PreferencesTable.swift:47-48 | two sets of one key leave the same state as the last one alone |
| `PreferencesSpec.CommitFlushes` | submodules/Database/PreferencesTable/Sources/PreferencesTable.swift:56-71 | after a commit nothing is dirty and the cache is unchanged; each dirty key holds the encoding of its cached entry, or is gone when the cache records absence; every other key keeps its stored value |
| `PreferencesSpec.CommitWithNothingDirty` | submodules/Database/PreferencesTable/Sources/PreferencesTable.swift:57 | a commit with an empty dirty set changes nothing |
| `PreferencesSpec.CommitIdempotent` | submodules/Database/PreferencesTable/Sources/PreferencesTable.swift:56-72 | two commits in a row have the effect of one |
| `PreferencesSpec.LastWriteIsStored` | submodules/Database/PreferencesTable/Sources/PreferencesTable.swift:58-68 | set(k, a), set(k, b), commit leaves the store as set(k, b), commit would: the encoding of b, or no entry when b is absent |
| `PreferencesSpec.CommittedValueReadsBack` | submodules/Database/PreferencesTable/Sources/PreferencesTable.swift:59-64 | after a commit, a table with an empty cache reads each committed key as the cache held it, when its entry's class is declared |
| `PreferencesSpec.InitialStateCoherent` | submodules/Database/PreferencesTable/Sources/PreferencesTable.swift:15-16 | a fresh table (empty cache, nothing dirty) is well formed and coherent with any store |
| `PreferencesSpec.GetKeepsCoherence` | submodules/Database/PreferencesTable/Sources/PreferencesTable.swift:36-41 | get keeps every clean cache slot in agreement with the store |
| `PreferencesSpec.SetKeepsCoherence` | submodules/Database/PreferencesTable/Sources/PreferencesTable.swift:46-48 | set keeps every clean cache slot in agreement with the store |
| `PreferencesSpec.CommitKeepsCoherence` | submodules/Database/PreferencesTable/Sources/PreferencesTable.swift:56-71 | a commit of declared entries leaves every cache slot in agreement with the store |
| `PreferencesSpec.CleanCacheIsRedundant` | submodules/Database/PreferencesTable/Sources/PreferencesTable.swift:52-54 | with nothing dirty, a coherent cache answers every key as an empty cache over the same store would |
| `PreferencesSpec.EnumerateIsPrefix` | submodules/Database/PreferencesTable/Sources/PreferencesTable.swift:22-29 | the entries handed to the visitor are a prefix of the decodable entries of the scan, in scan order |
| `PreferencesSpec.EnumerateStopsAtFirstRefusal` | submodules/Database/PreferencesTable/Sources/PreferencesTable.swift:25 | every visited entry but the last was accepted; if the scan stops before the decodable entries run out, the last one was refused |
| `PreferencesSpec.EnumerateAllAccepted` | submodules/Database/PreferencesTable/Sources/PreferencesTable.swift:23-28 | a visitor that accepts everything is handed every decodable entry |
| `PreferencesSpec.DecodableContains` | submodules/Database/PreferencesTable/Sources/PreferencesTable.swift:24-27 | every stored value that decodes is among the decodable entries |
| `PreferencesSpec.DecodableOnlyDecoded` | submodules/Database/PreferencesTable/Sources/PreferencesTable.swift:24-27 | every decodable entry is the decoding of some stored value: undecodable values contribute nothing |
| `PreferencesSpec.CommittedEntryIsEnumerated` | submodules/Database/PreferencesTable/Sources/PreferencesTable.swift:22-29 | after a commit, an accept-all enumeration yields every committed entry of a declared class |
| `PreferencesSpec.EnumerateIgnoresCache` | submodules/Database/PreferencesTable/Sources/PreferencesTable.swift:22-29 | get and set do not change what an enumeration visits: it reflects only committed state |
| `PreferencesTable.PreferencesTable.constructor` | submodules/Database/PreferencesTable/Sources/PreferencesTable.swift:15-16 | a new table has an empty cache and an empty dirty set |
| `PreferencesTable.PreferencesTable.EnumerateEntries` | submodules/Database/PreferencesTable/Sources/PreferencesTable.swift:22-30 | the entries handed to the visitor are those of the specification's scan of the store, and the cache is not read |
| `PreferencesTable.PreferencesTable.Get` | submodules/Database/PreferencesTable/Sources/PreferencesTable.swift:32-44 | the result and the new state are those of the specification's read; a hit costs no store lookup, a miss exactly one; nothing is written |
| `PreferencesTable.PreferencesTable.Set` | submodules/Database/PreferencesTable/Sources/PreferencesTable.swift:46-50 | the new state is that of the specification's write, and exactly one update(key, value) is appended to the operations, earlier ones unchanged |
| `PreferencesTable.PreferencesTable.ClearMemoryCache` | submodules/Database/PreferencesTable/Sources/PreferencesTable.swift:52-54 | requires an empty dirty set and changes nothing |
| `PreferencesTable.PreferencesTable.BeforeCommit` | submodules/Database/PreferencesTable/Sources/PreferencesTable.swift:56-72 | the new state is that of the specification's commit; the writes served during the call are exactly the dirty keys, each once, in some order; earlier writes are kept; no lookup is made |
| `PreferencesTable.PreferencesTable.WriteBack` | submodules/Database/PreferencesTable/Sources/PreferencesTable.swift:59-67 | one dirty key is written as the encoding of its cached entry, or removed when the cache has no present entry; the key is logged as one write |
| `SecureIdDataTypes.ParseGender` | TelegramCore/SecureIdDataTypes.swift:38-47 | the string parses as male exactly when it is "male", and as female exactly when it is "female" |
| `SecureIdDataTypes.SerializeGender` | TelegramCore/SecureIdDataTypes.swift:49-56 | the serialised form is always "male" or "female" |
| `SecureIdDataTypes.ParseGenderExact` | TelegramCore/SecureIdDataTypes.swift:38-47 | a string parses to a gender iff it is that gender's serialised form |
| `SecureIdDataTypes.ParseGenderRejectsOthers` | TelegramCore/SecureIdDataTypes.swift:44-45 | every string other than "male" and "female" parses to nil |
| `SecureIdDataTypes.GenderRoundTrip` | TelegramCore/SecureIdDataTypes.swift:38-56 | parsing a serialised gender gives it back |
| `SecureIdDataTypes.SerializeGenderInjective` | TelegramCore/SecureIdDataTypes.swift:49-56 | distinct genders serialise to distinct strings |
| `SecureIdDataTypes.FileReferenceFromApi` | TelegramCore/SecureIdDataTypes.swift:27-34 | an empty API file gives nil; any other gives a reference with every field copied verbatim (dcId as datacenterId, date as timestamp, secret as encryptedSecret) |
| `SecureIdDataTypes.EmptyFileHasNoReference` | TelegramCore/SecureIdDataTypes.swift:31-32 | secureFileEmpty gives no reference |
| `SecureIdDataTypes.FileReferenceFromApiInjective` | TelegramCore/SecureIdDataTypes.swift:29-30 | two API files giving the same reference are equal: no field is dropped |
| `SecureIdDataTypes.FileReferenceFromApiOnto` | TelegramCore/SecureIdDataTypes.swift:29-30 | every file reference arises from some API file: no field is constrained |

## Left out

- PostboxCoding's real byte layout and its class registration are not part of this model. The codec here is a stand-in with the same interface: decoding returns absent for malformed or foreign bytes, and encoding round-trips for declared classes. Declared classes are a registry value held by the table.
- `PostboxCoding.Decode`: the stand-in codec is canonical, so every buffer that decodes is exactly the encoding of the entry it decodes to. The real `PostboxDecoder` need not be (trailing bytes, re-encoding that differs from the stored bytes), and no table property in this model depends on that clause.
- `withExtendedLifetime` and `readBufferNoCopy` are memory-lifetime plumbing; encoding is a pure function of the entry.
- Value box internals are not modelled: durability, transactions, several tables sharing one box, and how keys are kept ordered. The box holds this table's contents as a map. `remove` is always called with `secure: false`, so the flag is not modelled.
- `tableSpec` is left out; it only builds a table descriptor.
- `PreferencesTable.PreferencesTable.EnumerateEntries`: the visitor is a pure function, and the method returns the sequence of entries it hands over instead of the visitor performing side effects.
- `PreferencesTable.PreferencesTable.ClearMemoryCache`: Swift's `assert` is checked only in debug builds; the model makes it a precondition.
- `SecureIdDate.init?(serializedString:)` and `serialize()` are left out. They rely on Foundation's `DateFormatter` (locale, time zone, calendar) and on floating-point time intervals.
- `fileHash.makeData()` and `secret.makeData()` are taken as the identity on byte sequences.
- Threading and the transaction coordinator that calls `beforeCommit` and `clearMemoryCache` are not modelled. The table is single-threaded.
