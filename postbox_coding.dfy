/**
 * A stand-in for the PostboxCoding root-object codec that the preferences table
 * uses. A root object is written as its class's 32-bit type hash (four bytes,
 * little-endian two's complement) followed by the bytes of its fields. Decoding
 * looks the type hash up in a registry of declared classes: a buffer that is too
 * short, a type hash that was never declared, and a declared class that is not a
 * preferences entry all decode to `None`, which folds in the `as? PreferencesEntry`
 * cast of the table.
 */
module PostboxCoding {
  import opened Wrappers
  import opened Primitives

  /** What a declared type hash decodes to. */
  datatype ObjectClass = PreferencesEntryClass | OtherClass

  /** The classes declared to the decoder, by type hash. */
  type Registry = map<int32, ObjectClass>

  /** A `PreferencesEntry` value: its concrete class and its encoded fields. */
  datatype PreferencesEntry = PreferencesEntry(typeHash: int32, fields: Bytes)

  predicate IsPreferencesClass(registry: Registry, typeHash: int32) {
    typeHash in registry && registry[typeHash] == PreferencesEntryClass
  }

  /** An entry whose class is declared as a preferences entry: the decoder can read it back. */
  predicate Encodable(registry: Registry, entry: PreferencesEntry) {
    IsPreferencesClass(registry, entry.typeHash)
  }

  function EncodeInt32(x: int32): (r: Bytes)
    ensures |r| == 4
  {
    var u := if x < 0 then x as int + 0x1_0000_0000 else x as int;
    var q1 := u / 0x100;
    var q2 := q1 / 0x100;
    var q3 := q2 / 0x100;
    [(u % 0x100) as byte, (q1 % 0x100) as byte, (q2 % 0x100) as byte, q3 as byte]
  }

  function DecodeInt32(b: Bytes): int32
    requires |b| == 4
  {
    var u := b[0] as int + 0x100 * (b[1] as int + 0x100 * (b[2] as int + 0x100 * b[3] as int));
    (if u < 0x8000_0000 then u else u - 0x1_0000_0000) as int32
  }

  lemma Int32RoundTrip(x: int32)
    ensures DecodeInt32(EncodeInt32(x)) == x
  {
    var u := if x < 0 then x as int + 0x1_0000_0000 else x as int;
    var q1 := u / 0x100;
    var q2 := q1 / 0x100;
    var q3 := q2 / 0x100;
    assert u == u % 0x100 + 0x100 * q1;
    assert q1 == q1 % 0x100 + 0x100 * q2;
    assert q2 == q2 % 0x100 + 0x100 * q3;
  }

  lemma Int32BufferRoundTrip(b: Bytes)
    requires |b| == 4
    ensures EncodeInt32(DecodeInt32(b)) == b
  {
    var u := b[0] as int + 0x100 * (b[1] as int + 0x100 * (b[2] as int + 0x100 * b[3] as int));
    var q1 := b[1] as int + 0x100 * (b[2] as int + 0x100 * b[3] as int);
    var q2 := b[2] as int + 0x100 * b[3] as int;
    assert u / 0x100 == q1 && u % 0x100 == b[0] as int;
    assert q1 / 0x100 == q2 && q1 % 0x100 == b[1] as int;
    assert q2 / 0x100 == b[3] as int && q2 % 0x100 == b[2] as int;
  }

  /** `PostboxEncoder.encodeRootObject` followed by `readBufferNoCopy`. */
  function Encode(entry: PreferencesEntry): (r: Bytes)
    ensures |r| == 4 + |entry.fields| && r[4..] == entry.fields
    ensures DecodeInt32(r[..4]) == entry.typeHash
  {
    Int32RoundTrip(entry.typeHash);
    var r := EncodeInt32(entry.typeHash) + entry.fields;
    assert r[..4] == EncodeInt32(entry.typeHash);
    r
  }

  /** `PostboxDecoder(buffer:).decodeRootObject() as? PreferencesEntry`. */
  function Decode(registry: Registry, buffer: Bytes): (r: Option<PreferencesEntry>)
    ensures r.None? <==> |buffer| < 4 || !IsPreferencesClass(registry, DecodeInt32(buffer[..4]))
    ensures r.Some? ==> Encodable(registry, r.value) && Encode(r.value) == buffer
  {
    if |buffer| < 4 then None
    else
      var typeHash := DecodeInt32(buffer[..4]);
      if IsPreferencesClass(registry, typeHash) then
        Int32BufferRoundTrip(buffer[..4]);
        assert buffer == buffer[..4] + buffer[4..];
        Some(PreferencesEntry(typeHash, buffer[4..]))
      else None
  }

  /** Every entry of a declared preferences class survives encoding and decoding. */
  lemma RoundTrip(registry: Registry, entry: PreferencesEntry)
    requires Encodable(registry, entry)
    ensures Decode(registry, Encode(entry)) == Some(entry)
  {
    var b := Encode(entry);
    assert b[..4] == EncodeInt32(entry.typeHash);
    Int32RoundTrip(entry.typeHash);
  }

  /** An entry of an undeclared class, or of a class that is not a preferences entry, reads back as absent. */
  lemma UnencodableReadsAsAbsent(registry: Registry, entry: PreferencesEntry)
    requires !Encodable(registry, entry)
    ensures Decode(registry, Encode(entry)) == None
  {
    var b := Encode(entry);
    assert b[..4] == EncodeInt32(entry.typeHash);
    Int32RoundTrip(entry.typeHash);
  }
}
