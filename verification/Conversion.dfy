/** Identifiers and their raw forms (include/uxr/agent/utils/Conversion.hpp). */
module Conversions {

  import opened Words

  /** Twelve bits of identity, then four bits of kind. */
  datatype ObjectId = ObjectId(high: byte, low: byte)

  datatype ClientKey = ClientKey(b0: byte, b1: byte, b2: byte, b3: byte)

  function ObjectIdToRaw(id: ObjectId): (raw: nat) {
    id.low / 16 + id.high * 16
  }

  function KindOf(id: ObjectId): (kind: nat) {
    id.low % 16
  }

  /** `(prefix[1] & 0xF0) | kind`: the identity of `prefix` with another kind. */
  function WithKind(prefix: ObjectId, kind: nat): ObjectId
    requires kind < 16
  {
    ObjectId(prefix.high, prefix.low / 16 * 16 + kind)
  }

  function RawToObjectId(raw: nat, kind: nat): ObjectId
    requires raw < 0x1000 && kind < 16
  {
    ObjectId(raw / 16, raw % 16 * 16 + kind)
  }

  /** A raw identity and a kind determine an object id, and the other way round. */
  lemma ObjectIdRoundTrip(id: ObjectId, raw: nat, kind: nat)
    requires raw < 0x1000 && kind < 16
    ensures ObjectIdToRaw(id) < 0x1000 && KindOf(id) < 16
    ensures RawToObjectId(ObjectIdToRaw(id), KindOf(id)) == id
    ensures ObjectIdToRaw(RawToObjectId(raw, kind)) == raw && KindOf(RawToObjectId(raw, kind)) == kind
    ensures ObjectIdToRaw(WithKind(id, kind)) == ObjectIdToRaw(id) && KindOf(WithKind(id, kind)) == kind
  {
  }

  /** Digit by digit: an id 0xABCK has the raw form 0xABC and the kind K. */
  lemma ObjectIdDigits(a: nat, b: nat, c: nat, k: nat)
    requires a < 16 && b < 16 && c < 16 && k < 16
    ensures ObjectIdToRaw(ObjectId(a * 16 + b, c * 16 + k)) == a * 0x100 + b * 0x10 + c
    ensures KindOf(ObjectId(a * 16 + b, c * 16 + k)) == k
    ensures WithKind(ObjectId(a * 16 + b, c * 16), k) == ObjectId(a * 16 + b, c * 16 + k)
  {
  }

  lemma WithKindHasKind(prefix: ObjectId, kind: nat)
    requires kind < 16
    ensures KindOf(WithKind(prefix, kind)) == kind
  {
  }

  lemma ObjectIdDetermined(a: ObjectId, b: ObjectId)
    requires ObjectIdToRaw(a) == ObjectIdToRaw(b) && KindOf(a) == KindOf(b)
    ensures a == b
  {
  }

  function ClientKeyToRaw(key: ClientKey): (raw: uint32) {
    key.b0 * 0x100_0000 + key.b1 * 0x1_0000 + key.b2 * 0x100 + key.b3
  }

  function RawToClientKey(raw: uint32): ClientKey {
    ClientKey(raw / 0x100_0000, raw / 0x1_0000 % 0x100, raw / 0x100 % 0x100, raw % 0x100)
  }

  /** The order in which `std::map<ClientKey, ...>` keeps its entries. */
  predicate KeyBefore(a: ClientKey, b: ClientKey) {
    || a.b0 < b.b0
    || (a.b0 == b.b0 && a.b1 < b.b1)
    || (a.b0 == b.b0 && a.b1 == b.b1 && a.b2 < b.b2)
    || (a.b0 == b.b0 && a.b1 == b.b1 && a.b2 == b.b2 && a.b3 < b.b3)
  }

  lemma ClientKeyRoundTrip(key: ClientKey)
    ensures RawToClientKey(ClientKeyToRaw(key)) == key
  {
    var r := ClientKeyToRaw(key);
    assert r / 0x100 == key.b0 * 0x1_0000 + key.b1 * 0x100 + key.b2;
    assert r / 0x1_0000 == key.b0 * 0x100 + key.b1;
    assert r / 0x100_0000 == key.b0;
  }

  lemma RawKeyRoundTrip(raw: uint32)
    ensures ClientKeyToRaw(RawToClientKey(raw)) == raw
  {
    assert raw / 0x1_0000 / 0x100 == raw / 0x100_0000;
    assert raw / 0x100 / 0x100 == raw / 0x1_0000;
  }

  /** Raw keys are ordered like the keys themselves, so a map over raw keys has the iteration order of the source's
      map. */
  lemma RawKeepsKeyOrder(a: ClientKey, b: ClientKey)
    ensures KeyBefore(a, b) <==> ClientKeyToRaw(a) < ClientKeyToRaw(b)
  {
  }
}
