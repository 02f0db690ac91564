/** An internal key: a user key followed by 8 bytes holding `(sequence << 8) | type`, little-endian. */
module InternalKeys {
  import opened Wrappers
  import opened ByteStrings

  const SUFFIX_LEN := 8

  // One version of a user key, with its value.
  datatype Entry = Entry(key: Bytes, value: Bytes)

  datatype ValueType = Deletion | Value | Merge | SingleDeletion | RangeDeletion | BlobIndex | Other(code: byte)

  function ValueTypeFromByte(b: byte): ValueType {
    if b == 0x0 then Deletion
    else if b == 0x1 then Value
    else if b == 0x2 then Merge
    else if b == 0x7 then SingleDeletion
    else if b == 0xF then RangeDeletion
    else if b == 0x11 then BlobIndex
    else Other(b)
  }

  datatype InternalKey = InternalKey(userKey: Bytes, sequence: nat, valueType: ValueType)

  predicate IsInternalKey(key: Bytes) {
    |key| >= SUFFIX_LEN
  }

  function UserKey(key: Bytes): Bytes
    requires IsInternalKey(key)
  {
    key[..|key| - SUFFIX_LEN]
  }

  function Suffix(key: Bytes): (s: Bytes)
    requires IsInternalKey(key)
    ensures |s| == SUFFIX_LEN
  {
    key[|key| - SUFFIX_LEN..]
  }

  function Packed(key: Bytes): nat
    requires IsInternalKey(key)
  {
    FromLittleEndian(Suffix(key))
  }

  function Sequence(key: Bytes): nat
    requires IsInternalKey(key)
  {
    Packed(key) / 256
  }

  function TypeByte(key: Bytes): byte
    requires IsInternalKey(key)
  {
    Packed(key) % 256
  }

  predicate IsTombstone(key: Bytes)
    requires IsInternalKey(key)
  {
    ValueTypeFromByte(TypeByte(key)) in {Deletion, SingleDeletion}
  }

  function Split(key: Bytes): (r: Result<InternalKey>)
    ensures r.Success? <==> IsInternalKey(key)
  {
    if |key| < SUFFIX_LEN then Failure("internal key shorter than 8-byte seq/type suffix")
    else Success(InternalKey(UserKey(key), Sequence(key), ValueTypeFromByte(TypeByte(key))))
  }

  // A user key and a packed suffix, put together as the writers do.
  function MakeKey(userKey: Bytes, packed: nat): (key: Bytes)
    ensures IsInternalKey(key)
  {
    userKey + LittleEndian(packed, SUFFIX_LEN)
  }

  // Splitting and putting together undo each other, so the parts determine the key.
  lemma MakeKeyRoundTrip(key: Bytes, userKey: Bytes, packed: u64)
    requires IsInternalKey(key)
    ensures MakeKey(UserKey(key), Packed(key)) == key && Packed(key) < U64_LIMIT
    ensures UserKey(MakeKey(userKey, packed)) == userKey && Packed(MakeKey(userKey, packed)) == packed
  {
    LittleEndianInverse(Suffix(key));
    assert UserKey(key) + Suffix(key) == key;
    FromLittleEndianBound(Suffix(key));
    Pow256Values();
    U64RoundTrip(packed);
    assert Suffix(MakeKey(userKey, packed)) == LittleEndian(packed, SUFFIX_LEN);
  }

  // The first suffix byte is the type, the other seven are the sequence number.
  lemma SuffixBytes(key: Bytes)
    requires IsInternalKey(key)
    ensures TypeByte(key) == key[|key| - 8] && Sequence(key) == FromLittleEndian(key[|key| - 7..])
  {
    assert Suffix(key)[1..] == key[|key| - 7..];
  }

  lemma KeyDeterminedByParts(a: Bytes, b: Bytes)
    requires IsInternalKey(a) && IsInternalKey(b)
    requires UserKey(a) == UserKey(b) && Packed(a) == Packed(b)
    ensures a == b
  {
    MakeKeyRoundTrip(a, [], 0);
    MakeKeyRoundTrip(b, [], 0);
  }
}
