/** Size buckets, the padded plaintexts inside them, and the per-record seals around those. */
module Sealing {
  import opened Bytes
  import opened Crypto
  import opened Text
  import opened Wrappers

  const NAME_BUCKET: nat := 64
  const VALUE_BUCKET: nat := 256
  const COUNT_BUCKET: nat := 8
  const MAX_NAME_LEN: nat := 4096
  const REAL: byte := 0
  const TOMBSTONE: byte := 1

  function PaddedLen(unpadded: nat, bucket: nat): nat
    requires bucket > 0
  {
    var full := (unpadded + bucket - 1) / bucket;
    (if full == 0 then 1 else full) * bucket
  }

  /** The padded length is the least positive multiple of the bucket that holds the argument. */
  lemma PaddedLenIsLeast(unpadded: nat, bucket: nat, k: nat)
    requires bucket > 0 && k > 0
    ensures unpadded <= k * bucket <==> PaddedLen(unpadded, bucket) <= k * bucket
    ensures exists m: nat :: m > 0 && PaddedLen(unpadded, bucket) == m * bucket
  {
    var full := (unpadded + bucket - 1) / bucket;
    var m: nat := if full == 0 then 1 else full;
    assert PaddedLen(unpadded, bucket) == m * bucket;
    Ceiling(unpadded, bucket);
    if unpadded <= k * bucket {
      assert k >= full by {
        if k < full {
          assert k * bucket <= (full - 1) * bucket by { Monotone(k, full - 1, bucket); }
        }
      }
      Monotone(m, k, bucket);
    } else {
      Monotone(full, m, bucket);
    }
  }

  lemma Ceiling(n: nat, b: nat)
    requires b > 0
    ensures var full := (n + b - 1) / b; full * b >= n && (full - 1) * b < n
  {
    var full := (n + b - 1) / b;
    assert n + b - 1 == b * full + (n + b - 1) % b;
    assert (full - 1) * b == full * b - b;
  }

  lemma Monotone(a: int, b: int, m: nat)
    requires a <= b
    ensures a * m <= b * m
  {
  }

  /** A plaintext that fits one bucket is padded to exactly that bucket. */
  lemma OneBucket(n: nat, b: nat)
    requires b > 0 && n <= b
    ensures PaddedLen(n, b) == b
  {
    PaddedLenIsLeast(n, b, 1);
    var m: nat :| m > 0 && PaddedLen(n, b) == m * b;
    Monotone(1, m, b);
  }

  lemma PaddedCovers(n: nat, b: nat)
    requires b > 0
    ensures n <= PaddedLen(n, b)
    ensures b <= PaddedLen(n, b)
  {
    PaddedLenIsLeast(n, b, 1);
    var m: nat :| m > 0 && PaddedLen(n, b) == m * b;
    PaddedLenIsLeast(n, b, m);
    Monotone(1, m, b);
  }

  // ---------- plaintexts ----------

  /** `kind ‖ len ‖ name`, zero-padded to a name bucket. */
  function EncodeName(kind: byte, name: bytes): (p: bytes)
    ensures |p| == PaddedLen(5 + |name|, NAME_BUCKET)
  {
    PaddedCovers(5 + |name|, NAME_BUCKET);
    [kind] + LE(|name|, 4) + name + Zeros(PaddedLen(5 + |name|, NAME_BUCKET) - 5 - |name|)
  }

  /** `None` for a tombstone, the name for a real record. */
  function DecodeName(p: bytes): Result<Option<Text>> {
    if |p| < 5 then Err(Format(NameTooShort)) else
    var len := FromLE(p[1..5]);
    if len > MAX_NAME_LEN || 5 + len > |p| then Err(Format(NameRange))
    else if p[0] == TOMBSTONE then Ok(None)
    else if p[0] != REAL then Err(Format(BadKind))
    else if ValidUtf8(p[5..5 + len]) then Ok(Some(p[5..5 + len]))
    else Err(Format(RecordNameUtf8))
  }

  /** `len ‖ value`, zero-padded to a value bucket. */
  function EncodeValue(value: bytes): (p: bytes)
    ensures |p| == PaddedLen(4 + |value|, VALUE_BUCKET)
  {
    PaddedCovers(4 + |value|, VALUE_BUCKET);
    LE(|value|, 4) + value + Zeros(PaddedLen(4 + |value|, VALUE_BUCKET) - 4 - |value|)
  }

  function DecodeValue(p: bytes): Result<bytes> {
    if |p| < 4 then Err(Format(ValueTooShort)) else
    var len := FromLE(p[0..4]);
    if 4 + len > |p| then Err(Format(ValueRange)) else Ok(p[4..4 + len])
  }

  lemma EncodedLength(v: bytes, p: bytes, at: nat)
    requires at + 4 <= |p| && p[at..at + 4] == LE(|v|, 4)
    ensures FromLE(p[at..at + 4]) == |v| % U32_LIMIT
  {
    FromLEOfLE(|v|, 4);
    PowerValues();
  }

  lemma NameLayout(kind: byte, name: bytes)
    ensures var p := EncodeName(kind, name);
            && |p| >= 5 + |name| && p[0] == kind && p[5..5 + |name|] == name
            && FromLE(p[1..5]) == |name| % U32_LIMIT
  {
    var p := EncodeName(kind, name);
    PaddedCovers(5 + |name|, NAME_BUCKET);
    assert p[1..5] == LE(|name|, 4);
    EncodedLength(name, p, 1);
  }

  predicate BeginsAs(p: bytes, kind: byte, body: bytes) {
    [kind] + LE(|body|, 4) + body <= p
  }

  /** The name decoder takes for a record exactly the plaintexts that begin with kind 0, a length of at most 4096
      and that many bytes of text, whatever the padding. */
  lemma DecodeNameIff(p: bytes, name: Text)
    ensures DecodeName(p) == Ok(Some(name)) <==> |name| <= 4096 && BeginsAs(p, 0, name)
  {
    hide LE, FromLE, ValidUtf8, DecodeName, BeginsAs;
    DecodeNameParts(p);
    if |name| <= 4096 {
      NamePrefixIff(p, 0, name);
    }
  }

  /** And for a tombstone those that begin with kind 1, such a length and that many bytes of anything. */
  lemma DecodeTombstoneIff(p: bytes)
    ensures DecodeName(p) == Ok(None) <==> exists junk: bytes :: |junk| <= 4096 && BeginsAs(p, 1, junk)
  {
    hide LE, FromLE, ValidUtf8, DecodeName, BeginsAs;
    DecodeNameParts(p);
    forall junk: bytes | |junk| <= 4096
      ensures BeginsAs(p, 1, junk) ==> DecodeName(p) == Ok(None)
    {
      NamePrefixIff(p, 1, junk);
    }
    if DecodeName(p) == Ok(None) {
      NamePrefixIff(p, 1, p[5..5 + FromLE(p[1..5])]);
    }
  }

  lemma DecodeNameParts(p: bytes)
    ensures DecodeName(p).Ok? <==>
              && |p| >= 5 && FromLE(p[1..5]) <= 4096 && 5 + FromLE(p[1..5]) <= |p|
              && (p[0] == 1 || (p[0] == 0 && ValidUtf8(p[5..5 + FromLE(p[1..5])])))
    ensures DecodeName(p).Ok? ==>
              DecodeName(p) == Ok(if p[0] == 1 then None else Some(p[5..5 + FromLE(p[1..5])]))
  {
    hide FromLE, ValidUtf8;
  }

  lemma NamePrefixIff(p: bytes, kind: byte, body: bytes)
    requires |body| <= 4096
    ensures BeginsAs(p, kind, body) <==>
              && |p| >= 5 && p[0] == kind && FromLE(p[1..5]) == |body| && 5 + |body| <= |p|
              && p[5..5 + |body|] == body
  {
    hide LE, FromLE;
    StartsWithTwo(p, [kind] + LE(|body|, 4), body);
    if |p| >= 5 {
      LengthIff(p[1..5], |body|);
      assert p[..5] == [p[0]] + p[1..5];
    }
  }

  lemma LengthIff(b: bytes, n: nat)
    requires |b| == 4 && n < U32_LIMIT
    ensures b == LE(n, 4) <==> FromLE(b) == n
  {
    hide LE, FromLE, Pow256;
    PowerValues();
    FromLEOfLE(n, 4);
    LEOfFromLE(b);
    SmallMod(n, U32_LIMIT);
  }

  /** The value decoder: exactly those that begin with the length and that many bytes. */
  lemma DecodeValueIff(p: bytes, v: bytes)
    ensures DecodeValue(p) == Ok(v) <==> |v| < U32_LIMIT && LE(|v|, 4) + v <= p
  {
    hide LE, FromLE, Pow256;
    StartsWithTwo(p, LE(|v|, 4), v);
    if |p| >= 4 {
      PowerValues();
      LEOfFromLE(p[..4]);
      if |v| < U32_LIMIT {
        LengthIff(p[..4], |v|);
      }
    }
  }

  /** The plaintexts hold the content and nothing else: what pads them to the bucket is zero. */
  lemma PaddingIsZero(kind: byte, content: bytes)
    ensures var p := EncodeName(kind, content);
            p == [kind] + LE(|content|, 4) + content + Zeros(|p| - 5 - |content|)
    ensures var p := EncodeValue(content);
            p == LE(|content|, 4) + content + Zeros(|p| - 4 - |content|)
  {
    hide LE;
    PaddedCovers(5 + |content|, NAME_BUCKET);
    PaddedCovers(4 + |content|, VALUE_BUCKET);
  }

  /** Decoding undoes encoding on exactly the names of at most 4096 bytes: the writer has no such limit. */
  lemma NameRoundTrip(name: Text)
    ensures DecodeName(EncodeName(REAL, name)) == Ok(Some(name)) <==> |name| <= MAX_NAME_LEN
    ensures |name| < U32_LIMIT && |name| > MAX_NAME_LEN ==>
              DecodeName(EncodeName(REAL, name)) == Err(Format(NameRange))
  {
    hide EncodeName, FromLE, PaddedLen;
    var p := EncodeName(REAL, name);
    NameLayout(REAL, name);
    if |name| <= MAX_NAME_LEN {
      assert |name| % U32_LIMIT == |name|;
    }
  }

  lemma TombstoneRoundTrip()
    ensures DecodeName(EncodeName(TOMBSTONE, [])) == Ok(None)
  {
    NameLayout(TOMBSTONE, []);
  }

  /** Values have no ceiling of their own, only the width of their length prefix. */
  lemma ValueRoundTrip(value: bytes)
    ensures DecodeValue(EncodeValue(value)) == Ok(value) <==> |value| < U32_LIMIT
  {
    var p := EncodeValue(value);
    PaddedCovers(4 + |value|, VALUE_BUCKET);
    assert p[0..4] == LE(|value|, 4);
    EncodedLength(value, p, 0);
    if |value| < U32_LIMIT {
      assert p[4..4 + |value|] == value;
    }
  }

  // ---------- seals ----------

  const NAME_LABEL := Ascii("record-name-v3")
  const VALUE_LABEL := Ascii("record-value-v3")
  const LEGACY_LABEL := Ascii("record")

  function Info(tag: bytes, id: u128): bytes {
    tag + LE(id, 16)
  }

  function Subkey(c: Suite, dek: bytes, tag: bytes, id: u128): bytes {
    c.hkdf(dek, Info(tag, id))
  }

  function RecordAad(id: u128, version: u16): bytes {
    LE(id, 16) + LE(version, 2)
  }

  function LegacyAad(id: u128, name: bytes): bytes {
    LE(id, 16) + LE(2, 2) + name
  }

  lemma TagLengths()
    ensures |NAME_LABEL| == 14 && |VALUE_LABEL| == 15 && |LEGACY_LABEL| == 6
    ensures |Ascii("header-mac")| == 10
  {
  }

  lemma SuffixId(tag: bytes, id: u128)
    ensures |Info(tag, id)| == |tag| + 16
    ensures FromLE(Info(tag, id)[|tag|..]) == id && Info(tag, id)[..|tag|] == tag
  {
    FromLEOfLE(id, 16);
    PowerValues();
    assert FromLE(LE(id, 16)) == id;
  }

  /** No two uses of the DEK share a derivation input: the tag and the id can be read back from it. */
  lemma InfosDistinct(l1: bytes, id1: u128, l2: bytes, id2: u128)
    requires l1 in [NAME_LABEL, VALUE_LABEL, LEGACY_LABEL] && l2 in [NAME_LABEL, VALUE_LABEL, LEGACY_LABEL]
    ensures Info(l1, id1) == Info(l2, id2) ==> l1 == l2 && id1 == id2
    ensures Info(l1, id1) != Ascii("header-mac")
  {
    hide Info, Ascii, FromLE;
    TagLengths();
    SuffixId(l1, id1);
    SuffixId(l2, id2);
  }

  /** Associated data ties a seal to its record and format: the record, the version and, for the legacy
      format, the name can be read back from it, and no legacy data is current data. */
  lemma AadsBind(id1: u128, v1: u16, id2: u128, v2: u16, n1: bytes, n2: bytes)
    ensures RecordAad(id1, v1) == RecordAad(id2, v2) <==> id1 == id2 && v1 == v2
    ensures LegacyAad(id1, n1) == LegacyAad(id2, n2) <==> id1 == id2 && n1 == n2
    ensures v1 != 2 ==> RecordAad(id1, v1) != LegacyAad(id2, n2)
  {
    hide LE, FromLE, Pow256;
    AadParts(id1, v1, n1);
    AadParts(id2, v2, n2);
  }

  lemma AadParts(id: u128, v: u16, name: bytes)
    ensures |RecordAad(id, v)| == 18 && |LegacyAad(id, name)| == 18 + |name|
    ensures FromLE(RecordAad(id, v)[..16]) == id && FromLE(RecordAad(id, v)[16..18]) == v
    ensures FromLE(LegacyAad(id, name)[..16]) == id && FromLE(LegacyAad(id, name)[16..18]) == 2
    ensures LegacyAad(id, name)[18..] == name
  {
    hide LE, FromLE, Pow256;
    FromLEOfLE(id, 16);
    FromLEOfLE(v, 2);
    FromLEOfLE(2, 2);
    PowerValues();
    assert RecordAad(id, v)[..16] == LE(id, 16) && RecordAad(id, v)[16..18] == LE(v, 2);
    assert LegacyAad(id, name)[..16] == LE(id, 16) && LegacyAad(id, name)[16..18] == LE(2, 2);
  }

  function SealName(c: Suite, dek: bytes, id: u128, version: u16, kind: byte, name: bytes, nonce: bytes): bytes {
    c.seal(Subkey(c, dek, NAME_LABEL, id), RecordAad(id, version), nonce, EncodeName(kind, name))
  }

  function SealValue(c: Suite, dek: bytes, id: u128, version: u16, value: bytes, nonce: bytes): bytes {
    c.seal(Subkey(c, dek, VALUE_LABEL, id), RecordAad(id, version), nonce, EncodeValue(value))
  }

  function OpenName(c: Suite, dek: bytes, id: u128, version: u16, ct: bytes): Result<Option<Text>> {
    var p :- AeadOpen(c, Subkey(c, dek, NAME_LABEL, id), RecordAad(id, version), ct);
    DecodeName(p)
  }

  /** What `get` does with a record: open, strip the padding, insist on UTF-8. */
  function OpenValue(c: Suite, dek: bytes, id: u128, version: u16, ct: bytes): Result<Text> {
    var p :- AeadOpen(c, Subkey(c, dek, VALUE_LABEL, id), RecordAad(id, version), ct);
    var v :- DecodeValue(p);
    if ValidUtf8(v) then Ok(v) else Err(Format(ValueUtf8))
  }

  /** Sealed size of a name or a value, nonce and tag included. */
  function NameCtLen(n: nat): nat {
    PaddedLen(5 + n, NAME_BUCKET) + 40
  }

  function ValueCtLen(n: nat): nat {
    PaddedLen(4 + n, VALUE_BUCKET) + 40
  }

  lemma OpenSealedName(c: Suite, dek: bytes, id: u128, version: u16, name: Text, nonce: bytes)
    requires c.Lawful() && |nonce| == NONCE_LEN && |name| < U32_LIMIT
    ensures var ct := SealName(c, dek, id, version, REAL, name, nonce);
            && |ct| == NameCtLen(|name|)
            && OpenName(c, dek, id, version, ct) ==
               if |name| <= MAX_NAME_LEN then Ok(Some(name)) else Err(Format(NameRange))
  {
    OpenSealed(c, Subkey(c, dek, NAME_LABEL, id), RecordAad(id, version), nonce, EncodeName(REAL, name));
    NameRoundTrip(name);
  }

  lemma OpenSealedTombstone(c: Suite, dek: bytes, id: u128, version: u16, nonce: bytes)
    requires c.Lawful() && |nonce| == NONCE_LEN
    ensures var ct := SealName(c, dek, id, version, TOMBSTONE, [], nonce);
            |ct| == NameCtLen(0) && OpenName(c, dek, id, version, ct) == Ok(None)
  {
    OpenSealed(c, Subkey(c, dek, NAME_LABEL, id), RecordAad(id, version), nonce, EncodeName(TOMBSTONE, []));
    TombstoneRoundTrip();
  }

  lemma OpenSealedValue(c: Suite, dek: bytes, id: u128, version: u16, value: bytes, nonce: bytes)
    requires c.Lawful() && |nonce| == NONCE_LEN && |value| < U32_LIMIT
    ensures var ct := SealValue(c, dek, id, version, value, nonce);
            && |ct| == ValueCtLen(|value|)
            && OpenValue(c, dek, id, version, ct) == if ValidUtf8(value) then Ok(value) else Err(Format(ValueUtf8))
  {
    OpenSealed(c, Subkey(c, dek, VALUE_LABEL, id), RecordAad(id, version), nonce, EncodeValue(value));
    ValueRoundTrip(value);
  }

  // ---------- the wrong key, the wrong place ----------

  /** A sealed value opens under exactly the DEK it was sealed under, or one on which HKDF collides with it. */
  lemma ValueNeedsTheDek(c: Suite, dek: bytes, other: bytes, id: u128, version: u16, value: Text, nonce: bytes)
    requires c.Lawful() && |nonce| == NONCE_LEN && |value| < U32_LIMIT
    requires OpensOnlyUnder(c, c.hkdf(dek, Ascii("record-value-v3") + LE(id, 16)), LE(id, 16) + LE(version, 2),
                            SealValue(c, dek, id, version, value, nonce))
    ensures var ct := SealValue(c, dek, id, version, value, nonce);
            && (OpenValue(c, other, id, version, ct) == Ok(value)
                <==> other == dek || HkdfCollides(c, dek, other, Ascii("record-value-v3") + LE(id, 16)))
            && (OpenValue(c, other, id, version, ct).Ok? ==> OpenValue(c, other, id, version, ct) == Ok(value))
  {
    hide EncodeValue, DecodeValue, LE, Ascii, ValidUtf8;
    OpenSealedValue(c, dek, id, version, value, nonce);
  }

  /** So does a sealed name, and a tombstone is known for one only by the DEK. */
  lemma NameNeedsTheDek(c: Suite, dek: bytes, other: bytes, id: u128, version: u16, kind: byte, name: Text,
                        nonce: bytes)
    requires c.Lawful() && |nonce| == NONCE_LEN && |name| <= MAX_NAME_LEN
    requires kind == REAL || (kind == TOMBSTONE && name == [])
    requires OpensOnlyUnder(c, c.hkdf(dek, Ascii("record-name-v3") + LE(id, 16)), LE(id, 16) + LE(version, 2),
                            SealName(c, dek, id, version, kind, name, nonce))
    ensures var ct := SealName(c, dek, id, version, kind, name, nonce);
            OpenName(c, other, id, version, ct).Ok?
            <==> other == dek || HkdfCollides(c, dek, other, Ascii("record-name-v3") + LE(id, 16))
  {
    hide EncodeName, DecodeName, LE, Ascii, ValidUtf8;
    if kind == REAL {
      OpenSealedName(c, dek, id, version, name, nonce);
    } else {
      OpenSealedTombstone(c, dek, id, version, nonce);
    }
  }

  /** A sealed blob made for one record and version opens, as a name or as a value, in no other place. */
  lemma SealStaysInPlace(c: Suite, k: bytes, id: u128, version: u16, id': u128, version': u16, blob: bytes)
    requires OpensOnlyWith(c, LE(id, 16) + LE(version, 2), blob)
    requires OpenName(c, k, id', version', blob).Ok? || OpenValue(c, k, id', version', blob).Ok?
    ensures id' == id && version' == version
  {
    hide LE, DecodeName, DecodeValue, ValidUtf8;
    AadsBind(id, version, id', version', [], []);
  }

  /** A sealed value offered as the name of its record, under any DEK, opens only if HKDF collides on two
      different inputs: each has its own subkey. */
  lemma ValueIsNoName(c: Suite, dek: bytes, k: bytes, id: u128, version: u16, blob: bytes)
    requires OpensOnlyUnder(c, c.hkdf(dek, Ascii("record-value-v3") + LE(id, 16)), LE(id, 16) + LE(version, 2), blob)
    requires OpenName(c, k, id, version, blob).Ok?
    ensures Ascii("record-name-v3") + LE(id, 16) != Ascii("record-value-v3") + LE(id, 16)
    ensures c.hkdf(k, Ascii("record-name-v3") + LE(id, 16)) == c.hkdf(dek, Ascii("record-value-v3") + LE(id, 16))
  {
    hide LE, DecodeName, ValidUtf8, Ascii;
    TagLengths();
  }

  /** And the other way round. */
  lemma NameIsNoValue(c: Suite, dek: bytes, k: bytes, id: u128, version: u16, blob: bytes)
    requires OpensOnlyUnder(c, c.hkdf(dek, Ascii("record-name-v3") + LE(id, 16)), LE(id, 16) + LE(version, 2), blob)
    requires OpenValue(c, k, id, version, blob).Ok?
    ensures Ascii("record-value-v3") + LE(id, 16) != Ascii("record-name-v3") + LE(id, 16)
    ensures c.hkdf(k, Ascii("record-value-v3") + LE(id, 16)) == c.hkdf(dek, Ascii("record-name-v3") + LE(id, 16))
  {
    hide LE, DecodeValue, ValidUtf8, Ascii;
    TagLengths();
  }
}
