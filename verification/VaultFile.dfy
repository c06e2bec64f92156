/** Record framing, the whole-file parser, and the byte string the header MAC covers. */
module VaultFile {
  import opened Bytes
  import opened Crypto
  import opened Header
  import opened Reader
  import opened Text
  import opened Wrappers

  datatype RawRecord = RawRecord(id: u128, nameCt: bytes, valueCt: bytes)

  /** The legacy record: its name is stored in the clear. */
  datatype RawRecordV2 = RawRecordV2(id: u128, name: Text, ct: bytes)

  datatype RecordsRaw = V2(v2: seq<RawRecordV2>) | V3(v3: seq<RawRecord>)

  datatype LockedVault = LockedVault(header: VaultHeader, records: RecordsRaw, fingerprint: bytes)

  // ---------- printing ----------

  function PutRaw(r: RawRecord, rest: bytes): bytes {
    LE(r.id, 16) + PutBlob(r.nameCt, PutBlob(r.valueCt, rest))
  }

  function PutRaws(rs: seq<RawRecord>, rest: bytes): bytes {
    if rs == [] then rest else PutRaw(rs[0], PutRaws(rs[1..], rest))
  }

  /** A legacy record has the framing of a current one whose "name ciphertext" is the name. */
  function AsRaw(r: RawRecordV2): RawRecord {
    RawRecord(r.id, r.name, r.ct)
  }

  function AsRaws(rs: seq<RawRecordV2>): (raws: seq<RawRecord>)
    ensures |raws| == |rs|
    ensures forall i :: 0 <= i < |rs| ==> raws[i] == AsRaw(rs[i])
  {
    seq(|rs|, i requires 0 <= i < |rs| => AsRaw(rs[i]))
  }

  predicate RecordFits(r: RawRecord) {
    |r.nameCt| < U32_LIMIT && |r.valueCt| < U32_LIMIT
  }

  predicate RecordsFit(rs: seq<RawRecord>) {
    |rs| < U32_LIMIT && forall i :: 0 <= i < |rs| ==> RecordFits(rs[i])
  }

  predicate HeaderFits(h: VaultHeader) {
    WellFormed(h) && |HeaderBytes(h)| < U32_LIMIT
  }

  function RecordSet(rs: seq<RawRecord>): bytes {
    LE(|rs|, 4) + PutRaws(rs, [])
  }

  function FileBytes(h: VaultHeader, rs: seq<RawRecord>): bytes {
    PutBlob(HeaderBytes(h), RecordSet(rs))
  }

  // ---------- parsing ----------

  function ReadRaw(s: bytes): Parse<RawRecord> {
    var (id, r1) :- ReadU128(s);
    var (name, r2) :- ReadBlob(r1);
    var (value, r3) :- ReadBlob(r2);
    Ok((RawRecord(id, name, value), r3))
  }

  function ReadRawV2(s: bytes): Parse<RawRecordV2> {
    var (id, r1) :- ReadU128(s);
    var (name, r2) :- ReadBlob(r1);
    if !ValidUtf8(name) then Err(Format(RecordNameUtf8)) else
    var (ct, r3) :- ReadBlob(r2);
    Ok((RawRecordV2(id, name, ct), r3))
  }

  function ReadRaws(s: bytes, n: nat, acc: seq<RawRecord>): Parse<seq<RawRecord>>
    decreases n
  {
    if n == 0 then Ok((acc, s))
    else
      var (r, rest) :- ReadRaw(s);
      ReadRaws(rest, n - 1, acc + [r])
  }

  function ReadRawsV2(s: bytes, n: nat, acc: seq<RawRecordV2>): Parse<seq<RawRecordV2>>
    decreases n
  {
    if n == 0 then Ok((acc, s))
    else
      var (r, rest) :- ReadRawV2(s);
      ReadRawsV2(rest, n - 1, acc + [r])
  }

  /** The framing below the header follows the format version the header claims. */
  function ReadRecordSet(version: u16, s: bytes): Parse<RecordsRaw> {
    var (n, r) :- ReadU32(s);
    if version == 2 then
      var (v, rest) :- ReadRawsV2(r, n, []);
      Ok((V2(v), rest))
    else
      var (v, rest) :- ReadRaws(r, n, []);
      Ok((V3(v), rest))
  }

  function ReadFile(d: bytes): Parse<(VaultHeader, RecordsRaw)> {
    var (hb, r1) :- ReadBlob(d);
    var h :- ParseHeader(hb);
    var (records, r2) :- ReadRecordSet(h.formatVersion, r1);
    Ok(((h, records), r2))
  }

  /** `LockedVault::load_from_bytes`. */
  function Load(c: Suite, d: bytes): Result<LockedVault> {
    var ((h, records), _) :- ReadFile(d);
    Ok(LockedVault(h, records, c.sha256(d)))
  }

  // ---------- what is printed loads ----------

  lemma ReadBackRaw(r: RawRecord, rest: bytes)
    requires RecordFits(r)
    ensures ReadRaw(PutRaw(r, rest)) == Ok((r, rest))
  {
    ReadBack128(r.id, PutBlob(r.nameCt, PutBlob(r.valueCt, rest)));
    ReadBackBlob(r.nameCt, PutBlob(r.valueCt, rest));
    ReadBackBlob(r.valueCt, rest);
  }

  lemma {:induction false} ReadBackRaws(rs: seq<RawRecord>, rest: bytes, acc: seq<RawRecord>)
    requires forall i :: 0 <= i < |rs| ==> RecordFits(rs[i])
    ensures ReadRaws(PutRaws(rs, rest), |rs|, acc) == Ok((acc + rs, rest))
  {
    hide ReadRaw, PutRaw, ReadBlob, ReadU128, Split;
    if rs == [] {
      assert acc + rs == acc;
    } else {
      ReadBackRaw(rs[0], PutRaws(rs[1..], rest));
      ReadBackRaws(rs[1..], rest, acc + [rs[0]]);
      assert acc + [rs[0]] + rs[1..] == acc + rs;
    }
  }

  lemma ReadBackRawV2(r: RawRecordV2, rest: bytes)
    requires RecordFits(AsRaw(r))
    ensures ReadRawV2(PutRaw(AsRaw(r), rest)) == Ok((r, rest))
  {
    ReadBack128(r.id, PutBlob(r.name, PutBlob(r.ct, rest)));
    ReadBackBlob(r.name, PutBlob(r.ct, rest));
    ReadBackBlob(r.ct, rest);
  }

  lemma {:induction false} ReadBackRawsV2(rs: seq<RawRecordV2>, rest: bytes, acc: seq<RawRecordV2>)
    requires forall i :: 0 <= i < |rs| ==> RecordFits(AsRaw(rs[i]))
    ensures ReadRawsV2(PutRaws(AsRaws(rs), rest), |rs|, acc) == Ok((acc + rs, rest))
  {
    hide ReadRawV2, PutRaw, ReadBlob, ReadU128, Split;
    if rs == [] {
      assert acc + rs == acc;
    } else {
      assert AsRaws(rs)[1..] == AsRaws(rs[1..]);
      ReadBackRawV2(rs[0], PutRaws(AsRaws(rs[1..]), rest));
      ReadBackRawsV2(rs[1..], rest, acc + [rs[0]]);
      assert acc + [rs[0]] + rs[1..] == acc + rs;
    }
  }

  lemma FileReadsBack(h: VaultHeader, rs: seq<RawRecord>)
    requires HeaderFits(h) && h.formatVersion == FORMAT_VERSION && RecordsFit(rs)
    ensures ReadFile(FileBytes(h, rs)) == Ok(((h, V3(rs)), []))
  {
    hide HeaderBytes, ParseHeader, ReadHeader, ReadU32, ReadRaws, PutRaws, ReadBlob, PutBlob, WellFormed;
    ReadBackBlob(HeaderBytes(h), RecordSet(rs));
    HeaderRoundTrip(h);
    ReadBack32(|rs|, PutRaws(rs, []));
    ReadBackRaws(rs, [], []);
    assert [] + rs == rs;
  }

  lemma FileReadsBackV2(h: VaultHeader, rs: seq<RawRecordV2>)
    requires HeaderFits(h) && h.formatVersion == 2 && RecordsFit(AsRaws(rs))
    ensures ReadFile(FileBytes(h, AsRaws(rs))) == Ok(((h, V2(rs)), []))
  {
    hide HeaderBytes, ParseHeader, ReadHeader, ReadU32, ReadRawsV2, PutRaws, ReadBlob, PutBlob, WellFormed;
    ReadBackBlob(HeaderBytes(h), RecordSet(AsRaws(rs)));
    HeaderRoundTrip(h);
    ReadBack32(|rs|, PutRaws(AsRaws(rs), []));
    forall i | 0 <= i < |rs| ensures RecordFits(AsRaw(rs[i])) {
      assert RecordFits(AsRaws(rs)[i]);
    }
    ReadBackRawsV2(rs, [], []);
    assert [] + rs == rs;
  }

  // ---------- the bytes themselves ----------

  /** Where record `i` stands: after the two counts, the header and the records before it. */
  function RecordOffset(h: VaultHeader, rs: seq<RawRecord>, i: nat): nat
    requires i <= |rs|
  {
    8 + |HeaderBytes(h)| + Framed(rs[..i])
  }

  /** The layout of a file: the header's length and bytes, the count, and each record at its offset as id, name
      length, name, value length, value. */
  lemma FileLayout(h: VaultHeader, rs: seq<RawRecord>, i: nat)
    requires i < |rs|
    ensures var f, hb, r, at := FileBytes(h, rs), HeaderBytes(h), rs[i], RecordOffset(h, rs, i);
            && |f| == RecordOffset(h, rs, |rs|)
            && f[..4] == LE(|hb|, 4) && f[4..4 + |hb|] == hb && f[4 + |hb|..8 + |hb|] == LE(|rs|, 4)
            && at + 24 + |r.nameCt| + |r.valueCt| <= |f|
            && f[at..at + 24 + |r.nameCt| + |r.valueCt|]
               == LE(r.id, 16) + LE(|r.nameCt|, 4) + r.nameCt + LE(|r.valueCt|, 4) + r.valueCt
  {
    hide LE, HeaderBytes, PutRaws;
    var hb, all := HeaderBytes(h), PutRaws(rs, []);
    var front := LE(|hb|, 4) + hb + LE(|rs|, 4);
    assert FileBytes(h, rs) == front + all;
    assert rs[..|rs|] == rs;
    RecordAt(rs, i);
    var r, k := rs[i], Framed(rs[..i]);
    var n := 24 + |r.nameCt| + |r.valueCt|;
    assert (front + all)[|front| + k..|front| + k + n] == all[k..k + n];
  }

  lemma {:induction false} RecordAt(rs: seq<RawRecord>, i: nat)
    requires i < |rs|
    ensures |PutRaws(rs, [])| == Framed(rs)
    ensures var r, at := rs[i], Framed(rs[..i]);
            && at + 24 + |r.nameCt| + |r.valueCt| <= Framed(rs)
            && PutRaws(rs, [])[at..at + 24 + |r.nameCt| + |r.valueCt|]
               == LE(r.id, 16) + LE(|r.nameCt|, 4) + r.nameCt + LE(|r.valueCt|, 4) + r.valueCt
  {
    hide LE, PutRaw;
    var first, rest := rs[0], PutRaws(rs[1..], []);
    RawBytes(first, rest);
    if i > 0 {
      RecordAt(rs[1..], i - 1);
      assert rs[..i] == [first] + rs[1..][..i - 1];
      FramedAppends([first], rs[1..][..i - 1]);
      FramedOne(first);
      var r, at := rs[i], Framed(rs[1..][..i - 1]);
      var n := 24 + |r.nameCt| + |r.valueCt|;
      Beyond(RecordBytes(first), rest, at, n);
    } else {
      RestLength(rs[1..]);
    }
  }

  function RecordBytes(r: RawRecord): (b: bytes)
    ensures |b| == 24 + |r.nameCt| + |r.valueCt|
  {
    LE(r.id, 16) + LE(|r.nameCt|, 4) + r.nameCt + LE(|r.valueCt|, 4) + r.valueCt
  }

  lemma RawBytes(r: RawRecord, rest: bytes)
    ensures PutRaw(r, rest) == RecordBytes(r) + rest
  {
    hide LE;
  }

  lemma Beyond(a: bytes, b: bytes, at: nat, n: nat)
    requires at + n <= |b|
    ensures (a + b)[|a| + at..|a| + at + n] == b[at..at + n]
  {
  }

  lemma FramedOne(r: RawRecord)
    ensures Framed([r]) == 24 + |r.nameCt| + |r.valueCt|
  {
    assert [r][1..] == [];
  }

  lemma {:induction false} RestLength(rs: seq<RawRecord>)
    ensures |PutRaws(rs, [])| == Framed(rs)
  {
    hide LE, PutRaw;
    if rs != [] {
      RawBytes(rs[0], PutRaws(rs[1..], []));
      RestLength(rs[1..]);
    }
  }

  // ---------- hostile input ----------

  /** Bytes a record list occupies: 24 of framing for each record, plus its payload. */
  function Framed(rs: seq<RawRecord>): (n: nat)
    ensures n >= 24 * |rs|
  {
    if rs == [] then 0 else 24 + |rs[0].nameCt| + |rs[0].valueCt| + Framed(rs[1..])
  }

  lemma {:induction false} FramedAppends(a: seq<RawRecord>, b: seq<RawRecord>)
    ensures Framed(a + b) == Framed(a) + Framed(b)
  {
    if a == [] {
      assert a + b == b;
    } else {
      assert (a + b)[1..] == a[1..] + b;
      FramedAppends(a[1..], b);
    }
  }

  /** A successful read of `k` values consumed what it returned, and ignores anything after it. */
  lemma ReadRawConsumes(s: bytes, more: bytes)
    requires ReadRaw(s).Ok?
    ensures var (r, rest) := ReadRaw(s).value;
            && |s| == |rest| + 24 + |r.nameCt| + |r.valueCt| && RecordFits(r)
            && ReadRaw(s + more) == Ok((r, rest + more))
  {
    var (id, r1) := ReadU128(s).value;
    U128Extends(s, more);
    BlobExtends(r1, more);
    BlobExtends(ReadBlob(r1).value.1, more);
  }

  lemma ReadRawV2Consumes(s: bytes, more: bytes)
    requires ReadRawV2(s).Ok?
    ensures var (r, rest) := ReadRawV2(s).value;
            && |s| == |rest| + 24 + |r.name| + |r.ct| && RecordFits(AsRaw(r))
            && ReadRawV2(s + more) == Ok((r, rest + more))
  {
    var (id, r1) := ReadU128(s).value;
    U128Extends(s, more);
    BlobExtends(r1, more);
    BlobExtends(ReadBlob(r1).value.1, more);
  }

  lemma U128Extends(s: bytes, more: bytes)
    requires ReadU128(s).Ok?
    ensures ReadU128(s + more) == Ok((ReadU128(s).value.0, ReadU128(s).value.1 + more))
    ensures |s| == 16 + |ReadU128(s).value.1|
  {
    assert (s + more)[..16] == s[..16] && (s + more)[16..] == s[16..] + more;
  }

  lemma U32Extends(s: bytes, more: bytes)
    requires ReadU32(s).Ok?
    ensures ReadU32(s + more) == Ok((ReadU32(s).value.0, ReadU32(s).value.1 + more))
    ensures |s| == 4 + |ReadU32(s).value.1|
  {
    assert (s + more)[..4] == s[..4] && (s + more)[4..] == s[4..] + more;
  }

  lemma BlobExtends(s: bytes, more: bytes)
    requires ReadBlob(s).Ok?
    ensures var (v, rest) := ReadBlob(s).value;
            |v| < U32_LIMIT && |s| == 4 + |v| + |rest| && ReadBlob(s + more) == Ok((v, rest + more))
  {
    U32Extends(s, more);
    var (n, r) := ReadU32(s).value;
    assert (r + more)[..n] == r[..n] && (r + more)[n..] == r[n..] + more;
  }

  lemma {:induction false} ReadRawsConsumes(s: bytes, n: nat, acc: seq<RawRecord>, more: bytes)
    requires ReadRaws(s, n, acc).Ok?
    ensures var (rs, rest) := ReadRaws(s, n, acc).value;
            && |rs| == |acc| + n && Framed(acc) + |s| == Framed(rs) + |rest|
            && ((forall i :: 0 <= i < |acc| ==> RecordFits(acc[i])) ==> forall i :: 0 <= i < |rs| ==> RecordFits(rs[i]))
            && ReadRaws(s + more, n, acc) == Ok((rs, rest + more))
    decreases n
  {
    hide ReadRaw, ReadBlob, ReadU128, Split;
    if n > 0 {
      ReadRawConsumes(s, more);
      var (r, rest) := ReadRaw(s).value;
      FramedAppends(acc, [r]);
      ReadRawsConsumes(rest, n - 1, acc + [r], more);
    }
  }

  lemma {:induction false} ReadRawsV2Consumes(s: bytes, n: nat, acc: seq<RawRecordV2>, more: bytes)
    requires ReadRawsV2(s, n, acc).Ok?
    ensures var (rs, rest) := ReadRawsV2(s, n, acc).value;
            && |rs| == |acc| + n && Framed(AsRaws(acc)) + |s| == Framed(AsRaws(rs)) + |rest|
            && ((forall i :: 0 <= i < |acc| ==> RecordFits(AsRaw(acc[i])))
                ==> forall i :: 0 <= i < |rs| ==> RecordFits(AsRaw(rs[i])))
            && ReadRawsV2(s + more, n, acc) == Ok((rs, rest + more))
    decreases n
  {
    hide ReadRawV2, ReadBlob, ReadU128, Split;
    if n > 0 {
      ReadRawV2Consumes(s, more);
      var (r, rest) := ReadRawV2(s).value;
      FramedAppends(AsRaws(acc), [AsRaw(r)]);
      assert AsRaws(acc + [r]) == AsRaws(acc) + [AsRaw(r)];
      ReadRawsV2Consumes(rest, n - 1, acc + [r], more);
    }
  }

  function Raws(rs: RecordsRaw): seq<RawRecord> {
    match rs case V2(v) => AsRaws(v) case V3(v) => v
  }

  lemma ReadRecordSetConsumes(version: u16, s: bytes, more: bytes)
    requires ReadRecordSet(version, s).Ok?
    ensures var (rs, rest) := ReadRecordSet(version, s).value;
            && |s| == 4 + Framed(Raws(rs)) + |rest| && RecordsFit(Raws(rs))
            && (rs.V2? <==> version == 2)
            && ReadRecordSet(version, s + more) == Ok((rs, rest + more))
  {
    U32Extends(s, more);
    var (n, r) := ReadU32(s).value;
    if version == 2 {
      ReadRawsV2Consumes(r, n, [], more);
      assert Framed(AsRaws([])) == 0;
    } else {
      ReadRawsConsumes(r, n, [], more);
    }
  }

  /** Whatever count a file claims, an accepted file holds every record it yields, byte for byte,
      and bytes appended to it change neither header nor records. */
  lemma LoadIsBounded(c: Suite, d: bytes, more: bytes)
    requires Load(c, d).Ok?
    ensures var v := Load(c, d).value;
            && WellFormed(v.header) && RecordsFit(Raws(v.records))
            && (v.records.V2? <==> v.header.formatVersion == 2)
            && Framed(Raws(v.records)) <= |d| && |Raws(v.records)| <= |d| / 24
            && Load(c, d + more).Ok?
            && Load(c, d + more).value.header == v.header && Load(c, d + more).value.records == v.records
  {
    BlobExtends(d, more);
    var (hb, r1) := ReadBlob(d).value;
    ParsedIsWellFormed(hb);
    ReadRecordSetConsumes(ParseHeader(hb).value.formatVersion, r1, more);
  }

  /** A truncated file never loads: of the bytes `save` writes, no proper beginning is accepted. */
  lemma TruncatedNeverLoads(c: Suite, h: VaultHeader, rs: seq<RawRecord>, k: nat)
    requires HeaderFits(h) && h.formatVersion == FORMAT_VERSION && RecordsFit(rs)
    requires k < |FileBytes(h, rs)|
    ensures Load(c, FileBytes(h, rs)[..k]).Err?
  {
    hide HeaderBytes, ReadHeader, RecordSet, ReadRecordSet, ReadBlob, WellFormed;
    var f := FileBytes(h, rs);
    if Load(c, f[..k]).Ok? {
      assert f[..k] + f[k..] == f;
      LoadIsBounded(c, f[..k], f[k..]);
      FileReadsBack(h, rs);
      LoadConsumes(c, f[..k]);
      FileLength(h, rs);
    }
  }

  lemma LoadConsumes(c: Suite, d: bytes)
    requires Load(c, d).Ok?
    ensures var v := Load(c, d).value; 8 + |HeaderBytes(v.header)| + Framed(Raws(v.records)) <= |d|
  {
    hide HeaderBytes, ReadHeader, ReadRecordSet, ReadBlob;
    BlobExtends(d, []);
    var (hb, r1) := ReadBlob(d).value;
    ReadHeaderLength(hb);
    ReadRecordSetConsumes(ParseHeader(hb).value.formatVersion, r1, []);
  }

  lemma FileLength(h: VaultHeader, rs: seq<RawRecord>)
    ensures |FileBytes(h, rs)| == 8 + |HeaderBytes(h)| + Framed(rs)
  {
    hide HeaderBytes;
    RestLength(rs);
  }

  // ---------- the MAC input ----------

  function MacInput(h: VaultHeader, rs: seq<RawRecord>): bytes {
    HeaderBytes(h.(headerMac := Zeros(32))) + RecordSet(rs)
  }

  function MacKey(c: Suite, dek: bytes): bytes {
    c.hkdf(dek, Ascii("header-mac"))
  }

  function ComputeMac(c: Suite, dek: bytes, h: VaultHeader, rs: seq<RawRecord>): Mac {
    c.hmac(MacKey(c, dek), MacInput(h, rs))
  }

  predicate VerifyMac(c: Suite, dek: bytes, h: VaultHeader, rs: RecordsRaw) {
    ComputeMac(c, dek, h, Raws(rs)) == h.headerMac
  }

  /** A file made under one DEK authenticates under another exactly when HMAC gives one MAC, of the very bytes
      this file's MAC covers, under the two derived keys. */
  lemma MacNeedsTheDek(c: Suite, dek: bytes, other: bytes, h: VaultHeader, rs: RecordsRaw)
    requires VerifyMac(c, dek, h, rs)
    ensures var m := HeaderBytes(h.(headerMac := Zeros(32))) + RecordSet(Raws(rs));
            VerifyMac(c, other, h, rs) <==>
              c.hmac(c.hkdf(dek, Ascii("header-mac")), m) == c.hmac(c.hkdf(other, Ascii("header-mac")), m)
  {
    hide HeaderBytes, RecordSet, Ascii;
  }

  lemma RecordSetInjective(rs1: seq<RawRecord>, rs2: seq<RawRecord>)
    requires RecordsFit(rs1) && RecordsFit(rs2)
    requires RecordSet(rs1) == RecordSet(rs2)
    ensures rs1 == rs2
  {
    hide ReadU32, ReadRaws, PutRaws;
    ReadBack32(|rs1|, PutRaws(rs1, []));
    ReadBack32(|rs2|, PutRaws(rs2, []));
    ReadBackRaws(rs1, [], []);
    ReadBackRaws(rs2, [], []);
    assert [] + rs1 == rs1 && [] + rs2 == rs2;
  }

  /** Equal MAC inputs leave nothing to differ but the MAC field itself: any relabel, deletion,
      reordering or injection changes the input. */
  lemma MacInputInjective(h1: VaultHeader, rs1: seq<RawRecord>, h2: VaultHeader, rs2: seq<RawRecord>)
    requires WellFormed(h1) && WellFormed(h2) && RecordsFit(rs1) && RecordsFit(rs2)
    requires MacInput(h1, rs1) == MacInput(h2, rs2)
    ensures h1.(headerMac := h2.headerMac) == h2 && rs1 == rs2
  {
    hide HeaderBytes, RecordSet;
    ImageInjective(h1.(headerMac := Zeros(32)), RecordSet(rs1), h2.(headerMac := Zeros(32)), RecordSet(rs2));
    RecordSetInjective(rs1, rs2);
  }

  /** The two formats frame records alike, yet no legacy MAC input is a current one. */
  lemma FormatsNeverCoincide(h3: VaultHeader, rs: seq<RawRecord>, h2: VaultHeader, legacy: seq<RawRecordV2>)
    requires WellFormed(h3) && h3.formatVersion == FORMAT_VERSION && RecordsFit(rs)
    requires WellFormed(h2) && h2.formatVersion == 2 && RecordsFit(AsRaws(legacy))
    ensures MacInput(h3, rs) != MacInput(h2, AsRaws(legacy))
  {
    if MacInput(h3, rs) == MacInput(h2, AsRaws(legacy)) {
      MacInputInjective(h3, rs, h2, AsRaws(legacy));
    }
  }

  /** Two files that load and authenticate under one DEK with the same MAC are the same vault,
      or their own two MAC inputs are an HMAC collision. */
  lemma SameMacSameVaultOrCollision(c: Suite, dek: bytes, d1: bytes, d2: bytes)
    requires Load(c, d1).Ok? && Load(c, d2).Ok?
    requires var v1, v2 := Load(c, d1).value, Load(c, d2).value;
             && VerifyMac(c, dek, v1.header, v1.records) && VerifyMac(c, dek, v2.header, v2.records)
             && v1.header.headerMac == v2.header.headerMac
    ensures var v1, v2 := Load(c, d1).value, Load(c, d2).value;
            var m1, m2 := MacInput(v1.header, Raws(v1.records)), MacInput(v2.header, Raws(v2.records));
            || (v1.header == v2.header && v1.records == v2.records)
            || (m1 != m2 && c.hmac(MacKey(c, dek), m1) == c.hmac(MacKey(c, dek), m2))
  {
    LoadIsBounded(c, d1, []);
    LoadIsBounded(c, d2, []);
    var v1, v2 := Load(c, d1).value, Load(c, d2).value;
    var m1, m2 := MacInput(v1.header, Raws(v1.records)), MacInput(v2.header, Raws(v2.records));
    if m1 == m2 {
      MacInputInjective(v1.header, Raws(v1.records), v2.header, Raws(v2.records));
      SameRawsSameRecords(v1.records, v2.records);
    }
  }

  lemma SameRawsSameRecords(a: RecordsRaw, b: RecordsRaw)
    requires a.V2? <==> b.V2?
    requires Raws(a) == Raws(b)
    ensures a == b
  {
    if a.V2? {
      assert |a.v2| == |b.v2|;
      forall i | 0 <= i < |a.v2| ensures a.v2[i] == b.v2[i] {
        assert AsRaws(a.v2)[i] == AsRaws(b.v2)[i];
      }
    }
  }

  // ---------- the loops ----------

  method TakeRaw(c: Cursor) returns (r: Result<RawRecord>)
    requires c.Valid()
    modifies c
    ensures c.Valid() && Delivers(ReadRaw(old(c.Rest())), r, c.Rest())
  {
    var id :- c.U128();
    var name :- c.Blob();
    var value :- c.Blob();
    return Ok(RawRecord(id, name, value));
  }

  method TakeRawV2(c: Cursor) returns (r: Result<RawRecordV2>)
    requires c.Valid()
    modifies c
    ensures c.Valid() && Delivers(ReadRawV2(old(c.Rest())), r, c.Rest())
  {
    var id :- c.U128();
    var name :- c.Blob();
    if !ValidUtf8(name) {
      return Err(Format(RecordNameUtf8));
    }
    var ct :- c.Blob();
    return Ok(RawRecordV2(id, name, ct));
  }

  method TakeRecordSet(version: u16, c: Cursor) returns (r: Result<RecordsRaw>)
    requires c.Valid()
    modifies c
    ensures c.Valid() && Delivers(ReadRecordSet(version, old(c.Rest())), r, c.Rest())
  {
    hide ReadRaw, ReadRawV2, ReadU32;
    var n :- c.U32();
    ghost var start := c.Rest();
    if version == 2 {
      var v: seq<RawRecordV2> := [];
      for k := 0 to n
        invariant c.Valid()
        invariant ReadRawsV2(start, n, []) == ReadRawsV2(c.Rest(), n - k, v)
      {
        var rec :- TakeRawV2(c);
        v := v + [rec];
      }
      return Ok(V2(v));
    } else {
      var v: seq<RawRecord> := [];
      for k := 0 to n
        invariant c.Valid()
        invariant ReadRaws(start, n, []) == ReadRaws(c.Rest(), n - k, v)
      {
        var rec :- TakeRaw(c);
        v := v + [rec];
      }
      return Ok(V3(v));
    }
  }

  method LoadFromBytes(c: Suite, data: bytes) returns (r: Result<LockedVault>)
    ensures r == Load(c, data)
  {
    hide ReadBlob, ParseHeader, ReadRecordSet;
    var fingerprint := c.sha256(data);
    var cur := new Cursor(data);
    var headerBytes :- cur.Blob();
    var header :- FromBytes(headerBytes);
    var records :- TakeRecordSet(header.formatVersion, cur);
    return Ok(LockedVault(header, records, fingerprint));
  }

  method PushRaw(b: bytes, r: RawRecord, ghost rest: bytes) returns (out: bytes)
    ensures out + rest == b + PutRaw(r, rest)
  {
    ghost var value := PutBlob(r.valueCt, rest);
    assert (b + LE(r.id, 16)) + PutBlob(r.nameCt, value) == b + PutRaw(r, rest);
    out := PushBlob(b + LE(r.id, 16), r.nameCt, value);
    out := PushBlob(out, r.valueCt, rest);
  }

  method PushRecordSet(b: bytes, rs: seq<RawRecord>) returns (out: bytes)
    ensures out == b + RecordSet(rs)
  {
    out := b + LE(|rs|, 4);
    assert out + PutRaws(rs, []) == b + RecordSet(rs);
    for k := 0 to |rs|
      invariant out + PutRaws(rs[k..], []) == b + RecordSet(rs)
    {
      assert rs[k..][1..] == rs[k + 1..];
      out := PushRaw(out, rs[k], PutRaws(rs[k + 1..], []));
    }
    assert out + [] == out;
  }

  method MacOf(c: Suite, dek: bytes, h: VaultHeader, rs: seq<RawRecord>) returns (mac: Mac)
    ensures mac == ComputeMac(c, dek, h, rs)
  {
    var m := ToBytes(h.(headerMac := Zeros(32)));
    m := PushRecordSet(m, rs);
    mac := c.hmac(MacKey(c, dek), m);
  }
}
