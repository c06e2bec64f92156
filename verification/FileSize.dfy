/** What the length of a saved file can tell: the header and the count bucket, nothing of the contents. */
module FileSize {
  import opened Bytes
  import opened Crypto
  import opened Header
  import opened MapRefinement
  import opened Sealing
  import opened SaveReload
  import opened Text
  import Vault
  import opened VaultFile

  /** Longest name and value that stay in the smallest bucket. */
  const SHORT_NAME: nat := 59
  const SHORT_VALUE: nat := 252

  predicate SmallestFrame(r: RawRecord) {
    |r.nameCt| == 104 && |r.valueCt| == 296
  }

  lemma {:induction false} PutRawsLength(rs: seq<RawRecord>, rest: bytes)
    ensures |PutRaws(rs, rest)| == Framed(rs) + |rest|
  {
    if rs != [] {
      PutRawsLength(rs[1..], rest);
    }
  }

  lemma {:induction false} FramedOfSmallest(rs: seq<RawRecord>)
    requires forall i :: 0 <= i < |rs| ==> SmallestFrame(rs[i])
    ensures Framed(rs) == 424 * |rs|
  {
    if rs != [] {
      FramedOfSmallest(rs[1..]);
    }
  }

  lemma ShortSizes(n: nat, v: nat)
    requires n <= SHORT_NAME && v <= SHORT_VALUE
    ensures NameCtLen(n) == 104 && ValueCtLen(v) == 296
  {
    OneBucket(5 + n, NAME_BUCKET);
    OneBucket(4 + v, VALUE_BUCKET);
  }

  /** Tombstone or real, short or empty: every record of the file has the same two lengths. */
  lemma RecordsLookAlike(c: Suite, dek: bytes, version: u16, rs: seq<Vault.Record>, t: Tape, pos: nat)
    requires c.Lawful()
    requires forall r :: r in rs ==> |r.name| <= SHORT_NAME && |r.valueCt| == 296
    ensures forall x :: x in Vault.SavedRaws(c, dek, version, rs, t, pos) ==> SmallestFrame(x)
  {
    hide SealName, SealValue, At, NameCtLen, ValueCtLen, OpenName, Vault.SavedRaws;
    var k, at := Vault.PaddedCount(|rs|) - |rs|, pos + 24 * |rs|;
    var reals, tombs := Vault.RealRaws(c, dek, version, rs, t, pos), Vault.Tombstones(c, dek, version, k, t, at);
    forall i | 0 <= i < |reals| ensures SmallestFrame(reals[i]) {
      assert rs[i] in rs;
      ShortSizes(|rs[i].name|, 0);
      RealRawOpens(c, dek, version, rs[i], At(t, pos + 24 * i, 24));
    }
    AllTombstonesOpen(c, dek, version, k, t, at);
    ShortSizes(0, 0);
    SameElements(Vault.SavedRaws(c, dek, version, rs, t, pos), Vault.PaddedRaws(c, dek, version, rs, t, pos));
  }

  lemma FileBytesLength(h: VaultHeader, rs: seq<RawRecord>)
    requires forall i :: 0 <= i < |rs| ==> SmallestFrame(rs[i])
    ensures |FileBytes(h, rs)| == 8 + |HeaderBytes(h)| + 424 * |rs|
  {
    PutRawsLength(rs, []);
    FramedOfSmallest(rs);
  }

  lemma ImageLength(c: Suite, dek: bytes, h: VaultHeader, rs: seq<Vault.Record>, t: Tape, pos: nat)
    requires c.Lawful()
    requires forall r :: r in rs ==> |r.name| <= SHORT_NAME && |r.valueCt| == 296
    ensures |Vault.SavedImage(c, dek, h, rs, t, pos)| == 8 + |HeaderBytes(h)| + 424 * Vault.PaddedCount(|rs|)
  {
    hide HeaderBytes, FileBytes, Vault.SavedRaws, Vault.PaddedRaws, Vault.PaddedCount;
    var raws := Vault.SavedRaws(c, dek, h.formatVersion, rs, t, pos);
    RecordsLookAlike(c, dek, h.formatVersion, rs, t, pos);
    FileBytesLength(Vault.SavedHeader(c, dek, h, raws), raws);
    MacKeepsLength(h, Vault.SavedHeader(c, dek, h, raws).headerMac);
  }

  /** A saved map of short names and values has a length that depends only on the header and on how many
      buckets of eight its count fills. */
  lemma LengthHidesContents(c: Suite, dek: bytes, mem: Vault.Mem, m: map<Text, Text>, t: Tape, pos: nat)
    requires c.Lawful() && GoodMem(c, dek, mem, m, false)
    requires forall k :: k in m ==> |k| <= SHORT_NAME && |m[k]| <= SHORT_VALUE
    ensures |Vault.SavedImage(c, dek, mem.header, mem.records, t, pos)|
         == 8 + |HeaderBytes(mem.header)| + 424 * (8 * (if m == map[] then 1 else (|m| + 7) / 8))
  {
    hide HeaderFits, HeaderBytes, OpenValue, ValueCtLen, Vault.SavedImage;
    SameSize(c, dek, mem.records, m);
    forall r | r in mem.records ensures |r.name| <= SHORT_NAME && |r.valueCt| == 296 {
      assert r in multiset(mem.records) && Holds(c, dek, r, m);
      ShortSizes(0, |m[r.name]|);
    }
    ImageLength(c, dek, mem.header, mem.records, t, pos);
    assert |m| == 0 <==> m == map[];
  }
}
