/** What `save` writes loads, authenticates and unlocks to the same records, whatever the random source says. */
module SaveReload {
  import opened Bytes
  import opened Crypto
  import opened Header
  import opened Reader
  import opened Sealing
  import opened Shuffle
  import opened Text
  import opened Vault
  import opened VaultFile
  import opened Wrappers

  // ---------- what opening a raw record set yields ----------

  predicate Opens(c: Suite, dek: bytes, version: u16, r: RawRecord) {
    OpenName(c, dek, r.id, version, r.nameCt).Ok?
  }

  predicate Real(c: Suite, dek: bytes, version: u16, r: RawRecord) {
    Opens(c, dek, version, r) && OpenName(c, dek, r.id, version, r.nameCt).value.Some?
  }

  function AsRecord(c: Suite, dek: bytes, version: u16, r: RawRecord): Record
    requires Real(c, dek, version, r)
  {
    Record(r.id, OpenName(c, dek, r.id, version, r.nameCt).value.value, r.valueCt)
  }

  /** The real records of a raw set, in order. */
  function Kept(c: Suite, dek: bytes, version: u16, raws: seq<RawRecord>): seq<Record> {
    if raws == [] then []
    else (if Real(c, dek, version, raws[0]) then [AsRecord(c, dek, version, raws[0])] else [])
         + Kept(c, dek, version, raws[1..])
  }

  lemma {:induction false} OpenAllKeeps(c: Suite, dek: bytes, version: u16, raws: seq<RawRecord>, acc: seq<Record>)
    ensures OpenAll(c, dek, version, raws, acc).Ok? <==> forall r :: r in raws ==> Opens(c, dek, version, r)
    ensures OpenAll(c, dek, version, raws, acc).Ok? ==>
              OpenAll(c, dek, version, raws, acc).value == acc + Kept(c, dek, version, raws)
    decreases |raws|
  {
    hide OpenName;
    if raws == [] {
      assert acc + [] == acc;
    } else {
      assert raws == [raws[0]] + raws[1..];
      if Opens(c, dek, version, raws[0]) {
        var next := if Real(c, dek, version, raws[0]) then acc + [AsRecord(c, dek, version, raws[0])] else acc;
        OpenAllKeeps(c, dek, version, raws[1..], next);
        assert next + Kept(c, dek, version, raws[1..]) == acc + Kept(c, dek, version, raws);
      } else {
        assert raws[0] in raws;
      }
    }
  }

  lemma {:induction false} KeptAppends(c: Suite, dek: bytes, version: u16, a: seq<RawRecord>, b: seq<RawRecord>)
    ensures Kept(c, dek, version, a + b) == Kept(c, dek, version, a) + Kept(c, dek, version, b)
    decreases |a|
  {
    hide Real;
    if a == [] {
      assert a + b == b;
    } else {
      assert (a + b)[0] == a[0] && (a + b)[1..] == a[1..] + b;
      KeptAppends(c, dek, version, a[1..], b);
    }
  }

  /** What is kept of a set is what is kept of one element and of the others. */
  lemma KeptApart(c: Suite, dek: bytes, version: u16, b: seq<RawRecord>, k: nat)
    requires k < |b|
    ensures multiset(b[..k] + b[k + 1..]) == multiset(b) - multiset{b[k]}
    ensures multiset(Kept(c, dek, version, b))
         == multiset(Kept(c, dek, version, [b[k]])) + multiset(Kept(c, dek, version, b[..k] + b[k + 1..]))
  {
    hide Kept;
    var front, back := b[..k], b[k + 1..];
    assert b == front + ([b[k]] + back);
    KeptAppends(c, dek, version, front, back);
    KeptAppends(c, dek, version, front, [b[k]] + back);
    KeptAppends(c, dek, version, [b[k]], back);
  }

  lemma IndexOf<T>(x: T, a: seq<T>, b: seq<T>) returns (k: nat)
    requires multiset(a) == multiset(b) && x in a
    ensures k < |b| && b[k] == x
  {
    assert x in multiset(a);
    assert x in b;
    k :| 0 <= k < |b| && b[k] == x;
  }

  /** Reordering a raw set reorders what is kept of it and loses nothing. */
  lemma {:induction false} KeptOfPermutation(c: Suite, dek: bytes, version: u16, a: seq<RawRecord>, b: seq<RawRecord>)
    requires multiset(a) == multiset(b)
    ensures multiset(Kept(c, dek, version, a)) == multiset(Kept(c, dek, version, b))
    decreases |a|
  {
    hide Kept;
    if a == [] {
      assert |b| == |multiset(b)| == 0;
    } else {
      var k := IndexOf(a[0], a, b);
      KeptApart(c, dek, version, a, 0);
      KeptApart(c, dek, version, b, k);
      assert a[..0] + a[1..] == a[1..];
      KeptOfPermutation(c, dek, version, a[1..], b[..k] + b[k + 1..]);
    }
  }

  // ---------- the padded set ----------

  /** Everything the format must be able to frame. */
  predicate Saveable(h: VaultHeader, rs: seq<Record>) {
    && HeaderFits(h) && h.formatVersion == FORMAT_VERSION
    && PaddedCount(|rs|) < U32_LIMIT
    && forall r :: r in rs ==> NameCtLen(|r.name|) < U32_LIMIT && |r.valueCt| < U32_LIMIT
  }

  predicate NamesInRange(rs: seq<Record>) {
    forall r :: r in rs ==> |r.name| <= MAX_NAME_LEN
  }

  lemma RealRawOpens(c: Suite, dek: bytes, version: u16, r: Record, nonce: bytes)
    requires c.Lawful() && |nonce| == NONCE_LEN
    requires NameCtLen(|r.name|) < U32_LIMIT
    ensures var raw := RealRaw(c, dek, version, r, nonce);
            && raw.id == r.id && raw.valueCt == r.valueCt && |raw.nameCt| == NameCtLen(|r.name|)
            && (Opens(c, dek, version, raw) <==> |r.name| <= MAX_NAME_LEN)
            && (Opens(c, dek, version, raw) ==> Real(c, dek, version, raw) && AsRecord(c, dek, version, raw) == r)
  {
    PaddedCovers(5 + |r.name|, NAME_BUCKET);
    OpenSealedName(c, dek, r.id, version, r.name, nonce);
  }

  lemma RealRawsStep(c: Suite, dek: bytes, version: u16, rs: seq<Record>, t: Tape, pos: nat)
    requires rs != []
    ensures var raws := RealRaws(c, dek, version, rs, t, pos);
            && raws[0] == RealRaw(c, dek, version, rs[0], At(t, pos, 24))
            && raws[1..] == RealRaws(c, dek, version, rs[1..], t, pos + 24)
            && raws == [raws[0]] + raws[1..]
  {
    hide RealRaw, At;
    var raws, rest := RealRaws(c, dek, version, rs, t, pos), RealRaws(c, dek, version, rs[1..], t, pos + 24);
    forall i | 0 <= i < |rest| ensures raws[i + 1] == rest[i] {
      assert pos + 24 * (i + 1) == pos + 24 + 24 * i;
    }
  }

  lemma {:induction false} RealRawsKept(c: Suite, dek: bytes, version: u16, rs: seq<Record>, t: Tape, pos: nat)
    requires c.Lawful()
    requires forall r :: r in rs ==> NameCtLen(|r.name|) < U32_LIMIT
    ensures var raws := RealRaws(c, dek, version, rs, t, pos);
            && ((forall x :: x in raws ==> Opens(c, dek, version, x)) <==> NamesInRange(rs))
            && (NamesInRange(rs) ==> Kept(c, dek, version, raws) == rs)
    decreases |rs|
  {
    hide Real, Opens, AsRecord, RealRaw, RealRaws, NameCtLen, At;
    var raws := RealRaws(c, dek, version, rs, t, pos);
    if rs == [] {
      assert raws == [];
    } else {
      assert rs == [rs[0]] + rs[1..];
      RealRawOpens(c, dek, version, rs[0], At(t, pos, 24));
      RealRawsKept(c, dek, version, rs[1..], t, pos + 24);
      RealRawsStep(c, dek, version, rs, t, pos);
      assert Kept(c, dek, version, raws) ==
        (if Real(c, dek, version, raws[0]) then [AsRecord(c, dek, version, raws[0])] else [])
          + Kept(c, dek, version, RealRaws(c, dek, version, rs[1..], t, pos + 24));
    }
  }

  lemma TombstoneOpens(c: Suite, dek: bytes, version: u16, t: Tape, pos: nat)
    requires c.Lawful()
    ensures var raw := TombstoneRaw(c, dek, version, t, pos);
            && Opens(c, dek, version, raw) && !Real(c, dek, version, raw)
            && |raw.nameCt| == NameCtLen(0) && |raw.valueCt| == ValueCtLen(0)
  {
    var id := DrawId(At(t, pos, 16));
    OpenSealedTombstone(c, dek, id, version, At(t, pos + 16, 24));
    OpenSealedValue(c, dek, id, version, [], At(t, pos + 40, 24));
  }

  lemma {:induction false} TombstonesVanish(c: Suite, dek: bytes, version: u16, raws: seq<RawRecord>)
    requires forall x :: x in raws ==> !Real(c, dek, version, x)
    ensures Kept(c, dek, version, raws) == []
    decreases |raws|
  {
    hide Real;
    if raws != [] {
      assert raws[0] in raws;
      TombstonesVanish(c, dek, version, raws[1..]);
    }
  }

  lemma AllTombstonesOpen(c: Suite, dek: bytes, version: u16, k: nat, t: Tape, pos: nat)
    requires c.Lawful()
    ensures forall x :: x in Tombstones(c, dek, version, k, t, pos) ==>
              && Opens(c, dek, version, x) && !Real(c, dek, version, x)
              && |x.nameCt| == NameCtLen(0) && |x.valueCt| == ValueCtLen(0)
  {
    var raws := Tombstones(c, dek, version, k, t, pos);
    forall i | 0 <= i < k
      ensures Opens(c, dek, version, raws[i]) && !Real(c, dek, version, raws[i])
              && |raws[i].nameCt| == NameCtLen(0) && |raws[i].valueCt| == ValueCtLen(0)
    {
      TombstoneOpens(c, dek, version, t, pos + 64 * i);
    }
  }

  /** The padded set opens exactly when no name is too long, and then keeps exactly the records. */
  lemma PaddedRawsKept(c: Suite, dek: bytes, version: u16, rs: seq<Record>, t: Tape, pos: nat)
    requires c.Lawful()
    requires forall r :: r in rs ==> NameCtLen(|r.name|) < U32_LIMIT
    ensures var raws := PaddedRaws(c, dek, version, rs, t, pos);
            && ((forall x :: x in raws ==> Opens(c, dek, version, x)) <==> NamesInRange(rs))
            && (NamesInRange(rs) ==> Kept(c, dek, version, raws) == rs)
  {
    hide Opens, Real, RealRaws, Tombstones;
    var k, at := PaddedCount(|rs|) - |rs|, pos + 24 * |rs|;
    var reals, tombs := RealRaws(c, dek, version, rs, t, pos), Tombstones(c, dek, version, k, t, at);
    RealRawsKept(c, dek, version, rs, t, pos);
    AllTombstonesOpen(c, dek, version, k, t, at);
    TombstonesVanish(c, dek, version, tombs);
    KeptAppends(c, dek, version, reals, tombs);
    assert Kept(c, dek, version, reals) + [] == Kept(c, dek, version, reals);
  }

  /** Shuffling changes neither. */
  lemma SavedRawsOpen(c: Suite, dek: bytes, version: u16, rs: seq<Record>, t: Tape, pos: nat)
    requires c.Lawful()
    requires forall r :: r in rs ==> NameCtLen(|r.name|) < U32_LIMIT
    ensures var opened' := OpenAll(c, dek, version, SavedRaws(c, dek, version, rs, t, pos), []);
            && (opened'.Ok? <==> NamesInRange(rs))
            && (opened'.Ok? ==> multiset(opened'.value) == multiset(rs))
  {
    hide Opens, PaddedRaws, SavedRaws;
    var padded, saved := PaddedRaws(c, dek, version, rs, t, pos), SavedRaws(c, dek, version, rs, t, pos);
    PaddedRawsKept(c, dek, version, rs, t, pos);
    SameElements(padded, saved);
    OpenAllKeeps(c, dek, version, saved, []);
    KeptOfPermutation(c, dek, version, saved, padded);
    assert [] + Kept(c, dek, version, saved) == Kept(c, dek, version, saved);
  }

  lemma SameElements<T>(a: seq<T>, b: seq<T>)
    requires multiset(a) == multiset(b)
    ensures forall x :: x in a <==> x in b
  {
    forall x ensures x in a <==> x in b {
      assert x in a <==> x in multiset(a);
      assert x in b <==> x in multiset(b);
    }
  }

  lemma PaddedRawFits(c: Suite, dek: bytes, version: u16, rs: seq<Record>, t: Tape, pos: nat, x: RawRecord)
    requires c.Lawful() && x in PaddedRaws(c, dek, version, rs, t, pos)
    requires forall r :: r in rs ==> NameCtLen(|r.name|) < U32_LIMIT && |r.valueCt| < U32_LIMIT
    ensures RecordFits(x)
  {
    hide OpenName, SealName, SealValue, At, NameCtLen, ValueCtLen;
    var k, at := PaddedCount(|rs|) - |rs|, pos + 24 * |rs|;
    var reals := RealRaws(c, dek, version, rs, t, pos);
    if x in reals {
      var i :| 0 <= i < |reals| && reals[i] == x;
      assert rs[i] in rs;
      RealRawOpens(c, dek, version, rs[i], At(t, pos + 24 * i, 24));
    } else {
      assert x in Tombstones(c, dek, version, k, t, at);
      AllTombstonesOpen(c, dek, version, k, t, at);
      SmallestSizes();
    }
  }

  lemma SmallestSizes()
    ensures NameCtLen(0) == 104 && ValueCtLen(0) == 296
  {
  }

  lemma SavedRawsFit(c: Suite, dek: bytes, h: VaultHeader, rs: seq<Record>, t: Tape, pos: nat)
    requires c.Lawful() && Saveable(h, rs)
    ensures RecordsFit(SavedRaws(c, dek, h.formatVersion, rs, t, pos))
  {
    hide PaddedRaws, SavedRaws, RecordFits;
    var padded := PaddedRaws(c, dek, h.formatVersion, rs, t, pos);
    var saved := SavedRaws(c, dek, h.formatVersion, rs, t, pos);
    SameElements(padded, saved);
    forall i | 0 <= i < |saved| ensures RecordFits(saved[i]) {
      assert saved[i] in padded;
      PaddedRawFits(c, dek, h.formatVersion, rs, t, pos, saved[i]);
    }
  }

  // ---------- the header's own length ----------

  lemma MacKeepsLength(h: VaultHeader, mac: Mac)
    ensures |HeaderBytes(h.(headerMac := mac))| == |HeaderBytes(h)|
  {
    var g := h.(headerMac := mac);
    assert |PutWraps(g, [])| == |PutWraps(h, [])|;
    PutPcrsLength(h.pcrSelection, PutWraps(h, []));
    PutPcrsLength(h.pcrSelection, PutWraps(g, []));
  }

  /** Whatever file was accepted, its header can be framed again. */
  lemma LoadedHeaderFits(c: Suite, d: bytes)
    requires Load(c, d).Ok?
    ensures HeaderFits(Load(c, d).value.header)
  {
    hide HeaderBytes, ReadHeader, WellFormed;
    BlobExtends(d, []);
    var (hb, r1) := ReadBlob(d).value;
    ParsedIsWellFormed(hb);
    ReadHeaderLength(hb);
  }

  // ---------- the theorem ----------

  /** A saved image parses back to its header and raw set. */
  lemma SavedImageLoads(c: Suite, dek: bytes, h: VaultHeader, rs: seq<Record>, t: Tape, pos: nat)
    requires c.Lawful() && Saveable(h, rs)
    ensures var raws := SavedRaws(c, dek, h.formatVersion, rs, t, pos);
            var image := SavedImage(c, dek, h, rs, t, pos);
            Load(c, image) == Ok(LockedVault(SavedHeader(c, dek, h, raws), V3(raws), c.sha256(image)))
  {
    hide SavedRaws, HeaderBytes, ReadFile, FileBytes;
    var raws := SavedRaws(c, dek, h.formatVersion, rs, t, pos);
    var g := SavedHeader(c, dek, h, raws);
    SavedRawsFit(c, dek, h, rs, t, pos);
    MacKeepsLength(h, g.headerMac);
    FileReadsBack(g, raws);
  }

  lemma SavedMacVerifies(c: Suite, dek: bytes, h: VaultHeader, raws: seq<RawRecord>)
    ensures VerifyMac(c, dek, SavedHeader(c, dek, h, raws), V3(raws))
  {
    hide HeaderBytes, RecordSet;
    assert SavedHeader(c, dek, h, raws).(headerMac := Zeros(32)) == h.(headerMac := Zeros(32));
  }

  /** For any unlocked vault, unique names or not, and any random source: the image of a save loads,
      authenticates under the same DEK, and unlocks if and only if no name is longer than 4096 bytes;
      it then unlocks to a permutation of exactly the records saved. */
  lemma SaveThenUnlock(c: Suite, dek: bytes, h: VaultHeader, rs: seq<Record>, t: Tape, pos: nat, t2: Tape, pos2: nat)
    requires c.Lawful() && Saveable(h, rs)
    ensures var image := SavedImage(c, dek, h, rs, t, pos);
            && Load(c, image).Ok?
            && var u := Unlock(c, Load(c, image).value, dek, t2, pos2);
            && (u.Ok? <==> NamesInRange(rs))
            && (u.Ok? ==>
                  && multiset(u.value.records) == multiset(rs)
                  && u.value.header.(headerMac := h.headerMac) == h
                  && u.value.state == Unlocked(dek)
                  && u.value.loaded == Some(c.sha256(image)))
  {
    hide SavedRaws, HeaderBytes, Load, OpenAll, SavedImage, VerifyMac;
    SavedImageLoads(c, dek, h, rs, t, pos);
    SavedMacVerifies(c, dek, h, SavedRaws(c, dek, h.formatVersion, rs, t, pos));
    SavedRawsOpen(c, dek, h.formatVersion, rs, t, pos);
  }

  // ---------- what the random source decides ----------

  datatype Tomb = Tomb(id: u128, nameNonce: Nonce, valueNonce: Nonce)

  type Nonce = s: bytes | |s| == NONCE_LEN witness Zeros(NONCE_LEN)

  /** The record set for given nonces and given tombstones, before shuffling. */
  function ChosenRaws(c: Suite, dek: bytes, version: u16, rs: seq<Record>, nonces: seq<Nonce>, tombs: seq<Tomb>)
    : (raws: seq<RawRecord>)
    requires |nonces| == |rs|
    ensures |raws| == |rs| + |tombs|
  {
    seq(|rs|, i requires 0 <= i < |rs| =>
      RawRecord(rs[i].id, SealName(c, dek, rs[i].id, version, REAL, rs[i].name, nonces[i]), rs[i].valueCt))
    + seq(|tombs|, i requires 0 <= i < |tombs| =>
      RawRecord(tombs[i].id, SealName(c, dek, tombs[i].id, version, TOMBSTONE, [], tombs[i].nameNonce),
                SealValue(c, dek, tombs[i].id, version, [], tombs[i].valueNonce)))
  }

  function TombBytes(tombs: seq<Tomb>): (blocks: seq<bytes>)
    ensures |blocks| == |tombs| && forall i :: 0 <= i < |blocks| ==> |blocks[i]| == 64
  {
    seq(|tombs|, i requires 0 <= i < |tombs| => LE(tombs[i].id, 16) + tombs[i].nameNonce + tombs[i].valueNonce)
  }

  lemma TombDelivered(c: Suite, dek: bytes, version: u16, tomb: Tomb, t: Tape, pos: nat)
    requires At(t, pos, 64) == LE(tomb.id, 16) + tomb.nameNonce + tomb.valueNonce
    ensures TombstoneRaw(c, dek, version, t, pos)
         == RawRecord(tomb.id, SealName(c, dek, tomb.id, version, TOMBSTONE, [], tomb.nameNonce),
                      SealValue(c, dek, tomb.id, version, [], tomb.valueNonce))
  {
    hide LE, At, SealName, SealValue;
    var block := LE(tomb.id, 16) + tomb.nameNonce + tomb.valueNonce;
    PartOf(t, pos, 64, 0, 16);
    PartOf(t, pos, 64, 16, 24);
    PartOf(t, pos, 64, 40, 24);
    assert block[0..16] == LE(tomb.id, 16);
    assert block[16..40] == tomb.nameNonce && block[40..64] == tomb.valueNonce;
    EveryIdDrawn(tomb.id);
  }

  lemma RawsDelivered(c: Suite, dek: bytes, version: u16, rs: seq<Record>, nonces: seq<Nonce>, tombs: seq<Tomb>,
                      t: Tape, pos: nat)
    requires |nonces| == |rs| && |tombs| == PaddedCount(|rs|) - |rs|
    requires forall i :: 0 <= i < |rs| ==> At(t, pos + 24 * i, 24) == nonces[i]
    requires forall i :: 0 <= i < |tombs| ==> At(t, pos + 24 * |rs| + 64 * i, 64) == TombBytes(tombs)[i]
    ensures PaddedRaws(c, dek, version, rs, t, pos) == ChosenRaws(c, dek, version, rs, nonces, tombs)
  {
    hide At, SealName, SealValue, LE, PaddedCount, TombstoneRaw;
    forall i | 0 <= i < |tombs|
      ensures TombstoneRaw(c, dek, version, t, pos + 24 * |rs| + 64 * i)
           == ChosenRaws(c, dek, version, rs, nonces, tombs)[|rs| + i]
    {
      assert TombBytes(tombs)[i] == LE(tombs[i].id, 16) + tombs[i].nameNonce + tombs[i].valueNonce;
      TombDelivered(c, dek, version, tombs[i], t, pos + 24 * |rs| + 64 * i);
    }
  }

  /** Nothing about an image but its contents is fixed: for every nonce of every record, every id and both nonces
      of every tombstone, and every order of them all, there is a random source for which `save` writes just
      that. No nonce or id depends on another, and no position on what stands there. */
  lemma SourceDecidesImage(c: Suite, dek: bytes, version: u16, rs: seq<Record>, nonces: seq<Nonce>, tombs: seq<Tomb>,
                           order: seq<RawRecord>, pos: nat) returns (t: Tape)
    requires |nonces| == |rs| && |tombs| == PaddedCount(|rs|) - |rs| && PaddedCount(|rs|) <= U64_LIMIT
    requires multiset(order) == multiset(ChosenRaws(c, dek, version, rs, nonces, tombs))
    ensures SavedRaws(c, dek, version, rs, t, pos) == order
  {
    hide At, ChosenRaws, TombBytes, WithBlocks, PaddedRaws, Shuffled, DrawnChoices, PaddedCount;
    var none: Tape, n := (i: nat) => 0, |rs|;
    var first := WithBlocks(none, pos, 24, nonces);
    BlocksDelivered(none, pos, 24, nonces);
    var blocks, start := TombBytes(tombs), pos + 24 * n;
    var second := WithBlocks(first, start, 64, blocks);
    BlocksDelivered(first, start, 64, blocks);
    forall i | 0 <= i < n ensures At(second, pos + 24 * i, 24) == nonces[i] {
      BlocksElsewhere(first, start, 64, blocks, pos + 24 * i, 24);
    }
    t := SourceDecidesOrder(ChosenRaws(c, dek, version, rs, nonces, tombs), order, second, ShufflePos(n, pos));
    RawsDelivered(c, dek, version, rs, nonces, tombs, t, pos);
  }

  /** In particular every order of the padded set is the order of some image, with the same seals. */
  lemma EveryImageOrder(c: Suite, dek: bytes, version: u16, rs: seq<Record>, t: Tape, pos: nat, order: seq<RawRecord>)
    returns (t': Tape)
    requires PaddedCount(|rs|) <= U64_LIMIT
    requires multiset(order) == multiset(PaddedRaws(c, dek, version, rs, t, pos))
    ensures PaddedRaws(c, dek, version, rs, t', pos) == PaddedRaws(c, dek, version, rs, t, pos)
    ensures SavedRaws(c, dek, version, rs, t', pos) == order
  {
    hide At, RealRaw, TombstoneRaw, Shuffled, DrawnChoices, PaddedCount;
    t' := SourceDecidesOrder(PaddedRaws(c, dek, version, rs, t, pos), order, t, ShufflePos(|rs|, pos));
    SamePadded(c, dek, version, rs, t, t', pos);
  }

  lemma SamePadded(c: Suite, dek: bytes, version: u16, rs: seq<Record>, t: Tape, u: Tape, pos: nat)
    requires forall p: nat, n: nat :: p + n <= ShufflePos(|rs|, pos) ==> At(u, p, n) == At(t, p, n)
    ensures PaddedRaws(c, dek, version, rs, u, pos) == PaddedRaws(c, dek, version, rs, t, pos)
  {
    hide At, SealName, SealValue, PaddedCount;
    var k, start := PaddedCount(|rs|) - |rs|, pos + 24 * |rs|;
    forall i | 0 <= i < k
      ensures TombstoneRaw(c, dek, version, u, start + 64 * i) == TombstoneRaw(c, dek, version, t, start + 64 * i)
    {
      var at := start + 64 * i;
      assert At(u, at, 16) == At(t, at, 16) && At(u, at + 16, 24) == At(t, at + 16, 24);
      assert At(u, at + 40, 24) == At(t, at + 40, 24);
    }
    assert Tombstones(c, dek, version, k, u, start) == Tombstones(c, dek, version, k, t, start);
    assert RealRaws(c, dek, version, rs, u, pos) == RealRaws(c, dek, version, rs, t, pos);
  }

  /** No altered file unlocks unnoticed: two files that unlock under one DEK and carry the same MAC have the
      same header and the same records in the same order, or their own two MAC inputs are an HMAC collision. */
  lemma UnlockedFilesAgreeOrCollide(c: Suite, dek: bytes, d1: bytes, d2: bytes, t: Tape, pos: nat)
    requires Load(c, d1).Ok? && Load(c, d2).Ok?
    requires Unlock(c, Load(c, d1).value, dek, t, pos).Ok? && Unlock(c, Load(c, d2).value, dek, t, pos).Ok?
    requires Load(c, d1).value.header.headerMac == Load(c, d2).value.header.headerMac
    ensures var v1, v2 := Load(c, d1).value, Load(c, d2).value;
            var m1, m2 := MacInput(v1.header, Raws(v1.records)), MacInput(v2.header, Raws(v2.records));
            || (v1.header == v2.header && v1.records == v2.records)
            || (m1 != m2 && c.hmac(MacKey(c, dek), m1) == c.hmac(MacKey(c, dek), m2))
  {
    hide Load, VerifyMac, OpenAll, MigrateAll;
    SameMacSameVaultOrCollision(c, dek, d1, d2);
  }

  /** Two DEKs are one, or HKDF collides on them, or HMAC does on the keys derived from them, at the very bytes
      the file's MAC covers. */
  predicate SameDekOrCollision(c: Suite, dek: bytes, other: bytes, h: VaultHeader, raws: seq<RawRecord>) {
    var info := Ascii("header-mac");
    || dek == other
    || HkdfCollides(c, dek, other, info)
    || (c.hkdf(dek, info) != c.hkdf(other, info)
        && c.hmac(c.hkdf(dek, info), MacInput(h, raws)) == c.hmac(c.hkdf(other, info), MacInput(h, raws)))
  }

  /** The wrong DEK never unlocks: any file that unlocks under one DEK answers every other with the
      authentication error, short of a collision. */
  lemma WrongDekFails(c: Suite, d: bytes, dek: bytes, other: bytes, t: Tape, pos: nat, t2: Tape, pos2: nat)
    requires Load(c, d).Ok? && Unlock(c, Load(c, d).value, dek, t, pos).Ok?
    ensures var v := Load(c, d).value;
            || SameDekOrCollision(c, dek, other, v.header, Raws(v.records))
            || Unlock(c, v, other, t2, pos2) == Err(AuthFailed)
  {
    hide *;
    var v := Load(c, d).value;
    UnlockAuthenticates(c, v, dek, t, pos);
    UnlockAuthenticates(c, v, other, t2, pos2);
    if VerifyMac(c, other, v.header, v.records) {
      BothAuthenticate(c, dek, other, v.header, v.records);
    }
  }

  lemma UnlockAuthenticates(c: Suite, v: LockedVault, dek: bytes, t: Tape, pos: nat)
    ensures Unlock(c, v, dek, t, pos).Ok? ==> VerifyMac(c, dek, v.header, v.records)
    ensures !VerifyMac(c, dek, v.header, v.records) ==> Unlock(c, v, dek, t, pos) == Err(AuthFailed)
  {
    hide VerifyMac, OpenAll, MigrateAll;
  }

  lemma BothAuthenticate(c: Suite, dek: bytes, other: bytes, h: VaultHeader, rs: RecordsRaw)
    requires VerifyMac(c, dek, h, rs) && VerifyMac(c, other, h, rs)
    ensures SameDekOrCollision(c, dek, other, h, Raws(rs))
  {
    hide HeaderBytes, RecordSet, Ascii, VerifyMac;
    MacNeedsTheDek(c, dek, other, h, rs);
  }

  /** The failing family is real: a vault that accepted one name of 4097 bytes saves without complaint
      and can never be unlocked again. */
  lemma OneLongNameLosesTheVault(c: Suite, dek: bytes, h: VaultHeader, value: Text, t: Tape, pos: nat)
    requires c.Lawful() && HeaderFits(h) && h.formatVersion == FORMAT_VERSION
    requires ValueCtLen(|value|) < U32_LIMIT
    ensures ValidUtf8(seq(4097, _ => 0x61))
    ensures var added := Add(c, Mem(h, [], Unlocked(dek), None), seq(4097, _ => 0x61), value, t, pos);
            var saved := Save(c, added.mem, None, SaveEnv(true, true, true), t, added.pos);
            && added.result.Ok? && saved.result.Ok? && saved.disk.Some?
            && Load(c, saved.disk.value).Ok?
            && Unlock(c, Load(c, saved.disk.value).value, dek, t, saved.pos).Err?
  {
    hide SealValue, SavedImage, Load, Unlock, HeaderBytes, ValueCtLen, NameCtLen;
    RepeatedAsciiIsText(0x61, 4097);
    var name: Text := seq(4097, _ => 0x61);
    var added := Add(c, Mem(h, [], Unlocked(dek), None), name, value, t, pos);
    var id := DrawId(At(t, pos, 16));
    var r := added.mem.records[0];
    assert r == Record(id, name, SealValue(c, dek, id, h.formatVersion, value, At(t, pos + 16, 24)));
    LongNameSize(c, dek, id, h.formatVersion, value, At(t, pos + 16, 24));
    assert added.mem.records == [r];
    assert PaddedCount(1) == 8;
    SaveThenUnlock(c, dek, h, [r], t, added.pos, t, SavedPos(1, added.pos) + 8);
    assert r in [r];
  }

  lemma LongNameSize(c: Suite, dek: bytes, id: u128, version: u16, value: Text, nonce: bytes)
    requires c.Lawful() && |nonce| == NONCE_LEN && ValueCtLen(|value|) < U32_LIMIT
    ensures NameCtLen(4097) < U32_LIMIT
    ensures |SealValue(c, dek, id, version, value, nonce)| < U32_LIMIT
  {
    PaddedCovers(4 + |value|, VALUE_BUCKET);
    OpenSealedValue(c, dek, id, version, value, nonce);
  }
}
