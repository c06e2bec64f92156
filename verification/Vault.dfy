/** The vault state machine: in-memory edits, unlocking, migration, and the image `save` writes. */
module Vault {
  import opened Bytes
  import opened Crypto
  import opened Header
  import opened Sealing
  import opened Shuffle
  import opened Text
  import opened VaultFile
  import opened Wrappers

  /** A record of an unlocked vault: its name is in the clear, its value stays sealed. */
  datatype Record = Record(id: u128, name: Text, valueCt: bytes)

  datatype State = Locked | Unlocked(dek: bytes)

  datatype Mem = Mem(header: VaultHeader, records: seq<Record>, state: State, loaded: Option<bytes>)

  datatype Outcome<T> = Outcome(mem: Mem, result: Result<T>, pos: nat)

  // ---------- edits ----------

  function Find(rs: seq<Record>, name: Text): (r: Option<Record>)
    ensures r.Some? ==> r.value in rs && r.value.name == name
    ensures r.None? <==> forall x :: x in rs ==> x.name != name
  {
    if rs == [] then None
    else if rs[0].name == name then Some(rs[0])
    else
      var r := Find(rs[1..], name);
      assert rs == [rs[0]] + rs[1..];
      r
  }

  function Without(rs: seq<Record>, name: Text): seq<Record> {
    if rs == [] then []
    else (if rs[0].name == name then [] else [rs[0]]) + Without(rs[1..], name)
  }

  /** `retain`: every record of another name stays, as often as it was there. */
  lemma {:induction false} WithoutElements(rs: seq<Record>, name: Text)
    ensures forall x :: multiset(Without(rs, name))[x] == if x.name == name then 0 else multiset(rs)[x]
    decreases |rs|
  {
    if rs != [] {
      WithoutElements(rs[1..], name);
      assert rs == [rs[0]] + rs[1..];
      var head := if rs[0].name == name then [] else [rs[0]];
      assert Without(rs, name) == head + Without(rs[1..], name);
    }
  }

  function DrawId(draw: bytes): u128
    requires |draw| == 16
  {
    LEOfFromLE(draw); PowerValues();
    FromLE(draw)
  }

  lemma EveryIdDrawn(id: u128)
    ensures DrawId(LE(id, 16)) == id
  {
    hide LE, FromLE, Pow256;
    FromLEOfLE(id, 16);
    PowerValues();
    SmallMod(id, 0x1_0000_0000_0000_0000_0000_0000_0000_0000);
  }

  /** Seals the value under a fresh id and appends the record: 16 random bytes, then a 24-byte nonce. */
  function Insert(c: Suite, m: Mem, name: Text, value: Text, t: Tape, pos: nat): Outcome<()> {
    match m.state
    case Locked => Outcome(m, Err(VaultLocked), pos)
    case Unlocked(dek) =>
      var id := DrawId(At(t, pos, 16));
      var ct := SealValue(c, dek, id, m.header.formatVersion, value, At(t, pos + 16, 24));
      Outcome(m.(records := m.records + [Record(id, name, ct)]), Ok(()), pos + 40)
  }

  /** The random source decides id and nonce, and any: whatever the two, some source makes them the record's. */
  lemma SourceDecidesRecord(c: Suite, m: Mem, name: Text, value: Text, id: u128, nonce: bytes, pos: nat)
    returns (t: Tape)
    requires m.state.Unlocked? && |nonce| == NONCE_LEN
    ensures var ct := SealValue(c, m.state.dek, id, m.header.formatVersion, value, nonce);
            Insert(c, m, name, value, t, pos).mem.records == m.records + [Record(id, name, ct)]
  {
    hide LE, At, SealValue, WithBlocks;
    var block := LE(id, 16) + nonce;
    var none: Tape := (i: nat) => 0;
    t := WithBlocks(none, pos, 40, [block]);
    BlocksDelivered(none, pos, 40, [block]);
    assert At(t, pos + 40 * 0, 40) == [block][0];
    PartOf(t, pos, 40, 0, 16);
    PartOf(t, pos, 40, 16, 24);
    assert block[0..16] == LE(id, 16) && block[16..40] == nonce;
    EveryIdDrawn(id);
  }

  function Add(c: Suite, m: Mem, name: Text, value: Text, t: Tape, pos: nat): Outcome<()> {
    if Find(m.records, name).Some? then Outcome(m, Err(Duplicate(name)), pos)
    else Insert(c, m, name, value, t, pos)
  }

  /** Old records go first, then the key is asked for. */
  function Upsert(c: Suite, m: Mem, name: Text, value: Text, t: Tape, pos: nat): Outcome<()> {
    Insert(c, m.(records := Without(m.records, name)), name, value, t, pos)
  }

  function Remove(m: Mem, name: Text): (Mem, bool) {
    var kept := Without(m.records, name);
    (m.(records := kept), |kept| != |m.records|)
  }

  function Get(c: Suite, m: Mem, name: Text): Result<Text> {
    match m.state
    case Locked => Err(VaultLocked)
    case Unlocked(dek) =>
      match Find(m.records, name)
      case None => Err(NotFound(name))
      case Some(r) => OpenValue(c, dek, r.id, m.header.formatVersion, r.valueCt)
  }

  function Names(rs: seq<Record>): (names: seq<Text>)
    ensures |names| == |rs|
    ensures forall i :: 0 <= i < |rs| ==> names[i] == rs[i].name
  {
    seq(|rs|, i requires 0 <= i < |rs| => rs[i].name)
  }

  /** `upsert` that fails leaves the vault as it was exactly when the vault is unlocked or never held the
      name: on a locked vault the old value is already gone. */
  lemma UpsertIsAtomicIff(c: Suite, m: Mem, name: Text, value: Text, t: Tape, pos: nat)
    ensures var o := Upsert(c, m, name, value, t, pos);
            (o.result.Err? ==> o.mem == m) <==> (m.state.Unlocked? || Find(m.records, name).None?)
  {
    if Find(m.records, name).Some? {
      var r := Find(m.records, name).value;
      WithoutElements(m.records, name);
      assert multiset(m.records)[r] > 0 && multiset(Without(m.records, name))[r] == 0;
    } else {
      NothingToRemove(m.records, name);
    }
  }

  lemma {:induction false} NothingToRemove(rs: seq<Record>, name: Text)
    requires Find(rs, name).None?
    ensures Without(rs, name) == rs
  {
    if rs != [] {
      assert rs[0] in rs;
      NothingToRemove(rs[1..], name);
    }
  }

  /** What `add` stored under one DEK, `get` returns under no other, unless HKDF collides on the two. */
  lemma AddedSecretNeedsTheDek(c: Suite, m: Mem, name: Text, value: Text, other: bytes, t: Tape, pos: nat)
    requires c.Lawful() && m.state.Unlocked? && Find(m.records, name).None? && |value| < U32_LIMIT
    requires var id := DrawId(At(t, pos, 16));
             var ct := SealValue(c, m.state.dek, id, m.header.formatVersion, value, At(t, pos + 16, 24));
             OpensOnlyUnder(c, c.hkdf(m.state.dek, Ascii("record-value-v3") + LE(id, 16)),
                            LE(id, 16) + LE(m.header.formatVersion, 2), ct)
    ensures var o := Add(c, m, name, value, t, pos);
            && o.result == Ok(())
            && (Get(c, o.mem.(state := Unlocked(other)), name) == Ok(value) <==>
                  || other == m.state.dek
                  || HkdfCollides(c, m.state.dek, other, Ascii("record-value-v3") + LE(DrawId(At(t, pos, 16)), 16)))
  {
    hide At, LE, Ascii, SealValue, OpenValue, OpensOnlyUnder, HkdfCollides, DrawId;
    var dek, id, version := m.state.dek, DrawId(At(t, pos, 16)), m.header.formatVersion;
    ValueNeedsTheDek(c, dek, other, id, version, value, At(t, pos + 16, 24));
    FindAppended(m.records, Record(id, name, SealValue(c, dek, id, version, value, At(t, pos + 16, 24))));
  }

  lemma {:induction false} FindAppended(rs: seq<Record>, r: Record)
    requires Find(rs, r.name).None?
    ensures Find(rs + [r], r.name) == Some(r)
    decreases |rs|
  {
    if rs == [] {
      assert rs + [r] == [r];
    } else {
      assert rs[0] in rs;
      assert (rs + [r])[1..] == rs[1..] + [r];
      FindAppended(rs[1..], r);
    }
  }

  // ---------- unlocking ----------

  /** Opens each name in turn, dropping tombstones and stopping at the first that does not open. */
  function OpenAll(c: Suite, dek: bytes, version: u16, raws: seq<RawRecord>, acc: seq<Record>): Result<seq<Record>>
    decreases |raws|
  {
    if raws == [] then Ok(acc)
    else
      var plain :- OpenName(c, dek, raws[0].id, version, raws[0].nameCt);
      var next := match plain
        case Some(name) => acc + [Record(raws[0].id, name, raws[0].valueCt)]
        case None => acc;
      OpenAll(c, dek, version, raws[1..], next)
  }

  function OpenLegacy(c: Suite, dek: bytes, r: RawRecordV2): Result<bytes> {
    AeadOpen(c, Subkey(c, dek, LEGACY_LABEL, r.id), LegacyAad(r.id, r.name), r.ct)
  }

  /** Opens each legacy value and seals it again as version 3, one fresh nonce for each. */
  function MigrateAll(
      c: Suite, dek: bytes, raws: seq<RawRecordV2>, acc: seq<Record>, t: Tape, pos: nat): Result<seq<Record>>
    decreases |raws|
  {
    if raws == [] then Ok(acc)
    else
      var value :- OpenLegacy(c, dek, raws[0]);
      var ct := SealValue(c, dek, raws[0].id, FORMAT_VERSION, value, At(t, pos, 24));
      MigrateAll(c, dek, raws[1..], acc + [Record(raws[0].id, raws[0].name, ct)], t, pos + 24)
  }

  function Unlock(c: Suite, v: LockedVault, dek: bytes, t: Tape, pos: nat): Result<Mem> {
    if !VerifyMac(c, dek, v.header, v.records) then Err(AuthFailed) else
    match v.records
    case V3(raws) =>
      var records :- OpenAll(c, dek, v.header.formatVersion, raws, []);
      Ok(Mem(v.header, records, Unlocked(dek), Some(v.fingerprint)))
    case V2(raws) =>
      var records :- MigrateAll(c, dek, raws, [], t, pos);
      Ok(Mem(v.header.(formatVersion := FORMAT_VERSION), records, Unlocked(dek), Some(v.fingerprint)))
  }

  // ---------- the image of a save ----------

  function RealRaw(c: Suite, dek: bytes, version: u16, r: Record, nonce: bytes): RawRecord {
    RawRecord(r.id, SealName(c, dek, r.id, version, REAL, r.name, nonce), r.valueCt)
  }

  function RealRaws(c: Suite, dek: bytes, version: u16, rs: seq<Record>, t: Tape, pos: nat): (raws: seq<RawRecord>)
    ensures |raws| == |rs|
  {
    seq(|rs|, i requires 0 <= i < |rs| => RealRaw(c, dek, version, rs[i], At(t, pos + 24 * i, 24)))
  }

  function TombstoneRaw(c: Suite, dek: bytes, version: u16, t: Tape, pos: nat): RawRecord {
    var id := DrawId(At(t, pos, 16));
    RawRecord(id, SealName(c, dek, id, version, TOMBSTONE, [], At(t, pos + 16, 24)),
              SealValue(c, dek, id, version, [], At(t, pos + 40, 24)))
  }

  function Tombstones(c: Suite, dek: bytes, version: u16, k: nat, t: Tape, pos: nat): (raws: seq<RawRecord>)
    ensures |raws| == k
  {
    seq(k, i requires 0 <= i < k => TombstoneRaw(c, dek, version, t, pos + 64 * i))
  }

  function PaddedCount(n: nat): (m: nat)
    ensures m >= n && m >= COUNT_BUCKET
  {
    PaddedCovers(n, COUNT_BUCKET);
    PaddedLen(n, COUNT_BUCKET)
  }

  /** The record set before shuffling: every real record, then tombstones up to the count bucket. */
  function PaddedRaws(c: Suite, dek: bytes, version: u16, rs: seq<Record>, t: Tape, pos: nat): (raws: seq<RawRecord>)
    ensures |raws| == PaddedCount(|rs|)
  {
    RealRaws(c, dek, version, rs, t, pos)
      + Tombstones(c, dek, version, PaddedCount(|rs|) - |rs|, t, pos + 24 * |rs|)
  }

  function ShufflePos(n: nat, pos: nat): nat {
    pos + 24 * n + 64 * (PaddedCount(n) - n)
  }

  function SavedRaws(c: Suite, dek: bytes, version: u16, rs: seq<Record>, t: Tape, pos: nat): (raws: seq<RawRecord>)
    ensures |raws| == PaddedCount(|rs|)
    ensures multiset(raws) == multiset(PaddedRaws(c, dek, version, rs, t, pos))
  {
    Shuffled(PaddedRaws(c, dek, version, rs, t, pos), DrawnChoices(t, ShufflePos(|rs|, pos), PaddedCount(|rs|)))
  }

  function SavedHeader(c: Suite, dek: bytes, h: VaultHeader, raws: seq<RawRecord>): VaultHeader {
    h.(headerMac := ComputeMac(c, dek, h, raws))
  }

  function SavedImage(c: Suite, dek: bytes, h: VaultHeader, rs: seq<Record>, t: Tape, pos: nat): bytes {
    var raws := SavedRaws(c, dek, h.formatVersion, rs, t, pos);
    FileBytes(SavedHeader(c, dek, h, raws), raws)
  }

  /** Random bytes an image takes. */
  function SavedPos(n: nat, pos: nat): nat {
    ShufflePos(n, pos) + 8 * (PaddedCount(n) - 1)
  }

  /** How the file system answers one save: the fingerprint read, the synced write, the rename. */
  datatype SaveEnv = SaveEnv(readOk: bool, writeOk: bool, renameOk: bool)

  datatype SaveOutcome = SaveOutcome(mem: Mem, disk: Option<bytes>, result: Result<()>, pos: nat)

  /** A read of the path that fails counts as an absent file and skips the check. */
  predicate ChangedSinceLoad(c: Suite, m: Mem, disk: Option<bytes>, env: SaveEnv) {
    m.loaded.Some? && env.readOk && disk.Some? && c.sha256(disk.value) != m.loaded.value
  }

  function Save(c: Suite, m: Mem, disk: Option<bytes>, env: SaveEnv, t: Tape, pos: nat): SaveOutcome {
    match m.state
    case Locked => SaveOutcome(m, disk, Err(VaultLocked), pos)
    case Unlocked(dek) =>
      var image := SavedImage(c, dek, m.header, m.records, t, pos);
      var pos' := SavedPos(|m.records|, pos);
      if ChangedSinceLoad(c, m, disk, env) then SaveOutcome(m, disk, Err(Provider(ChangedOnDisk)), pos')
      else if !env.writeOk || !env.renameOk then SaveOutcome(m, disk, Err(Io), pos' + 8)
      else SaveOutcome(m.(loaded := Some(c.sha256(image))), Some(image), Ok(()), pos' + 8)
  }

  /** A save that fails changes neither the vault nor the file; one that succeeds leaves the vault holding the
      fingerprint of exactly what it put at the path, and nothing else of the vault changed. */
  lemma SaveAllOrNothing(c: Suite, m: Mem, disk: Option<bytes>, env: SaveEnv, t: Tape, pos: nat)
    ensures var o := Save(c, m, disk, env, t, pos);
            && (o.result.Err? ==> o.mem == m && o.disk == disk)
            && (o.result.Ok? ==>
                  && o.disk.Some? && o.mem.loaded == Some(c.sha256(o.disk.value))
                  && o.mem.(loaded := m.loaded) == m)
  {
    hide SavedImage, SavedPos;
  }

  /** Two vaults loaded from one file: once one has saved, the other's save is refused, and leaves the file of
      the first alone, exactly when the two files have different fingerprints. */
  lemma SecondSaverRefusedIff(c: Suite, m1: Mem, m2: Mem, file: bytes, env1: SaveEnv, env2: SaveEnv,
                              t1: Tape, p1: nat, t2: Tape, p2: nat)
    requires m1.loaded == m2.loaded == Some(c.sha256(file)) && m2.state.Unlocked? && env2.readOk
    requires Save(c, m1, Some(file), env1, t1, p1).result.Ok?
    ensures var first := Save(c, m1, Some(file), env1, t1, p1);
            var second := Save(c, m2, first.disk, env2, t2, p2);
            && first.disk.Some?
            && (second.result == Err(Provider(ChangedOnDisk)) <==> c.sha256(first.disk.value) != c.sha256(file))
            && (c.sha256(first.disk.value) != c.sha256(file) ==> second.disk == first.disk && second.mem == m2)
  {
    hide SavedImage, SavedPos;
    SaveAllOrNothing(c, m1, Some(file), env1, t1, p1);
    var first := Save(c, m1, Some(file), env1, t1, p1);
    SaveAllOrNothing(c, m2, first.disk, env2, t2, p2);
  }
}
