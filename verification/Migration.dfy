/** Legacy images: the writer that makes them, and what unlocking one preserves. */
module Migration {
  import opened Bytes
  import opened Crypto
  import opened Header
  import opened Sealing
  import opened SaveReload
  import opened Text
  import opened Vault
  import opened VaultFile
  import opened Wrappers

  datatype Entry = Entry(name: Text, value: bytes)

  const LEGACY_HEADER := VaultHeader(
    MAGIC, 2, false, 1, Argon2Params(CAL_FLOOR_MEM_KIB, CAL_TIME, CAL_PARALLELISM, Zeros(16)),
    [], None, Zeros(48), None, None, Zeros(32))

  function LegacyRaw(c: Suite, dek: bytes, id: u128, e: Entry, nonce: bytes): RawRecordV2 {
    RawRecordV2(id, e.name, c.seal(Subkey(c, dek, LEGACY_LABEL, id), LegacyAad(id, e.name), nonce, e.value))
  }

  /** Record `i` has id `i + 1` and the `i`-th nonce. */
  function LegacyRaws(c: Suite, dek: bytes, es: seq<Entry>, t: Tape, pos: nat): (raws: seq<RawRecordV2>)
    requires |es| < U32_LIMIT
    ensures |raws| == |es|
  {
    seq(|es|, i requires 0 <= i < |es| => LegacyRaw(c, dek, i + 1, es[i], At(t, pos + 24 * i, 24)))
  }

  function LegacyImage(c: Suite, dek: bytes, es: seq<Entry>, t: Tape, pos: nat): bytes
    requires |es| < U32_LIMIT
  {
    var raws := AsRaws(LegacyRaws(c, dek, es, t, pos));
    FileBytes(SavedHeader(c, dek, LEGACY_HEADER, raws), raws)
  }

  /** `build_v2_image`. */
  method BuildV2Image(c: Suite, dek: bytes, es: seq<Entry>, rng: Rng) returns (image: bytes)
    requires |es| < U32_LIMIT
    modifies rng
    ensures image == LegacyImage(c, dek, es, rng.tape, old(rng.pos))
  {
    hide LegacyRaw, HeaderBytes, RecordSet, At;
    var raws: seq<RawRecordV2> := [];
    for i := 0 to |es|
      invariant rng.pos == old(rng.pos) + 24 * i
      invariant |raws| == i
      invariant forall k :: 0 <= k < i ==>
        raws[k] == LegacyRaw(c, dek, k + 1, es[k], At(rng.tape, old(rng.pos) + 24 * k, 24))
    {
      var nonce := rng.Fill(24);
      raws := raws + [LegacyRaw(c, dek, i + 1, es[i], nonce)];
    }
    assert raws == LegacyRaws(c, dek, es, rng.tape, old(rng.pos));
    var framed := AsRaws(raws);
    var mac := MacOf(c, dek, LEGACY_HEADER, framed);
    var hb := ToBytes(LEGACY_HEADER.(headerMac := mac));
    image := PushBlob([], hb, RecordSet(framed));
    image := PushRecordSet(image, framed);
  }

  // ---------- what migration preserves ----------

  /** Every legacy value opens. */
  predicate AllOpen(c: Suite, dek: bytes, raws: seq<RawRecordV2>) {
    forall i :: 0 <= i < |raws| ==> OpenLegacy(c, dek, raws[i]).Ok?
  }

  /** What a legacy record list says: each name with the value its ciphertext opens to. */
  function Entries(c: Suite, dek: bytes, raws: seq<RawRecordV2>): (es: seq<Entry>)
    requires AllOpen(c, dek, raws)
    ensures |es| == |raws|
  {
    seq(|raws|, i requires 0 <= i < |raws| => Entry(raws[i].name, OpenLegacy(c, dek, raws[i]).value))
  }

  /** The current format must be able to frame every migrated value. */
  predicate ValuesFit(es: seq<Entry>) {
    forall i :: 0 <= i < |es| ==> ValueCtLen(|es[i].value|) < U32_LIMIT
  }

  /** A migrated record: the entry's name, with its value sealed as version 3. */
  predicate Migrated(c: Suite, dek: bytes, e: Entry, r: Record) {
    && r.name == e.name
    && |r.valueCt| == ValueCtLen(|e.value|)
    && OpenValue(c, dek, r.id, FORMAT_VERSION, r.valueCt)
       == if ValidUtf8(e.value) then Ok(e.value) else Err(Format(ValueUtf8))
  }

  predicate AllMigrated(c: Suite, dek: bytes, es: seq<Entry>, rs: seq<Record>) {
    |rs| == |es| && forall i :: 0 <= i < |es| ==> Migrated(c, dek, es[i], rs[i])
  }

  /** Migrating record by record from any position keeps every entry, in order. */
  lemma {:induction false} MigrateKeepsEntries(
      c: Suite, dek: bytes, es: seq<Entry>, raws: seq<RawRecordV2>, done: seq<Entry>, acc: seq<Record>,
      t: Tape, pos: nat)
    requires c.Lawful() && AllMigrated(c, dek, done, acc) && |raws| == |es|
    requires forall i :: 0 <= i < |es| ==> ValueCtLen(|es[i].value|) < U32_LIMIT
    requires forall i :: 0 <= i < |es| ==>
      raws[i].name == es[i].name && OpenLegacy(c, dek, raws[i]) == Ok(es[i].value)
    ensures MigrateAll(c, dek, raws, acc, t, pos).Ok?
    ensures AllMigrated(c, dek, done + es, MigrateAll(c, dek, raws, acc, t, pos).value)
    decreases |es|
  {
    hide OpenLegacy, Migrated, SealValue, At;
    if es == [] {
      assert done + es == done;
    } else {
      var r := Record(raws[0].id, raws[0].name,
                      SealValue(c, dek, raws[0].id, FORMAT_VERSION, es[0].value, At(t, pos, 24)));
      ResealedIsMigrated(c, dek, raws[0].id, es[0], At(t, pos, 24));
      MigrateKeepsEntries(c, dek, es[1..], raws[1..], done + [es[0]], acc + [r], t, pos + 24);
      assert done + [es[0]] + es[1..] == done + es;
    }
  }

  lemma ResealedIsMigrated(c: Suite, dek: bytes, id: u128, e: Entry, nonce: bytes)
    requires c.Lawful() && |nonce| == NONCE_LEN && ValueCtLen(|e.value|) < U32_LIMIT
    ensures Migrated(c, dek, e, Record(id, e.name, SealValue(c, dek, id, FORMAT_VERSION, e.value, nonce)))
  {
    PaddedCovers(4 + |e.value|, VALUE_BUCKET);
    OpenSealedValue(c, dek, id, FORMAT_VERSION, e.value, nonce);
  }

  /** Migration fails only on a value that does not open, and never touches an id. */
  lemma {:induction false} MigrateAllIff(
      c: Suite, dek: bytes, raws: seq<RawRecordV2>, acc: seq<Record>, t: Tape, pos: nat)
    ensures MigrateAll(c, dek, raws, acc, t, pos).Ok? <==> AllOpen(c, dek, raws)
    ensures MigrateAll(c, dek, raws, acc, t, pos).Ok? ==>
              var rs := MigrateAll(c, dek, raws, acc, t, pos).value;
              && |rs| == |acc| + |raws| && rs[..|acc|] == acc
              && forall i :: 0 <= i < |raws| ==> rs[|acc| + i].id == raws[i].id
    decreases |raws|
  {
    hide OpenLegacy, SealValue, At;
    if raws != [] {
      assert AllOpen(c, dek, raws) <==> OpenLegacy(c, dek, raws[0]).Ok? && AllOpen(c, dek, raws[1..]) by {
        AllOpenStep(c, dek, raws);
      }
      if OpenLegacy(c, dek, raws[0]).Ok? {
        var ct := SealValue(c, dek, raws[0].id, FORMAT_VERSION, OpenLegacy(c, dek, raws[0]).value, At(t, pos, 24));
        var next := acc + [Record(raws[0].id, raws[0].name, ct)];
        MigrateAllIff(c, dek, raws[1..], next, t, pos + 24);
        MigrateIds(next, acc, raws, MigrateAll(c, dek, raws[1..], next, t, pos + 24));
      }
    }
  }

  lemma AllOpenStep(c: Suite, dek: bytes, raws: seq<RawRecordV2>)
    requires raws != []
    ensures AllOpen(c, dek, raws) <==> OpenLegacy(c, dek, raws[0]).Ok? && AllOpen(c, dek, raws[1..])
  {
    hide OpenLegacy;
    assert raws == [raws[0]] + raws[1..];
    assert forall i :: 0 < i < |raws| ==> raws[i] == raws[1..][i - 1];
    if OpenLegacy(c, dek, raws[0]).Ok? && AllOpen(c, dek, raws[1..]) {
      forall i | 0 <= i < |raws| ensures OpenLegacy(c, dek, raws[i]).Ok? {
        assert i > 0 ==> OpenLegacy(c, dek, raws[1..][i - 1]).Ok?;
      }
    }
    if AllOpen(c, dek, raws) {
      forall i | 0 <= i < |raws[1..]| ensures OpenLegacy(c, dek, raws[1..][i]).Ok? {
        assert raws[1..][i] == raws[i + 1];
      }
    }
  }

  lemma MigrateIds(next: seq<Record>, acc: seq<Record>, raws: seq<RawRecordV2>, all: Result<seq<Record>>)
    requires raws != [] && |next| == |acc| + 1 && next[..|acc|] == acc && next[|acc|].id == raws[0].id
    requires all.Ok? ==> |all.value| == |next| + |raws[1..]| && all.value[..|next|] == next
    requires all.Ok? ==> forall i :: 0 <= i < |raws[1..]| ==> all.value[|next| + i].id == raws[1..][i].id
    ensures all.Ok? ==> all.value[..|acc|] == acc
    ensures all.Ok? ==> forall i :: 0 <= i < |raws| ==> all.value[|acc| + i].id == raws[i].id
  {
    if all.Ok? {
      var rs := all.value;
      assert rs[..|acc|] == rs[..|next|][..|acc|];
      forall i | 0 <= i < |raws| ensures rs[|acc| + i].id == raws[i].id {
        if i == 0 {
          assert rs[|acc|] == rs[..|next|][|acc|];
        } else {
          assert rs[|next| + (i - 1)].id == raws[1..][i - 1].id;
        }
      }
    }
  }

  /** Any legacy file that loads: it unlocks if and only if it authenticates and every value opens, and is then
      a version-3 vault with the same ids and names in the same order, each with its own value. */
  lemma MigrationKeepsEntries(c: Suite, dek: bytes, d: bytes, t: Tape, pos: nat)
    requires c.Lawful() && Load(c, d).Ok? && Load(c, d).value.records.V2?
    ensures var v := Load(c, d).value;
            var raws := v.records.v2;
            var u := Unlock(c, v, dek, t, pos);
            && (u.Ok? <==> VerifyMac(c, dek, v.header, v.records) && AllOpen(c, dek, raws))
            && (u.Ok? ==>
                  && u.value.header == v.header.(formatVersion := FORMAT_VERSION) && HeaderFits(u.value.header)
                  && u.value.state == Unlocked(dek) && u.value.loaded == Some(c.sha256(d))
                  && |u.value.records| == |raws|
                  && (forall i :: 0 <= i < |raws| ==> u.value.records[i].id == raws[i].id)
                  && (ValuesFit(Entries(c, dek, raws)) ==>
                        AllMigrated(c, dek, Entries(c, dek, raws), u.value.records)))
  {
    hide ReadFile, HeaderBytes, MigrateAll, AllMigrated, VerifyMac, OpenLegacy, WellFormed;
    var v := Load(c, d).value;
    var raws := v.records.v2;
    MigrateAllIff(c, dek, raws, [], t, pos);
    LoadedHeaderFits(c, d);
    VersionKeepsLength(v.header);
    if AllOpen(c, dek, raws) && ValuesFit(Entries(c, dek, raws)) {
      var es := Entries(c, dek, raws);
      assert AllMigrated(c, dek, [], []) by { NothingMigrated(c, dek); }
      MigrateKeepsEntries(c, dek, es, raws, [], [], t, pos);
      assert [] + es == es;
    }
  }

  function Resealed(c: Suite, dek: bytes, r: RawRecordV2, value: bytes, nonce: bytes): Record {
    Record(r.id, r.name, SealValue(c, dek, r.id, 3, value, nonce))
  }

  /** Each value is sealed again under a nonce of its own: whatever nonces are wished for, some random source makes
      migration use just those, one a record. */
  lemma SourceDecidesMigration(c: Suite, dek: bytes, raws: seq<RawRecordV2>, nonces: seq<bytes>, pos: nat)
    returns (t: Tape)
    requires AllOpen(c, dek, raws) && |nonces| == |raws|
    requires forall i :: 0 <= i < |nonces| ==> |nonces[i]| == NONCE_LEN
    ensures var es := Entries(c, dek, raws);
            MigrateAll(c, dek, raws, [], t, pos) == Ok(seq(|raws|, i requires 0 <= i < |raws| =>
              Resealed(c, dek, raws[i], es[i].value, nonces[i])))
  {
    hide OpenLegacy, SealValue, At, WithBlocks, MigrateAll;
    var none: Tape := (i: nat) => 0;
    t := WithBlocks(none, pos, 24, nonces);
    BlocksDelivered(none, pos, 24, nonces);
    MigrateDelivered(c, dek, raws, nonces, [], t, pos);
    var es := Entries(c, dek, raws);
    var all := seq(|raws|, i requires 0 <= i < |raws| => Resealed(c, dek, raws[i], es[i].value, nonces[i]));
    var got := MigrateAll(c, dek, raws, [], t, pos).value;
    assert got == all;
  }

  lemma {:induction false} MigrateDelivered(c: Suite, dek: bytes, raws: seq<RawRecordV2>, nonces: seq<bytes>,
                                            acc: seq<Record>, t: Tape, pos: nat)
    requires AllOpen(c, dek, raws) && |nonces| == |raws|
    requires forall i :: 0 <= i < |raws| ==> |nonces[i]| == NONCE_LEN && At(t, pos + 24 * i, 24) == nonces[i]
    ensures var m := MigrateAll(c, dek, raws, acc, t, pos);
            && m.Ok? && |m.value| == |acc| + |raws| && m.value[..|acc|] == acc
            && (forall i :: 0 <= i < |raws| ==>
                  m.value[|acc| + i] == Resealed(c, dek, raws[i], OpenLegacy(c, dek, raws[i]).value, nonces[i]))
    decreases |raws|
  {
    hide OpenLegacy, SealValue, At;
    if raws != [] {
      AllOpenStep(c, dek, raws);
      assert At(t, pos + 24 * 0, 24) == nonces[0];
      var next := acc + [Resealed(c, dek, raws[0], OpenLegacy(c, dek, raws[0]).value, nonces[0])];
      forall i | 0 <= i < |raws[1..]| ensures At(t, pos + 24 + 24 * i, 24) == nonces[1..][i] {
        assert pos + 24 + 24 * i == pos + 24 * (i + 1);
      }
      MigrateDelivered(c, dek, raws[1..], nonces[1..], next, t, pos + 24);
      var all := MigrateAll(c, dek, raws[1..], next, t, pos + 24).value;
      assert all[..|acc|] == all[..|next|][..|acc|];
      forall i | 0 <= i < |raws|
        ensures all[|acc| + i] == Resealed(c, dek, raws[i], OpenLegacy(c, dek, raws[i]).value, nonces[i])
      {
        if i == 0 {
          assert all[|acc|] == all[..|next|][|acc|];
        } else {
          assert all[|next| + (i - 1)] == all[|acc| + i];
        }
      }
    }
  }

  lemma NothingMigrated(c: Suite, dek: bytes)
    ensures AllMigrated(c, dek, [], [])
  {
  }

  lemma VersionKeepsLength(h: VaultHeader)
    requires WellFormed(h)
    ensures WellFormed(h.(formatVersion := FORMAT_VERSION))
    ensures |HeaderBytes(h.(formatVersion := FORMAT_VERSION))| == |HeaderBytes(h)|
  {
    var g := h.(formatVersion := FORMAT_VERSION);
    assert PutWraps(g, []) == PutWraps(h, []);
    PutPcrsLength(h.pcrSelection, PutWraps(h, []));
  }

  // ---------- reading the migrated vault ----------

  /** The value a reader of `name` is owed: that of the first entry with the name. */
  function FirstValue(es: seq<Entry>, name: Text): Option<bytes> {
    if es == [] then None
    else if es[0].name == name then Some(es[0].value)
    else FirstValue(es[1..], name)
  }

  lemma {:induction false} FindIsFirst(c: Suite, dek: bytes, es: seq<Entry>, rs: seq<Record>, name: Text)
    requires AllMigrated(c, dek, es, rs)
    ensures Find(rs, name).Some? <==> FirstValue(es, name).Some?
    ensures Find(rs, name).Some? ==> Migrated(c, dek, Entry(name, FirstValue(es, name).value), Find(rs, name).value)
    decreases |es|
  {
    hide OpenValue;
    if es != [] {
      assert Migrated(c, dek, es[0], rs[0]);
      FindIsFirst(c, dek, es[1..], rs[1..], name);
    }
  }

  predicate SameNameSameValue(es: seq<Entry>) {
    forall i, j :: 0 <= i < |es| && 0 <= j < |es| && es[i].name == es[j].name ==> es[i].value == es[j].value
  }

  lemma {:induction false} FirstValueIsEntry(es: seq<Entry>, name: Text)
    ensures match FirstValue(es, name)
            case None => forall i :: 0 <= i < |es| ==> es[i].name != name
            case Some(v) => exists i :: 0 <= i < |es| && es[i] == Entry(name, v)
  {
    if es != [] {
      FirstValueIsEntry(es[1..], name);
      if es[0].name == name {
        assert es[0] == Entry(name, es[0].value);
      } else if FirstValue(es[1..], name).Some? {
        var v := FirstValue(es[1..], name).value;
        var i :| 0 <= i < |es[1..]| && es[1..][i] == Entry(name, v);
        assert es[i + 1] == Entry(name, v);
      } else {
        forall i | 0 <= i < |es| ensures es[i].name != name {
          assert i > 0 ==> es[i] == es[1..][i - 1];
        }
      }
    }
  }

  /** Every entry sees its own, textual value through its name exactly when no name carries two values. */
  lemma OwnValueIff(es: seq<Entry>)
    ensures (forall i :: 0 <= i < |es| ==> FirstValue(es, es[i].name) == Some(es[i].value)) <==> SameNameSameValue(es)
  {
    forall i | 0 <= i < |es|
      ensures FirstValue(es, es[i].name).Some?
      ensures exists k :: 0 <= k < |es| && es[k] == Entry(es[i].name, FirstValue(es, es[i].name).value)
    {
      FirstValueIsEntry(es, es[i].name);
    }
  }

  /** `get` on a migrated vault answers with the first entry's value, if that is text. */
  lemma GetIsFirst(c: Suite, dek: bytes, es: seq<Entry>, m: Mem, name: Text)
    requires AllMigrated(c, dek, es, m.records)
    requires m.state == Unlocked(dek) && m.header.formatVersion == FORMAT_VERSION
    requires FirstValue(es, name).Some?
    ensures var v := FirstValue(es, name).value;
            Get(c, m, name) == if ValidUtf8(v) then Ok(v) else Err(Format(ValueUtf8))
  {
    FindIsFirst(c, dek, es, m.records, name);
  }

  lemma GetOwnValueIff(c: Suite, dek: bytes, es: seq<Entry>, m: Mem)
    requires AllMigrated(c, dek, es, m.records)
    requires m.state == Unlocked(dek) && m.header.formatVersion == FORMAT_VERSION
    ensures (forall i :: 0 <= i < |es| ==> Get(c, m, es[i].name) == Ok(es[i].value))
       <==> (SameNameSameValue(es) && forall i :: 0 <= i < |es| ==> ValidUtf8(es[i].value))
  {
    hide Get, AllMigrated, ValidUtf8;
    forall i | 0 <= i < |es|
      ensures FirstValue(es, es[i].name).Some?
      ensures var v := FirstValue(es, es[i].name).value;
              Get(c, m, es[i].name) == if ValidUtf8(v) then Ok(v) else Err(Format(ValueUtf8))
    {
      FirstValueIsEntry(es, es[i].name);
      GetIsFirst(c, dek, es, m, es[i].name);
    }
    OwnValueIff(es);
  }

  /** The whole migration, for any legacy file that unlocks: same names in the same order, and `get` returns
      every entry's own value exactly when equal names carry equal values and every value is text. The
      duplicates the legacy format allows resolve to the first of them. */
  lemma MigratedVaultAnswers(c: Suite, dek: bytes, d: bytes, t: Tape, pos: nat)
    requires c.Lawful() && Load(c, d).Ok? && Load(c, d).value.records.V2?
    requires Unlock(c, Load(c, d).value, dek, t, pos).Ok?
    requires AllOpen(c, dek, Load(c, d).value.records.v2)
    requires ValuesFit(Entries(c, dek, Load(c, d).value.records.v2))
    ensures var es := Entries(c, dek, Load(c, d).value.records.v2);
            var m := Unlock(c, Load(c, d).value, dek, t, pos).value;
            && Names(m.records) == seq(|es|, i requires 0 <= i < |es| => es[i].name)
            && (forall name: Text :: FirstValue(es, name).Some? ==>
                  var v := FirstValue(es, name).value;
                  Get(c, m, name) == if ValidUtf8(v) then Ok(v) else Err(Format(ValueUtf8)))
            && ((forall i :: 0 <= i < |es| ==> Get(c, m, es[i].name) == Ok(es[i].value))
                <==> (SameNameSameValue(es) && forall i :: 0 <= i < |es| ==> ValidUtf8(es[i].value)))
  {
    hide Load, Unlock, Get, ValidUtf8, SameNameSameValue, FirstValue, OpenValue, Entries, AllOpen, ValuesFit;
    MigrationKeepsEntries(c, dek, d, t, pos);
    var es := Entries(c, dek, Load(c, d).value.records.v2);
    var m := Unlock(c, Load(c, d).value, dek, t, pos).value;
    forall name: Text | FirstValue(es, name).Some?
      ensures var v := FirstValue(es, name).value;
              Get(c, m, name) == if ValidUtf8(v) then Ok(v) else Err(Format(ValueUtf8))
    {
      GetIsFirst(c, dek, es, m, name);
    }
    GetOwnValueIff(c, dek, es, m);
  }

  /** Migrate, save, reopen: the upgrade of any legacy file that unlocks loses nothing and invents nothing,
      except that a legacy name of more than 4096 bytes survives the migration but makes the upgraded file
      impossible to unlock. */
  lemma UpgradeIsLossless(c: Suite, dek: bytes, d: bytes, t: Tape, pos: nat, t2: Tape, pos2: nat)
    requires c.Lawful() && Load(c, d).Ok? && Load(c, d).value.records.V2?
    requires Unlock(c, Load(c, d).value, dek, t, pos).Ok?
    requires AllOpen(c, dek, Load(c, d).value.records.v2)
    requires var es := Entries(c, dek, Load(c, d).value.records.v2);
             && ValuesFit(es) && PaddedCount(|es|) < U32_LIMIT
             && forall i :: 0 <= i < |es| ==> NameCtLen(|es[i].name|) < U32_LIMIT
    ensures var es := Entries(c, dek, Load(c, d).value.records.v2);
            var m := Unlock(c, Load(c, d).value, dek, t, pos).value;
            var reloaded := Load(c, SavedImage(c, dek, m.header, m.records, t2, pos2));
            && reloaded.Ok?
            && var u := Unlock(c, reloaded.value, dek, t2, pos2);
            && (u.Ok? <==> forall i :: 0 <= i < |es| ==> |es[i].name| <= MAX_NAME_LEN)
            && (u.Ok? ==> multiset(u.value.records) == multiset(m.records) && AllMigrated(c, dek, es, m.records))
  {
    hide Load, Unlock, SavedImage, OpenValue, NameCtLen, ValueCtLen, PaddedCount, HeaderBytes, Entries, AllOpen;
    MigrationKeepsEntries(c, dek, d, t, pos);
    var es := Entries(c, dek, Load(c, d).value.records.v2);
    var m := Unlock(c, Load(c, d).value, dek, t, pos).value;
    forall r | r in m.records
      ensures NameCtLen(|r.name|) < U32_LIMIT && |r.valueCt| < U32_LIMIT
    {
      var i :| 0 <= i < |es| && m.records[i] == r;
      assert Migrated(c, dek, es[i], m.records[i]);
    }
    SaveThenUnlock(c, dek, m.header, m.records, t2, pos2, t2, pos2);
    assert forall i :: 0 <= i < |es| ==> m.records[i] in m.records && m.records[i].name == es[i].name;
  }

  // ---------- the images of the legacy writer ----------

  /** The legacy format must be able to frame every entry, and the current one its migrated value. */
  predicate EntriesFit(es: seq<Entry>) {
    |es| < U32_LIMIT && ValuesFit(es) && forall i :: 0 <= i < |es| ==> |es[i].name| < U32_LIMIT
  }

  lemma LegacyOpens(c: Suite, dek: bytes, id: u128, e: Entry, nonce: bytes)
    requires c.Lawful() && |nonce| == NONCE_LEN
    ensures OpenLegacy(c, dek, LegacyRaw(c, dek, id, e, nonce)) == Ok(e.value)
    ensures |LegacyRaw(c, dek, id, e, nonce).ct| == |e.value| + 40
  {
    OpenSealed(c, Subkey(c, dek, LEGACY_LABEL, id), LegacyAad(id, e.name), nonce, e.value);
  }

  /** A legacy value opens under exactly the DEK it was sealed under, or one on which HKDF collides with it. */
  lemma LegacyNeedsTheDek(c: Suite, dek: bytes, other: bytes, id: u128, e: Entry, nonce: bytes)
    requires c.Lawful() && |nonce| == NONCE_LEN
    requires OpensOnlyUnder(c, c.hkdf(dek, Ascii("record") + LE(id, 16)), LE(id, 16) + LE(2, 2) + e.name,
                            LegacyRaw(c, dek, id, e, nonce).ct)
    ensures OpenLegacy(c, other, LegacyRaw(c, dek, id, e, nonce)) == Ok(e.value)
       <==> other == dek || HkdfCollides(c, dek, other, Ascii("record") + LE(id, 16))
  {
    hide LE, Ascii;
    LegacyOpens(c, dek, id, e, nonce);
  }

  /** And only under its own id and name: a record whose id or name was altered no longer opens. */
  lemma LegacyStaysInPlace(c: Suite, k: bytes, r: RawRecordV2, id: u128, name: Text)
    requires OpensOnlyWith(c, LE(id, 16) + LE(2, 2) + name, r.ct)
    requires OpenLegacy(c, k, r).Ok?
    ensures r.id == id && r.name == name
  {
    hide LE;
    AadsBind(id, 2, r.id, 2, name, r.name);
  }

  lemma LegacyRawsOpen(c: Suite, dek: bytes, es: seq<Entry>, t: Tape, pos: nat)
    requires c.Lawful() && EntriesFit(es)
    ensures var raws := LegacyRaws(c, dek, es, t, pos);
            RecordsFit(AsRaws(raws)) && AllOpen(c, dek, raws) && Entries(c, dek, raws) == es
  {
    hide OpenLegacy;
    var raws := LegacyRaws(c, dek, es, t, pos);
    forall i | 0 <= i < |es|
      ensures RecordFits(AsRaws(raws)[i])
      ensures OpenLegacy(c, dek, raws[i]) == Ok(es[i].value) && raws[i].name == es[i].name
    {
      LegacyOpens(c, dek, i + 1, es[i], At(t, pos + 24 * i, 24));
      PaddedCovers(4 + |es[i].value|, VALUE_BUCKET);
    }
  }

  lemma LegacyHeaderFits()
    ensures HeaderFits(LEGACY_HEADER)
  {
  }

  /** Unlocking the image of any entry list gives a version-3 vault holding the same names in the same
      order, each with its own value. */
  lemma BuiltImageMigrates(c: Suite, dek: bytes, es: seq<Entry>, t: Tape, pos: nat, t2: Tape, pos2: nat)
    requires c.Lawful() && EntriesFit(es)
    ensures var loaded := Load(c, LegacyImage(c, dek, es, t, pos));
            && loaded.Ok? && loaded.value.records.V2?
            && AllOpen(c, dek, loaded.value.records.v2) && Entries(c, dek, loaded.value.records.v2) == es
            && var u := Unlock(c, loaded.value, dek, t2, pos2);
            && u.Ok? && u.value.header.formatVersion == FORMAT_VERSION && u.value.state == Unlocked(dek)
            && AllMigrated(c, dek, es, u.value.records)
  {
    hide LegacyRaws, HeaderBytes, ReadFile, FileBytes, Unlock, AllMigrated, AllOpen, Entries, VerifyMac;
    var raws := LegacyRaws(c, dek, es, t, pos);
    var h := SavedHeader(c, dek, LEGACY_HEADER, AsRaws(raws));
    LegacyHeaderFits();
    MacKeepsLength(LEGACY_HEADER, h.headerMac);
    LegacyRawsOpen(c, dek, es, t, pos);
    FileReadsBackV2(h, raws);
    LegacyMacVerifies(c, dek, raws);
    MigrationKeepsEntries(c, dek, LegacyImage(c, dek, es, t, pos), t2, pos2);
  }

  lemma LegacyMacVerifies(c: Suite, dek: bytes, raws: seq<RawRecordV2>)
    ensures VerifyMac(c, dek, SavedHeader(c, dek, LEGACY_HEADER, AsRaws(raws)), V2(raws))
  {
    SavedMacVerifies(c, dek, LEGACY_HEADER, AsRaws(raws));
  }
}
