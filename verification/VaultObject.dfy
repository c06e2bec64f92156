/** The vault as the object it is: methods that update its fields, each tied to the state functions of `Vault`. */
module VaultObject {
  import opened Bytes
  import opened Crypto
  import opened Header
  import M = Vault
  import opened Sealing
  import opened Shuffle
  import opened Text
  import opened VaultFile
  import opened Wrappers

  /** One directory: the vault's path and the temporary file a save writes beside it. */
  class Disk {
    var path: Option<bytes>
    var temp: Option<bytes>

    constructor (path: Option<bytes>)
      ensures this.path == path && temp == None
    {
      this.path := path;
      temp := None;
    }

    method Read(ok: bool) returns (r: Option<bytes>)
      ensures r == if ok then path else None
    {
      r := if ok then path else None;
    }

    method WriteSynced(b: bytes, ok: bool)
      modifies this
      ensures path == old(path)
      ensures ok ==> temp == Some(b)
    {
      temp := if ok then Some(b) else Some(b[..|b| / 2]);
    }

    method Rename(ok: bool)
      modifies this
      ensures if ok then path == old(temp) && temp == None else path == old(path) && temp == old(temp)
    {
      if ok {
        path, temp := temp, None;
      }
    }

    method RemoveTemp()
      modifies this
      ensures path == old(path) && temp == None
    {
      temp := None;
    }
  }

  class Vault {
    const c: Suite
    var header: VaultHeader
    var records: seq<M.Record>
    var state: M.State
    var loadedFingerprint: Option<bytes>

    ghost function View(): M.Mem
      reads this
    {
      M.Mem(header, records, state, loadedFingerprint)
    }

    constructor (c: Suite, dek: bytes, header: VaultHeader, records: seq<M.Record>, loaded: Option<bytes>)
      ensures this.c == c && View() == M.Mem(header, records, M.Unlocked(dek), loaded)
    {
      this.c := c;
      this.header := header;
      this.records := records;
      this.state := M.Unlocked(dek);
      this.loadedFingerprint := loaded;
    }

    method Dek() returns (r: Result<bytes>)
      ensures r == if state.Unlocked? then Ok(state.dek) else Err(VaultLocked)
    {
      match state
      case Unlocked(d) => r := Ok(d);
      case Locked => r := Err(VaultLocked);
    }

    method InsertRecord(name: Text, value: Text, rng: Rng) returns (r: Result<()>)
      modifies this, rng
      ensures var o := M.Insert(c, old(View()), name, value, rng.tape, old(rng.pos));
              View() == o.mem && r == o.result && rng.pos == o.pos
    {
      var dek :- Dek();
      var draw := rng.Fill(16);
      var id := M.DrawId(draw);
      var nonce := rng.Fill(24);
      var ct := SealValue(c, dek, id, header.formatVersion, value, nonce);
      records := records + [M.Record(id, name, ct)];
      return Ok(());
    }

    method Add(name: Text, value: Text, rng: Rng) returns (r: Result<()>)
      modifies this, rng
      ensures var o := M.Add(c, old(View()), name, value, rng.tape, old(rng.pos));
              View() == o.mem && r == o.result && rng.pos == o.pos
    {
      if M.Find(records, name).Some? {
        return Err(Duplicate(name));
      }
      r := InsertRecord(name, value, rng);
    }

    method Upsert(name: Text, value: Text, rng: Rng) returns (r: Result<()>)
      modifies this, rng
      ensures var o := M.Upsert(c, old(View()), name, value, rng.tape, old(rng.pos));
              View() == o.mem && r == o.result && rng.pos == o.pos
    {
      records := M.Without(records, name);
      r := InsertRecord(name, value, rng);
    }

    method Remove(name: Text) returns (any: bool)
      modifies this
      ensures (View(), any) == M.Remove(old(View()), name)
    {
      var before := |records|;
      records := M.Without(records, name);
      any := |records| != before;
    }

    method Get(name: Text) returns (r: Result<Text>)
      ensures r == M.Get(c, View(), name)
    {
      var dek :- Dek();
      match M.Find(records, name)
      case None => return Err(NotFound(name));
      case Some(rec) =>
        var aad := RecordAad(rec.id, header.formatVersion);
        var padded :- AeadOpen(c, Subkey(c, dek, VALUE_LABEL, rec.id), aad, rec.valueCt);
        var value :- DecodeValue(padded);
        if !ValidUtf8(value) {
          return Err(Format(ValueUtf8));
        }
        return Ok(value);
    }

    method List() returns (names: seq<Text>)
      ensures names == M.Names(records)
    {
      names := M.Names(records);
    }

    method Lock()
      modifies this
      ensures View() == old(View()).(state := M.Locked)
    {
      state := M.Locked;
    }

    /** The record loop of `save`: each name sealed under a fresh nonce, each value kept as it is. */
    method BuildReals(dek: bytes, rng: Rng) returns (raws: seq<RawRecord>)
      modifies rng
      ensures raws == M.RealRaws(c, dek, header.formatVersion, records, rng.tape, old(rng.pos))
      ensures rng.pos == old(rng.pos) + 24 * |records|
    {
      hide M.RealRaw, At;
      var version := header.formatVersion;
      raws := [];
      for i := 0 to |records|
        invariant rng.pos == old(rng.pos) + 24 * i
        invariant |raws| == i
        invariant forall k :: 0 <= k < i ==>
          raws[k] == M.RealRaw(c, dek, version, records[k], At(rng.tape, old(rng.pos) + 24 * k, 24))
      {
        var nonce := rng.Fill(24);
        raws := raws + [M.RealRaw(c, dek, version, records[i], nonce)];
      }
    }

    /** Then tombstones until the count bucket is full. */
    method BuildRaws(dek: bytes, rng: Rng) returns (raws: seq<RawRecord>)
      modifies rng
      ensures raws == M.PaddedRaws(c, dek, header.formatVersion, records, rng.tape, old(rng.pos))
      ensures rng.pos == M.ShufflePos(|records|, old(rng.pos))
    {
      hide M.TombstoneRaw, M.RealRaws, M.PaddedCount;
      var n, version := |records|, header.formatVersion;
      var target := M.PaddedCount(n);
      raws := BuildReals(dek, rng);
      ghost var reals, start := raws, rng.pos;
      while |raws| < target
        invariant n <= |raws| <= target
        invariant rng.pos == start + 64 * (|raws| - n)
        invariant raws[..n] == reals
        invariant forall k :: n <= k < |raws| ==>
          raws[k] == M.TombstoneRaw(c, dek, version, rng.tape, start + 64 * (k - n))
      {
        var tomb := BuildTombstone(dek, rng);
        raws := raws + [tomb];
      }
      assert raws[n..] == M.Tombstones(c, dek, version, target - n, rng.tape, start);
      assert raws == raws[..n] + raws[n..];
    }

    method BuildTombstone(dek: bytes, rng: Rng) returns (r: RawRecord)
      modifies rng
      ensures r == M.TombstoneRaw(c, dek, header.formatVersion, rng.tape, old(rng.pos))
      ensures rng.pos == old(rng.pos) + 64
    {
      var draw := rng.Fill(16);
      var id := M.DrawId(draw);
      var nonce := rng.Fill(24);
      var nameCt := SealName(c, dek, id, header.formatVersion, TOMBSTONE, [], nonce);
      nonce := rng.Fill(24);
      var valueCt := SealValue(c, dek, id, header.formatVersion, [], nonce);
      r := RawRecord(id, nameCt, valueCt);
    }

    /** The bytes of a save, computed without touching the vault. */
    method BuildImage(dek: bytes, rng: Rng) returns (out: bytes)
      modifies rng
      ensures out == M.SavedImage(c, dek, header, records, rng.tape, old(rng.pos))
      ensures rng.pos == M.SavedPos(|records|, old(rng.pos))
    {
      hide M.PaddedRaws, Shuffled, DrawnChoices, HeaderBytes, RecordSet;
      var padded := BuildRaws(dek, rng);
      var a := new RawRecord[|padded|](i requires 0 <= i < |padded| => padded[i]);
      assert a[..] == padded;
      ShuffleInPlace(a, rng);
      var raws := a[..];
      assert raws == M.SavedRaws(c, dek, header.formatVersion, records, rng.tape, old(rng.pos));
      var mac := MacOf(c, dek, header, raws);
      var headerBytes := ToBytes(header.(headerMac := mac));
      out := PushBlob([], headerBytes, RecordSet(raws));
      out := PushRecordSet(out, raws);
    }

    method Save(disk: Disk, env: M.SaveEnv, rng: Rng) returns (r: Result<()>)
      modifies this, disk, rng
      ensures var o := M.Save(c, old(View()), old(disk.path), env, rng.tape, old(rng.pos));
              View() == o.mem && disk.path == o.disk && r == o.result && rng.pos == o.pos
      ensures old(disk.temp).None? ==> disk.temp.None?
    {
      hide M.SavedImage, M.SavedPos;
      var dek :- Dek();
      var out := BuildImage(dek, rng);
      if loadedFingerprint.Some? {
        var current := disk.Read(env.readOk);
        if current.Some? && c.sha256(current.value) != loadedFingerprint.value {
          return Err(Provider(ChangedOnDisk));
        }
      }
      var suffix := rng.Fill(8);
      disk.WriteSynced(out, env.writeOk);
      if !env.writeOk {
        disk.RemoveTemp();
        return Err(Io);
      }
      disk.Rename(env.renameOk);
      if !env.renameOk {
        disk.RemoveTemp();
        return Err(Io);
      }
      loadedFingerprint := Some(c.sha256(out));
      return Ok(());
    }
  }

  /** Names are opened one by one; the first that does not open ends the unlock. */
  method OpenNames(c: Suite, dek: bytes, version: u16, raws: seq<RawRecord>) returns (r: Result<seq<M.Record>>)
    ensures r == M.OpenAll(c, dek, version, raws, [])
  {
    hide OpenName;
    var records: seq<M.Record> := [];
    for i := 0 to |raws|
      invariant M.OpenAll(c, dek, version, raws, []) == M.OpenAll(c, dek, version, raws[i..], records)
    {
      assert raws[i..][1..] == raws[i + 1..];
      var plain :- OpenName(c, dek, raws[i].id, version, raws[i].nameCt);
      match plain
      case Some(name) => records := records + [M.Record(raws[i].id, name, raws[i].valueCt)];
      case None =>
    }
    return Ok(records);
  }

  method MigrateRecords(c: Suite, dek: bytes, raws: seq<RawRecordV2>, rng: Rng) returns (r: Result<seq<M.Record>>)
    modifies rng
    ensures r == M.MigrateAll(c, dek, raws, [], rng.tape, old(rng.pos))
    ensures r.Ok? ==> rng.pos == old(rng.pos) + 24 * |raws|
  {
    hide M.OpenLegacy, SealValue, At;
    var records: seq<M.Record> := [];
    for i := 0 to |raws|
      invariant rng.pos == old(rng.pos) + 24 * i
      invariant M.MigrateAll(c, dek, raws, [], rng.tape, old(rng.pos))
             == M.MigrateAll(c, dek, raws[i..], records, rng.tape, rng.pos)
    {
      assert raws[i..][1..] == raws[i + 1..];
      var value :- M.OpenLegacy(c, dek, raws[i]);
      var nonce := rng.Fill(24);
      var ct := SealValue(c, dek, raws[i].id, FORMAT_VERSION, value, nonce);
      records := records + [M.Record(raws[i].id, raws[i].name, ct)];
    }
    return Ok(records);
  }

  method UnlockWithDek(c: Suite, v: LockedVault, dek: bytes, rng: Rng) returns (r: Result<Vault>)
    modifies rng
    ensures match M.Unlock(c, v, dek, rng.tape, old(rng.pos))
            case Ok(m) => r.Ok? && fresh(r.value) && r.value.c == c && r.value.View() == m
            case Err(e) => r.Err? && r.error == e
  {
    hide M.OpenAll, M.MigrateAll, VerifyMac;
    if !VerifyMac(c, dek, v.header, v.records) {
      return Err(AuthFailed);
    }
    var records: seq<M.Record>;
    var header := v.header;
    match v.records
    case V3(raws) =>
      records :- OpenNames(c, dek, header.formatVersion, raws);
      var vault := new Vault(c, dek, header, records, Some(v.fingerprint));
      return Ok(vault);
    case V2(raws) =>
      records :- MigrateRecords(c, dek, raws, rng);
      var vault := new Vault(c, dek, header.(formatVersion := FORMAT_VERSION), records, Some(v.fingerprint));
      return Ok(vault);
  }
}
