/** Crash safety in the vault's own terms: what the file unlocks to when power fails around a save. */
module CrashedSave {
  import opened Bytes
  import opened Crypto
  import opened MapRefinement
  import SaveProtocol
  import opened Text
  import Vault
  import opened VaultFile
  import opened Wrappers

  /** The path is absent where no map is meant, and otherwise unlocks to the map. */
  ghost predicate PathHolds(c: Suite, dek: bytes, path: Option<bytes>, m: Option<map<Text, Text>>) {
    && (path.Some? <==> m.Some?)
    && (path.Some? ==> FileHolds(c, dek, path.value, m.value))
  }

  /** If every image ever put at the path stood for a map, then after a crash at any step of any run, with any
      number of writers, the path stands for the map of the last change that had reached the disk. */
  lemma CrashLeavesAMap(c: Suite, dek: bytes, s0: SaveProtocol.Sys, steps: seq<SaveProtocol.Step>,
                        maps: seq<Option<map<Text, Text>>>, at: nat, garbage: nat -> bytes)
    requires SaveProtocol.Started(s0) && SaveProtocol.Exec(c.sha256, s0, steps).Some?
    requires var s := SaveProtocol.Exec(c.sha256, s0, steps).value;
             && s.durable <= at < |s.history| == |maps|
             && forall k :: 0 <= k < |maps| ==> PathHolds(c, dek, s.history[k].image, maps[k])
    ensures var s := SaveProtocol.Exec(c.sha256, s0, steps).value;
            var s' := SaveProtocol.Apply(c.sha256, s, SaveProtocol.Crash(at, garbage));
            s'.Some? && PathHolds(c, dek, s'.value.Current(), maps[at])
  {
    hide SaveProtocol.Exec, SaveProtocol.Apply, FileHolds, SaveProtocol.Inv;
    SaveProtocol.ReachedKeepsInv(c.sha256, s0, steps);
    SaveProtocol.CrashShows(c.sha256, SaveProtocol.Exec(c.sha256, s0, steps).value, at, garbage);
  }

  /** The writer is saving this vault, and everything before has reached the disk. */
  ghost predicate Saving(c: Suite, dek: bytes, s: SaveProtocol.Sys, id: nat, mem: Vault.Mem, t: Tape, pos: nat) {
    && |s.history| > 0 && s.durable == |s.history| - 1
    && id in s.writers && s.writers[id].out == Vault.SavedImage(c, dek, mem.header, mem.records, t, pos)
  }

  /** One save, cut short anywhere. Until its rename the crashed path unlocks to the map saved before. After its
      rename it unlocks to that map or to the one being saved, as the rename had reached the disk or not. */
  lemma CrashedSaveIsOldOrNew(c: Suite, dek: bytes, s0: SaveProtocol.Sys, steps: seq<SaveProtocol.Step>, id: nat,
                              mem: Vault.Mem, live: map<Text, Text>, saved: Option<map<Text, Text>>,
                              t: Tape, pos: nat, garbage: nat -> bytes)
    requires c.Lawful() && GoodMem(c, dek, mem, live, false) && CanBeReopened(live)
    requires SaveProtocol.Started(s0) && SaveProtocol.Exec(c.sha256, s0, steps).Some?
    requires Saving(c, dek, SaveProtocol.Exec(c.sha256, s0, steps).value, id, mem, t, pos)
    requires PathHolds(c, dek, SaveProtocol.Exec(c.sha256, s0, steps).value.Current(), saved)
    ensures var s := SaveProtocol.Exec(c.sha256, s0, steps).value;
            var cut := SaveProtocol.Apply(c.sha256, s, SaveProtocol.Crash(s.durable, garbage));
            && cut.Some? && PathHolds(c, dek, cut.value.Current(), saved)
            && (s.writers[id].pc.Synced? ==>
                  && var s' := SaveProtocol.Apply(c.sha256, s, SaveProtocol.Commit(id));
                  && s'.Some?
                  && var early := SaveProtocol.Apply(c.sha256, s'.value, SaveProtocol.Crash(s.durable, garbage));
                  && var late := SaveProtocol.Apply(c.sha256, s'.value, SaveProtocol.Crash(s.durable + 1, garbage));
                  && early.Some? && PathHolds(c, dek, early.value.Current(), saved)
                  && late.Some? && PathHolds(c, dek, late.value.Current(), Some(live)))
  {
    hide SaveProtocol.Exec, SaveProtocol.Apply, FileHolds, SaveProtocol.Inv, GoodMem, Vault.SavedImage, CanBeReopened;
    SaveProtocol.ReachedKeepsInv(c.sha256, s0, steps);
    var s := SaveProtocol.Exec(c.sha256, s0, steps).value;
    SaveProtocol.CrashShows(c.sha256, s, s.durable, garbage);
    LastIsCurrent(c.sha256, s);
    SaveHolds(c, dek, mem, live, t, pos);
    if s.writers[id].pc.Synced? {
      CommitAdds(c.sha256, s, id);
      var s' := SaveProtocol.Apply(c.sha256, s, SaveProtocol.Commit(id)).value;
      SaveProtocol.StepKeepsInv(c.sha256, s, SaveProtocol.Commit(id));
      SaveProtocol.CrashShows(c.sha256, s', s.durable, garbage);
      SaveProtocol.CrashShows(c.sha256, s', s.durable + 1, garbage);
    }
  }

  /** The vault object's `save` is a run of the protocol: from a state in which the writer is idle and keeps the
      vault's fingerprint, some steps of that writer lead to the file and the fingerprint `save` leaves behind;
      the refusals are the same, and only a writer that is not refused and meets no error commits. */
  lemma SaveRunsTheProtocol(c: Suite, m: Vault.Mem, s: SaveProtocol.Sys, id: nat, env: Vault.SaveEnv, t: Tape, pos: nat)
    returns (steps: seq<SaveProtocol.Step>)
    requires m.state.Unlocked? && SaveProtocol.Inv(c.sha256, s)
    requires id in s.writers && s.writers[id].pc == SaveProtocol.Idle && s.writers[id].loaded == m.loaded
    ensures var o := Vault.Save(c, m, s.Current(), env, t, pos);
            var s' := SaveProtocol.Exec(c.sha256, s, steps);
            && (o.result == Err(Provider(ChangedOnDisk))
                <==> SaveProtocol.Refused(c.sha256, s, s.writers[id], env.readOk))
            && s'.Some? && s'.value.Current() == o.disk
            && id in s'.value.writers && s'.value.writers[id].pc == SaveProtocol.Idle
            && s'.value.writers[id].loaded == o.mem.loaded
            && (SaveProtocol.Commit(id) in steps <==> o.result == Ok(()))
  {
    hide Vault.SavedImage, Vault.SavedPos, SaveProtocol.Exec, SaveProtocol.Inv;
    var image := Vault.SavedImage(c, m.state.dek, m.header, m.records, t, pos);
    SaveProtocol.LastLinked(c.sha256, s);
    if SaveProtocol.Refused(c.sha256, s, s.writers[id], env.readOk) {
      var check := SaveProtocol.Check(id, image, env.readOk);
      SaveProtocol.ExecOne(c.sha256, s, check);
      steps := [check];
    } else {
      hide SaveProtocol.Apply;
      var s': SaveProtocol.Sys;
      steps, s' := SaveProtocol.OneSave(c.sha256, s, id, image, env.readOk, env.writeOk && env.renameOk);
    }
  }

  lemma LastIsCurrent(fp: SaveProtocol.Fingerprint, s: SaveProtocol.Sys)
    requires SaveProtocol.Inv(fp, s)
    ensures s.Current() == s.history[|s.history| - 1].image
  {
    assert SaveProtocol.Linked(s.inodes, s.history[|s.history| - 1]);
  }

  lemma CommitAdds(fp: SaveProtocol.Fingerprint, s: SaveProtocol.Sys, id: nat)
    requires |s.history| > 0 && id in s.writers && s.writers[id].pc.Synced?
    ensures var s' := SaveProtocol.Apply(fp, s, SaveProtocol.Commit(id));
            && s'.Some? && s'.value.durable == s.durable && |s'.value.history| == |s.history| + 1
            && s'.value.history[..|s.history|] == s.history
            && s'.value.history[|s.history|].image == Some(s.writers[id].out)
  {
  }

  /** Whatever file the crash left, reopening it starts a run that answers as its map. */
  lemma RunAfterReopening(c: Suite, dek: bytes, path: Option<bytes>, m: map<Text, Text>, ops: seq<Op>,
                          t: Tape, pos: nat)
    requires c.Lawful() && PathHolds(c, dek, path, Some(m)) && AllFit(Plain(m, false, Some(m)), ops)
    ensures Load(c, path.value).Ok?
    ensures var u := Vault.Unlock(c, Load(c, path.value).value, dek, t, pos);
            && u.Ok?
            && forall i :: 0 <= i < |ops| ==>
                 Agree(Run(c, dek, World(u.value, path), ops, t, pos)[i], PlainRun(Plain(m, false, Some(m)), ops)[i])
  {
    hide Load, Vault.Unlock, Agree, Run, PlainRun, AllFit, GoodMem;
    var v := Load(c, path.value).value;
    UnlockIgnoresTape(c, v, dek, t, pos, NO_RANDOMNESS, 0);
    var w := World(Vault.Unlock(c, v, dek, t, pos).value, path);
    assert w.mem == Vault.Unlock(c, v, dek, NO_RANDOMNESS, 0).value;
    RunRefinesMap(c, dek, w, Plain(m, false, Some(m)), ops, t, pos);
  }
}
