/** Any number of writers saving to one path, other programs touching it, and crashes at any step. */
module SaveProtocol {
  import opened Bytes
  import opened Wrappers

  /** A file's bytes, and whether they have reached the disk. */
  datatype Inode = Inode(data: bytes, synced: bool)

  datatype Actor = Writer(id: nat) | Other

  /** One change of the path's directory entry; `image` is what its author meant the file to hold. */
  datatype Change = Change(who: Actor, entry: Option<nat>, image: Option<bytes>)

  /** Where a writer stands in `save`: idle, past its fingerprint check, filling its temporary file, synced. */
  datatype Pc = Idle | Checked | Writing(ino: nat) | Synced(ino: nat)

  /** `loaded` is the fingerprint the vault object keeps, `base` the image it was taken from; `out` is what is
      being saved, `seen` how many changes had been made at the check, `readOk` whether its read succeeded. */
  datatype WriterState = WriterState(
    loaded: Option<bytes>, base: Option<bytes>, out: bytes, seen: nat, readOk: bool, pc: Pc)

  datatype Sys = Sys(inodes: seq<Inode>, history: seq<Change>, durable: nat, writers: map<nat, WriterState>) {
    function Entry(): Option<nat>
      requires |history| > 0
    {
      history[|history| - 1].entry
    }

    /** What a reader of the path sees. */
    function Current(): Option<bytes>
      requires |history| > 0
    {
      match Entry()
      case Some(i) => if i < |inodes| then Some(inodes[i].data) else None
      case None => None
    }

    function With(id: nat, w: WriterState): Sys {
      this.(writers := writers[id := w])
    }
  }

  type Fingerprint = bytes -> bytes

  datatype Step =
    | Join(w: nat)                                // a vault built in memory
    | Load(w: nat)                                // read the file and take its fingerprint
    | Check(w: nat, image: bytes, readOk: bool)   // compare fingerprints, or refuse
    | CreateTemp(w: nat)
    | Write(w: nat, upto: nat)
    | Sync(w: nat)
    | Commit(w: nat)                              // the rename
    | Abort(w: nat)                               // an error: the temporary file is removed
    | Foreign(left: Option<bytes>)                // another program creates, replaces or deletes the file
    | Flush(upto: nat)                            // directory changes reach the disk, in order
    | Crash(at: nat, garbage: nat -> bytes)       // only durable changes, up to `at`, survive

  function Put(s: Sys, who: Actor, ino: nat, image: bytes): Sys {
    s.(history := s.history + [Change(who, Some(ino), Some(image))])
  }

  /** What unsynced files hold after a power cut is anybody's guess. */
  function AfterCrash(inodes: seq<Inode>, garbage: nat -> bytes): (r: seq<Inode>)
    ensures |r| == |inodes|
  {
    seq(|inodes|, i requires 0 <= i < |inodes| =>
      if inodes[i].synced then inodes[i] else Inode(garbage(i), true))
  }

  predicate Refused(fp: Fingerprint, s: Sys, w: WriterState, readOk: bool)
    requires |s.history| > 0
  {
    w.loaded.Some? && readOk && s.Current().Some? && fp(s.Current().value) != w.loaded.value
  }

  /** The state after a step, or nothing when the step cannot happen. */
  function Apply(fp: Fingerprint, s: Sys, step: Step): (r: Option<Sys>)
    requires |s.history| > 0
    ensures r.Some? ==> |r.value.history| > 0
  {
    match step
    case Join(id) =>
      if id in s.writers then None else Some(s.With(id, WriterState(None, None, [], 0, true, Idle)))
    case Load(id) =>
      if id !in s.writers || s.writers[id].pc != Idle || s.Current().None? then None
      else
        var image := s.Current().value;
        Some(s.With(id, s.writers[id].(loaded := Some(fp(image)), base := Some(image))))
    case Check(id, image, readOk) =>
      if id !in s.writers || s.writers[id].pc != Idle then None
      else if Refused(fp, s, s.writers[id], readOk) then Some(s)
      else Some(s.With(id, s.writers[id].(out := image, seen := |s.history|, readOk := readOk, pc := Checked)))
    case CreateTemp(id) =>
      if id !in s.writers || s.writers[id].pc != Checked then None
      else Some(s.(inodes := s.inodes + [Inode([], false)]).With(id, s.writers[id].(pc := Writing(|s.inodes|))))
    case Write(id, upto) =>
      if id !in s.writers || !s.writers[id].pc.Writing? || s.writers[id].pc.ino >= |s.inodes|
         || upto > |s.writers[id].out|
      then None
      else Some(s.(inodes := s.inodes[s.writers[id].pc.ino := Inode(s.writers[id].out[..upto], false)]))
    case Sync(id) =>
      if id !in s.writers || !s.writers[id].pc.Writing? || s.writers[id].pc.ino >= |s.inodes|
         || s.inodes[s.writers[id].pc.ino].data != s.writers[id].out
      then None
      else
        var ino := s.writers[id].pc.ino;
        Some(s.(inodes := s.inodes[ino := s.inodes[ino].(synced := true)]).With(id, s.writers[id].(pc := Synced(ino))))
    case Commit(id) =>
      if id !in s.writers || !s.writers[id].pc.Synced? then None
      else
        var w := s.writers[id];
        Some(Put(s, Writer(id), w.pc.ino, w.out)
             .With(id, w.(loaded := Some(fp(w.out)), base := Some(w.out), pc := Idle)))
    case Abort(id) =>
      if id !in s.writers then None else Some(s.With(id, s.writers[id].(pc := Idle)))
    case Foreign(image) =>
      if image.None? then Some(s.(history := s.history + [Change(Other, None, None)]))
      else Some(Put(s.(inodes := s.inodes + [Inode(image.value, true)]), Other, |s.inodes|, image.value))
    case Flush(upto) =>
      if s.durable <= upto < |s.history| then Some(s.(durable := upto)) else None
    case Crash(at, garbage) =>
      if s.durable <= at < |s.history|
      then Some(Sys(AfterCrash(s.inodes, garbage), s.history[..at + 1], at, map[]))
      else None
  }

  predicate Started(s: Sys) {
    && |s.history| == 1 && s.durable == 0 && s.writers == map[]
    && Linked(s.inodes, s.history[0])
  }

  /** The entry leads to a complete, synced file holding exactly the image its author meant. */
  predicate Linked(inodes: seq<Inode>, ch: Change) {
    match ch.entry
    case None => ch.image.None?
    case Some(i) => i < |inodes| && inodes[i].synced && ch.image == Some(inodes[i].data)
  }

  /** A writer past its check: none of the changes since are its own, and the check it passed still describes
      the change that was last when it ran. */
  predicate CheckStands(fp: Fingerprint, s: Sys, id: nat, w: WriterState) {
    && 0 < w.seen <= |s.history|
    && (forall k :: w.seen <= k < |s.history| ==> s.history[k].who != Writer(id))
    && ((w.loaded.Some? && w.readOk && s.history[w.seen - 1].image.Some?) ==>
          fp(s.history[w.seen - 1].image.value) == w.loaded.value)
  }

  predicate TempOk(s: Sys, w: WriterState) {
    match w.pc
    case Writing(i) => i < |s.inodes| && !s.inodes[i].synced && s.inodes[i].data <= w.out
    case Synced(i) => i < |s.inodes| && s.inodes[i].synced && s.inodes[i].data == w.out
    case _ => true
  }

  predicate WriterOk(fp: Fingerprint, s: Sys, id: nat, w: WriterState) {
    && (w.loaded.Some? ==> w.base.Some? && w.loaded.value == fp(w.base.value))
    && (w.pc != Idle ==> CheckStands(fp, s, id, w))
    && TempOk(s, w)
  }

  predicate Inv(fp: Fingerprint, s: Sys) {
    && 0 <= s.durable < |s.history|
    && (forall k :: 0 <= k < |s.history| ==> Linked(s.inodes, s.history[k]))
    && (forall id :: id in s.writers ==> WriterOk(fp, s, id, s.writers[id]))
    && (forall a, b :: a in s.writers && b in s.writers && a != b ==>
          s.writers[a].pc.Writing? && s.writers[b].pc.Writing? ==> s.writers[a].pc.ino != s.writers[b].pc.ino)
  }

  // ---------- every step keeps the invariant ----------

  lemma WritersUndisturbed(fp: Fingerprint, s: Sys, s': Sys, id: nat)
    requires Inv(fp, s) && id in s.writers
    requires |s'.inodes| >= |s.inodes|
    requires forall i :: 0 <= i < |s.inodes| && (s.inodes[i].synced || s.writers[id].pc == Writing(i)) ==>
      s'.inodes[i] == s.inodes[i]
    requires s.history <= s'.history
    requires forall k :: |s.history| <= k < |s'.history| ==> s'.history[k].who != Writer(id)
    ensures WriterOk(fp, s', id, s.writers[id])
  {
    var w := s.writers[id];
    assert WriterOk(fp, s, id, w);
    if w.pc != Idle {
      assert s'.history[w.seen - 1] == s.history[w.seen - 1];
      forall k | w.seen <= k < |s'.history| ensures s'.history[k].who != Writer(id) {
        if k < |s.history| {
          assert s'.history[k] == s.history[k];
        }
      }
    }
  }

  lemma CommitKeepsInv(fp: Fingerprint, s: Sys, id: nat)
    requires Inv(fp, s) && Apply(fp, s, Commit(id)).Some?
    ensures Inv(fp, Apply(fp, s, Commit(id)).value)
  {
    var s' := Apply(fp, s, Commit(id)).value;
    assert WriterOk(fp, s, id, s.writers[id]);
    forall a | a in s'.writers ensures WriterOk(fp, s', a, s'.writers[a]) {
      if a != id {
        WritersUndisturbed(fp, s, s', a);
      }
    }
    forall k | 0 <= k < |s'.history| ensures Linked(s'.inodes, s'.history[k]) {
      if k < |s.history| {
        assert Linked(s.inodes, s.history[k]);
      }
    }
  }

  lemma CreateTempKeepsInv(fp: Fingerprint, s: Sys, id: nat)
    requires Inv(fp, s) && Apply(fp, s, CreateTemp(id)).Some?
    ensures Inv(fp, Apply(fp, s, CreateTemp(id)).value)
  {
    var s' := Apply(fp, s, CreateTemp(id)).value;
    assert WriterOk(fp, s, id, s.writers[id]);
    forall a | a in s'.writers
      ensures WriterOk(fp, s', a, s'.writers[a])
      ensures a != id && s'.writers[a].pc.Writing? ==> s'.writers[a].pc.ino != |s.inodes|
    {
      if a != id {
        assert WriterOk(fp, s, a, s.writers[a]);
        WritersUndisturbed(fp, s, s', a);
      }
    }
    forall k | 0 <= k < |s'.history| ensures Linked(s'.inodes, s'.history[k]) {
      assert Linked(s.inodes, s.history[k]);
    }
  }

  lemma FileStepKeepsInv(fp: Fingerprint, s: Sys, step: Step)
    requires Inv(fp, s) && Apply(fp, s, step).Some? && (step.Write? || step.Sync?)
    ensures Inv(fp, Apply(fp, s, step).value)
  {
    var s' := Apply(fp, s, step).value;
    var id := step.w;
    assert WriterOk(fp, s, id, s.writers[id]);
    forall a | a in s'.writers ensures WriterOk(fp, s', a, s'.writers[a]) {
      if a != id {
        WritersUndisturbed(fp, s, s', a);
      }
    }
    forall k | 0 <= k < |s'.history| ensures Linked(s'.inodes, s'.history[k]) {
      assert Linked(s.inodes, s.history[k]);
    }
  }

  lemma ForeignKeepsInv(fp: Fingerprint, s: Sys, image: Option<bytes>)
    requires Inv(fp, s)
    ensures Inv(fp, Apply(fp, s, Foreign(image)).value)
  {
    var s' := Apply(fp, s, Foreign(image)).value;
    forall a | a in s'.writers ensures WriterOk(fp, s', a, s'.writers[a]) {
      WritersUndisturbed(fp, s, s', a);
    }
    forall k | 0 <= k < |s'.history| ensures Linked(s'.inodes, s'.history[k]) {
      if k < |s.history| {
        assert Linked(s.inodes, s.history[k]);
      }
    }
  }

  lemma CrashKeepsInv(fp: Fingerprint, s: Sys, at: nat, garbage: nat -> bytes)
    requires Inv(fp, s) && s.durable <= at < |s.history|
    ensures Inv(fp, Apply(fp, s, Crash(at, garbage)).value)
  {
    var s' := Apply(fp, s, Crash(at, garbage)).value;
    forall k | 0 <= k < |s'.history| ensures Linked(s'.inodes, s'.history[k]) {
      assert Linked(s.inodes, s.history[k]);
    }
  }

  lemma LoadKeepsInv(fp: Fingerprint, s: Sys, id: nat)
    requires Inv(fp, s) && Apply(fp, s, Load(id)).Some?
    ensures Inv(fp, Apply(fp, s, Load(id)).value)
  {
    hide Linked;
    var s' := Apply(fp, s, Load(id)).value;
    forall a | a in s'.writers ensures WriterOk(fp, s', a, s'.writers[a]) {
      assert WriterOk(fp, s, a, s.writers[a]);
      WritersUndisturbed(fp, s, s', a);
    }
  }

  lemma CheckKeepsInv(fp: Fingerprint, s: Sys, id: nat, image: bytes, readOk: bool)
    requires Inv(fp, s) && Apply(fp, s, Check(id, image, readOk)).Some?
    ensures Inv(fp, Apply(fp, s, Check(id, image, readOk)).value)
  {
    hide TempOk;
    var s' := Apply(fp, s, Check(id, image, readOk)).value;
    assert Linked(s.inodes, s.history[|s.history| - 1]);
    assert WriterOk(fp, s, id, s.writers[id]);
    forall a | a in s'.writers ensures WriterOk(fp, s', a, s'.writers[a]) {
      WritersUndisturbed(fp, s, s', a);
      if a == id {
        assert TempOk(s', s'.writers[id]) by { TempOfOther(s', s'.writers[id], s.writers[id]); }
      }
    }
  }

  /** A writer without a temporary file has nothing to answer for. */
  lemma TempOfOther(s: Sys, w: WriterState, was: WriterState)
    requires w.pc == Checked || (w == was && w.pc == Idle)
    ensures TempOk(s, w)
  {
  }

  lemma JoinOrAbortKeepsInv(fp: Fingerprint, s: Sys, step: Step)
    requires Inv(fp, s) && Apply(fp, s, step).Some? && (step.Join? || step.Abort?)
    ensures Inv(fp, Apply(fp, s, step).value)
  {
    hide Linked, CheckStands;
    var s' := Apply(fp, s, step).value;
    forall a | a in s'.writers ensures WriterOk(fp, s', a, s'.writers[a]) {
      if a in s.writers {
        assert WriterOk(fp, s, a, s.writers[a]);
        WritersUndisturbed(fp, s, s', a);
      }
    }
  }

  lemma StepKeepsInv(fp: Fingerprint, s: Sys, step: Step)
    requires Inv(fp, s) && Apply(fp, s, step).Some?
    ensures Inv(fp, Apply(fp, s, step).value)
  {
    hide WriterOk, Linked;
    match step
    case Commit(id) => CommitKeepsInv(fp, s, id);
    case Foreign(image) => ForeignKeepsInv(fp, s, image);
    case Crash(at, garbage) => CrashKeepsInv(fp, s, at, garbage);
    case CreateTemp(id) => CreateTempKeepsInv(fp, s, id);
    case Load(id) => LoadKeepsInv(fp, s, id);
    case Check(id, image, readOk) => CheckKeepsInv(fp, s, id, image, readOk);
    case Flush(upto) =>
      hide Apply;
      FlushKeepsInv(fp, s, upto);
    case _ =>
      if step.Write? || step.Sync? {
        FileStepKeepsInv(fp, s, step);
      } else {
        JoinOrAbortKeepsInv(fp, s, step);
      }
  }

  lemma FlushKeepsInv(fp: Fingerprint, s: Sys, upto: nat)
    requires Inv(fp, s) && Apply(fp, s, Flush(upto)).Some?
    ensures Inv(fp, Apply(fp, s, Flush(upto)).value)
  {
    hide Linked, TempOk;
    var s' := Apply(fp, s, Flush(upto)).value;
    forall a | a in s'.writers ensures WriterOk(fp, s', a, s'.writers[a]) {
      WritersUndisturbed(fp, s, s', a);
    }
  }

  // ---------- runs ----------

  function Exec(fp: Fingerprint, s: Sys, steps: seq<Step>): (r: Option<Sys>)
    requires |s.history| > 0
    ensures r.Some? ==> |r.value.history| > 0
    decreases |steps|
  {
    if steps == [] then Some(s)
    else
      match Apply(fp, s, steps[0])
      case None => None
      case Some(s') => Exec(fp, s', steps[1..])
  }

  lemma {:induction false} RunKeepsInv(fp: Fingerprint, s: Sys, steps: seq<Step>)
    requires |s.history| > 0 && Inv(fp, s) && Exec(fp, s, steps).Some?
    ensures Inv(fp, Exec(fp, s, steps).value)
    decreases |steps|
  {
    hide Apply, Inv;
    if steps != [] {
      StepKeepsInv(fp, s, steps[0]);
      RunKeepsInv(fp, Apply(fp, s, steps[0]).value, steps[1..]);
    }
  }

  /** So it holds of every reachable state. */
  lemma ReachedKeepsInv(fp: Fingerprint, s0: Sys, steps: seq<Step>)
    requires Started(s0) && Exec(fp, s0, steps).Some?
    ensures Inv(fp, Exec(fp, s0, steps).value)
  {
    hide Exec;
    RunKeepsInv(fp, s0, steps);
  }

  /** After any run: a writer about to rename, whose vault came from this path, replaces nothing, or the very
      image it last loaded or wrote, or an image with the same fingerprint, unless its read failed at the
      check or somebody else changed the path between the check and the rename. */
  lemma NoUnnoticedOverwrite(fp: Fingerprint, s0: Sys, steps: seq<Step>, id: nat)
    requires Started(s0) && Exec(fp, s0, steps).Some?
    requires var s := Exec(fp, s0, steps).value;
             id in s.writers && s.writers[id].pc.Synced? && s.writers[id].loaded.Some?
    ensures var s := Exec(fp, s0, steps).value;
            var w := s.writers[id];
            && w.base.Some?
            && (|| s.Current().None?
                || s.Current() == w.base
                || (s.Current().value != w.base.value && fp(s.Current().value) == fp(w.base.value))
                || !w.readOk
                || exists k :: w.seen <= k < |s.history| && s.history[k].who != Writer(id))
  {
    hide Apply;
    RunKeepsInv(fp, s0, steps);
    var s := Exec(fp, s0, steps).value;
    var w := s.writers[id];
    assert WriterOk(fp, s, id, w);
    assert Linked(s.inodes, s.history[|s.history| - 1]);
    if w.seen < |s.history| {
      assert s.history[w.seen].who != Writer(id);
    }
  }

  /** Whatever the writers are doing, another program can replace or delete the file. */
  lemma OthersAreFree(fp: Fingerprint, s: Sys, left: Option<bytes>)
    requires |s.history| > 0
    ensures Exec(fp, s, [Foreign(left)]).Some?
    ensures Exec(fp, s, [Foreign(left)]).value.Current() == left
    ensures Exec(fp, s, [Foreign(left)]).value.writers == s.writers
  {
    hide Exec;
    ExecOne(fp, s, Foreign(left));
  }

  /** Nothing a step does takes back a change the disk has reached. */
  lemma StepKeepsDurable(fp: Fingerprint, s: Sys, step: Step)
    requires 0 <= s.durable < |s.history| && Apply(fp, s, step).Some?
    ensures var s' := Apply(fp, s, step).value;
            s.durable <= s'.durable < |s'.history| && s'.history[..s.durable + 1] == s.history[..s.durable + 1]
  {
  }

  lemma {:induction false} RunKeepsDurable(fp: Fingerprint, s: Sys, steps: seq<Step>)
    requires 0 <= s.durable < |s.history| && Exec(fp, s, steps).Some?
    ensures var s' := Exec(fp, s, steps).value;
            s.durable <= s'.durable < |s'.history| && s'.history[..s.durable + 1] == s.history[..s.durable + 1]
    decreases |steps|
  {
    hide Apply;
    if steps != [] {
      StepKeepsDurable(fp, s, steps[0]);
      var s1 := Apply(fp, s, steps[0]).value;
      RunKeepsDurable(fp, s1, steps[1..]);
      var s' := Exec(fp, s1, steps[1..]).value;
      assert s'.history[..s.durable + 1] == s'.history[..s1.durable + 1][..s.durable + 1];
    }
  }

  /** The disk can catch up at any time, and a change that reached it is never undone: whatever happens then,
      crashes included, the path shows the image of that change or of a later one. */
  lemma FlushedChangeStays(fp: Fingerprint, s0: Sys, before: seq<Step>, after: seq<Step>)
    requires Started(s0) && Exec(fp, s0, before).Some?
    ensures var s := Exec(fp, s0, before).value;
            var flushed := Apply(fp, s, Flush(|s.history| - 1));
            && flushed.Some?
            && (Exec(fp, flushed.value, after).Some? ==>
                  var s' := Exec(fp, flushed.value, after).value;
                  && |s'.history| >= |s.history| && s'.history[..|s.history|] == s.history
                  && s'.Current() == s'.history[|s'.history| - 1].image)
  {
    hide Exec;
    ReachedKeepsInv(fp, s0, before);
    var s := Exec(fp, s0, before).value;
    var flush := Flush(|s.history| - 1);
    FlushKeepsInv(fp, s, |s.history| - 1);
    var flushed := Apply(fp, s, flush).value;
    if Exec(fp, flushed, after).Some? {
      RunKeepsDurable(fp, flushed, after);
      RunKeepsInv(fp, flushed, after);
      var s' := Exec(fp, flushed, after).value;
      assert Linked(s'.inodes, s'.history[|s'.history| - 1]);
    }
  }

  /** At every moment of every run the path shows a complete image, and so it does after a crash at any step:
      whichever change the disk had reached, the path holds exactly what that change meant it to hold. */
  lemma CrashIsAtomic(fp: Fingerprint, s0: Sys, steps: seq<Step>, at: nat, garbage: nat -> bytes)
    requires Started(s0) && Exec(fp, s0, steps).Some?
    requires Exec(fp, s0, steps).value.durable <= at < |Exec(fp, s0, steps).value.history|
    ensures var s := Exec(fp, s0, steps).value;
            var s' := Apply(fp, s, Crash(at, garbage)).value;
            && s.Current() == s.history[|s.history| - 1].image
            && s'.Current() == s.history[at].image
            && (s.durable + 2 >= |s.history| ==>
                  s'.Current() in [s.history[s.durable].image, s.history[|s.history| - 1].image])
  {
    hide Apply;
    RunKeepsInv(fp, s0, steps);
    var s := Exec(fp, s0, steps).value;
    assert Linked(s.inodes, s.history[at]);
    assert Linked(s.inodes, s.history[|s.history| - 1]);
    CrashShows(fp, s, at, garbage);
  }

  lemma CrashShows(fp: Fingerprint, s: Sys, at: nat, garbage: nat -> bytes)
    requires Inv(fp, s) && s.durable <= at < |s.history|
    ensures Apply(fp, s, Crash(at, garbage)).Some?
    ensures Apply(fp, s, Crash(at, garbage)).value.Current() == s.history[at].image
  {
    assert Linked(s.inodes, s.history[at]);
  }

  lemma {:induction false} ExecAppends(fp: Fingerprint, s: Sys, before: seq<Step>, after: seq<Step>)
    requires |s.history| > 0 && Exec(fp, s, before).Some?
    ensures Exec(fp, s, before + after) == Exec(fp, Exec(fp, s, before).value, after)
    decreases |before|
  {
    hide Apply;
    if before == [] {
      assert before + after == after;
    } else {
      assert (before + after)[1..] == before[1..] + after;
      ExecAppends(fp, Apply(fp, s, before[0]).value, before[1..], after);
    }
  }

  lemma ExecOne(fp: Fingerprint, s: Sys, step: Step)
    requires |s.history| > 0 && Apply(fp, s, step).Some?
    ensures Exec(fp, s, [step]) == Apply(fp, s, step)
  {
    hide Apply;
    assert [step][1..] == [];
  }

  /** The steps of one writer from a passed check to a synced temporary file. */
  lemma Prepare(fp: Fingerprint, s: Sys, id: nat) returns (steps: seq<Step>)
    requires |s.history| > 0 && id in s.writers && s.writers[id].pc == Checked
    ensures Exec(fp, s, steps) == Some(
      s.(inodes := s.inodes + [Inode(s.writers[id].out, true)],
         writers := s.writers[id := s.writers[id].(pc := Synced(|s.inodes|))]))
    ensures Commit(id) !in steps
  {
    var w, n := s.writers[id], |s.inodes|;
    var s1 := Apply(fp, s, CreateTemp(id)).value;
    var s2 := Apply(fp, s1, Write(id, |w.out|)).value;
    assert s2.inodes[n] == Inode(w.out, false);
    var s3 := Apply(fp, s2, Sync(id)).value;
    assert s3.inodes == s.inodes + [Inode(w.out, true)];
    assert s3.writers == s.writers[id := w.(pc := Synced(n))];
    ExecOne(fp, s, CreateTemp(id));
    ExecOne(fp, s1, Write(id, |w.out|));
    ExecOne(fp, s2, Sync(id));
    ExecAppends(fp, s, [CreateTemp(id)], [Write(id, |w.out|)]);
    ExecAppends(fp, s, [CreateTemp(id)] + [Write(id, |w.out|)], [Sync(id)]);
    steps := [CreateTemp(id)] + [Write(id, |w.out|)] + [Sync(id)];
  }

  /** Two writers load the same file and both pass their checks. */
  lemma BothCheck(fp: Fingerprint, image: bytes, a: bytes, b: bytes) returns (s0: Sys, steps: seq<Step>, s: Sys)
    ensures Started(s0) && s0.Current() == Some(image) && Exec(fp, s0, steps) == Some(s)
    ensures s.inodes == s0.inodes && s.history == s0.history
    ensures 0 in s.writers && s.writers[0].pc == Checked && s.writers[0].out == a
    ensures 1 in s.writers && s.writers[1].pc == Checked && s.writers[1].out == b
    ensures s.writers[1].loaded == Some(fp(image)) && s.writers[1].base == Some(image) && s.writers[1].readOk
  {
    s0 := Sys([Inode(image, true)], [Change(Other, Some(0), Some(image))], 0, map[]);
    steps := [];
    s := s0;
    var opening := [Join(0), Load(0), Join(1), Load(1), Check(0, a, true), Check(1, b, true)];
    for i := 0 to 6
      invariant s.inodes == s0.inodes && s.history == s0.history
      invariant Exec(fp, s0, steps) == Some(s)
      invariant 0 in s.writers <==> i > 0
      invariant 1 in s.writers <==> i > 2
      invariant i > 0 ==> s.writers[0].pc == if i > 4 then Checked else Idle
      invariant i > 2 ==> s.writers[1].pc == if i > 5 then Checked else Idle
      invariant i > 1 ==> s.writers[0].loaded == Some(fp(image))
      invariant i > 3 ==> s.writers[1].loaded == Some(fp(image)) && s.writers[1].base == Some(image)
      invariant i > 4 ==> s.writers[0].out == a
      invariant i > 5 ==> s.writers[1].out == b && s.writers[1].readOk
    {
      ExecOne(fp, s, opening[i]);
      ExecAppends(fp, s0, steps, [opening[i]]);
      steps := steps + [opening[i]];
      s := Apply(fp, s, opening[i]).value;
    }
  }

  /** One more step at the end of a run. */
  lemma ExecSnoc(fp: Fingerprint, s0: Sys, steps: seq<Step>, step: Step)
    requires |s0.history| > 0 && Exec(fp, s0, steps).Some?
    requires Apply(fp, Exec(fp, s0, steps).value, step).Some?
    ensures Exec(fp, s0, steps + [step]) == Apply(fp, Exec(fp, s0, steps).value, step)
  {
    hide Apply, Exec;
    ExecOne(fp, Exec(fp, s0, steps).value, step);
    ExecAppends(fp, s0, steps, [step]);
  }

  /** A save that is not refused, from the check to its end: the rename, or an error anywhere before it. */
  lemma OneSave(fp: Fingerprint, s: Sys, id: nat, image: bytes, readOk: bool, ok: bool)
    returns (steps: seq<Step>, s': Sys)
    requires Inv(fp, s) && id in s.writers && s.writers[id].pc == Idle && !Refused(fp, s, s.writers[id], readOk)
    ensures Exec(fp, s, steps) == Some(s') && (Commit(id) in steps <==> ok)
    ensures s'.Current() == if ok then Some(image) else s.Current()
    ensures id in s'.writers && s'.writers[id].pc == Idle
    ensures s'.writers[id].loaded == if ok then Some(fp(image)) else s.writers[id].loaded
  {
    hide Exec, Inv;
    LastLinked(fp, s);
    var check := Check(id, image, readOk);
    ExecOne(fp, s, check);
    var checked := Apply(fp, s, check).value;
    var more := Prepare(fp, checked, id);
    ExecAppends(fp, s, [check], more);
    var last := if ok then Commit(id) else Abort(id);
    ExecSnoc(fp, s, [check] + more, last);
    steps := [check] + more + [last];
    s' := Exec(fp, s, steps).value;
  }

  lemma LastLinked(fp: Fingerprint, s: Sys)
    requires Inv(fp, s)
    ensures |s.history| > 0 && (s.Entry().Some? ==> s.Entry().value < |s.inodes|)
  {
    assert Linked(s.inodes, s.history[|s.history| - 1]);
  }

  /** The window is real: two writers load the same file and both pass their checks; the first saves `a`, and
      the second replaces that update, which it never saw, with its own. */
  lemma RaceWindowIsReal(fp: Fingerprint, image: bytes, a: bytes, b: bytes)
    returns (s0: Sys, steps: seq<Step>, before: Sys, after: Sys)
    requires a != image
    ensures Started(s0) && s0.Current() == Some(image)
    ensures Exec(fp, s0, steps) == Some(before) && Exec(fp, s0, steps + [Commit(1)]) == Some(after)
    ensures 1 in before.writers && before.writers[1].base == Some(image) && before.writers[1].readOk
    ensures before.Current() == Some(a) != before.writers[1].base
    ensures after.Current() == Some(b)
  {
    hide Exec;
    s0, steps, before := BothCheck(fp, image, a, b);
    var first := Prepare(fp, before, 0);
    ExecAppends(fp, s0, steps, first);
    steps := steps + first;
    before := Exec(fp, s0, steps).value;
    ExecSnoc(fp, s0, steps, Commit(0));
    steps := steps + [Commit(0)];
    before := Apply(fp, before, Commit(0)).value;
    assert before.Current() == Some(a);
    var second := Prepare(fp, before, 1);
    ExecAppends(fp, s0, steps, second);
    steps := steps + second;
    before := Exec(fp, s0, steps).value;
    ExecSnoc(fp, s0, steps, Commit(1));
    after := Apply(fp, before, Commit(1)).value;
  }

  /** A writer loads the file and another program replaces it, well before the check. */
  lemma StaleWriter(fp: Fingerprint, image: bytes, other: bytes) returns (s0: Sys, steps: seq<Step>, s: Sys)
    ensures Started(s0) && s0.Current() == Some(image) && Exec(fp, s0, steps) == Some(s)
    ensures 0 in s.writers && s.writers[0] == WriterState(Some(fp(image)), Some(image), [], 0, true, Idle)
    ensures s.Current() == Some(other)
  {
    hide Exec;
    s0 := Sys([Inode(image, true)], [Change(Other, Some(0), Some(image))], 0, map[]);
    ExecOne(fp, s0, Join(0));
    s := Apply(fp, s0, Join(0)).value;
    steps := [Join(0)];
    ExecSnoc(fp, s0, steps, Load(0));
    s := Apply(fp, s, Load(0)).value;
    steps := steps + [Load(0)];
    ExecSnoc(fp, s0, steps, Foreign(Some(other)));
    s := Apply(fp, s, Foreign(Some(other))).value;
    steps := steps + [Foreign(Some(other))];
  }

  /** A read that fails at the check lets a stale writer through: it replaces an image that was there before its
      check, with another fingerprint than its own base. Had the read succeeded, the save would have been refused. */
  lemma FailedReadSkipsCheck(fp: Fingerprint, image: bytes, other: bytes, b: bytes)
    returns (s0: Sys, steps: seq<Step>, more: seq<Step>, stale: Sys, before: Sys, after: Sys)
    requires fp(other) != fp(image)
    ensures Started(s0) && s0.Current() == Some(image) && Exec(fp, s0, steps) == Some(stale)
    ensures 0 in stale.writers && stale.Current() == Some(other)
    ensures Refused(fp, stale, stale.writers[0], true)
    ensures Exec(fp, stale, [Check(0, b, false)] + more) == Some(before)
    ensures 0 in before.writers && before.writers[0].pc.Synced? && before.writers[0].base == Some(image)
    ensures before.writers[0].seen == |before.history| && before.Current() == Some(other)
    ensures Exec(fp, stale, [Check(0, b, false)] + more + [Commit(0)]) == Some(after) && after.Current() == Some(b)
  {
    hide Exec;
    s0, steps, stale := StaleWriter(fp, image, other);
    var check := Check(0, b, false);
    ExecOne(fp, stale, check);
    var checked := Apply(fp, stale, check).value;
    more := Prepare(fp, checked, 0);
    ExecAppends(fp, stale, [check], more);
    before := Exec(fp, stale, [check] + more).value;
    ExecSnoc(fp, stale, [check] + more, Commit(0));
    after := Apply(fp, before, Commit(0)).value;
  }
}
