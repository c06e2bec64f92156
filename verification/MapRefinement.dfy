/** Any run of edits, saves and reopenings answers as a plain name-to-value map would. */
module MapRefinement {
  import opened Bytes
  import opened Crypto
  import opened Header
  import opened Sealing
  import opened SaveReload
  import opened Text
  import Vault
  import opened VaultFile
  import opened Wrappers

  datatype Op =
    | Add(name: Text, value: Text)
    | Upsert(name: Text, value: Text)
    | Remove(name: Text)
    | Get(name: Text)
    | List
    | Lock
    | Save(env: Vault.SaveEnv)
    | Reopen
    | Vanish // somebody else deletes or moves the file

  // ---------- the vault and its file ----------

  datatype World = World(mem: Vault.Mem, disk: Option<bytes>)

  datatype Answer =
    | Done(result: Result<()>)
    | Removed(any: bool)
    | Value(secret: Result<Text>)
    | Listed(names: seq<Text>)

  datatype Next = Next(world: World, answer: Answer, pos: nat)

  /** Drop the vault in memory, load the file, unlock it with the key. */
  function DoReopen(c: Suite, dek: bytes, w: World, t: Tape, pos: nat): Next {
    if w.disk.None? then Next(w, Done(Err(Io)), pos) else
    match Load(c, w.disk.value)
    case Err(e) => Next(w, Done(Err(e)), pos)
    case Ok(v) =>
      var pos' := pos + if v.records.V2? then 24 * |v.records.v2| else 0;
      match Vault.Unlock(c, v, dek, t, pos)
      case Err(e) => Next(w, Done(Err(e)), pos')
      case Ok(m) => Next(World(m, w.disk), Done(Ok(())), pos')
  }

  function Step(c: Suite, dek: bytes, w: World, op: Op, t: Tape, pos: nat): Next {
    match op
    case Add(name, value) =>
      var o := Vault.Add(c, w.mem, name, value, t, pos);
      Next(w.(mem := o.mem), Done(o.result), o.pos)
    case Upsert(name, value) =>
      var o := Vault.Upsert(c, w.mem, name, value, t, pos);
      Next(w.(mem := o.mem), Done(o.result), o.pos)
    case Remove(name) =>
      var (m, any) := Vault.Remove(w.mem, name);
      Next(w.(mem := m), Removed(any), pos)
    case Get(name) => Next(w, Value(Vault.Get(c, w.mem, name)), pos)
    case List => Next(w, Listed(Vault.Names(w.mem.records)), pos)
    case Lock => Next(w.(mem := w.mem.(state := Vault.Locked)), Done(Ok(())), pos)
    case Save(env) =>
      var o := Vault.Save(c, w.mem, w.disk, env, t, pos);
      Next(World(o.mem, o.disk), Done(o.result), o.pos)
    case Reopen => DoReopen(c, dek, w, t, pos)
    case Vanish => Next(w.(disk := None), Done(Ok(())), pos)
  }

  function Run(c: Suite, dek: bytes, w: World, ops: seq<Op>, t: Tape, pos: nat): (answers: seq<Answer>)
    ensures |answers| == |ops|
    decreases |ops|
  {
    if ops == [] then []
    else
      var n := Step(c, dek, w, ops[0], t, pos);
      [n.answer] + Run(c, dek, n.world, ops[1..], t, n.pos)
  }

  // ---------- the plain map ----------

  datatype Plain = Plain(live: map<Text, Text>, locked: bool, saved: Option<map<Text, Text>>)

  datatype PlainAnswer =
    | PlainDone(result: Result<()>)
    | PlainRemoved(any: bool)
    | PlainValue(secret: Result<Text>)
    | PlainListed(names: set<Text>)

  function PlainStep(p: Plain, op: Op): (Plain, PlainAnswer) {
    match op
    case Add(name, value) =>
      if name in p.live then (p, PlainDone(Err(Duplicate(name))))
      else if p.locked then (p, PlainDone(Err(VaultLocked)))
      else (p.(live := p.live[name := value]), PlainDone(Ok(())))
    case Upsert(name, value) =>
      if p.locked then (p.(live := p.live - {name}), PlainDone(Err(VaultLocked)))
      else (p.(live := p.live[name := value]), PlainDone(Ok(())))
    case Remove(name) => (p.(live := p.live - {name}), PlainRemoved(name in p.live))
    case Get(name) =>
      (p, PlainValue(if p.locked then Err(VaultLocked)
                     else if name in p.live then Ok(p.live[name]) else Err(NotFound(name))))
    case List => (p, PlainListed(p.live.Keys))
    case Lock => (p.(locked := true), PlainDone(Ok(())))
    case Save(env) =>
      if p.locked then (p, PlainDone(Err(VaultLocked)))
      else if env.writeOk && env.renameOk then (p.(saved := Some(p.live)), PlainDone(Ok(())))
      else (p, PlainDone(Err(Io)))
    case Reopen =>
      if p.saved.None? then (p, PlainDone(Err(Io)))
      else (Plain(p.saved.value, false, p.saved), PlainDone(Ok(())))
    case Vanish => (p.(saved := None), PlainDone(Ok(())))
  }

  function PlainRun(p: Plain, ops: seq<Op>): (answers: seq<PlainAnswer>)
    ensures |answers| == |ops|
    decreases |ops|
  {
    if ops == [] then []
    else
      var (q, a) := PlainStep(p, ops[0]);
      [a] + PlainRun(q, ops[1..])
  }

  /** Equal answers, a list standing for the set of its names with none repeated. */
  ghost predicate Agree(a: Answer, p: PlainAnswer) {
    match (a, p)
    case (Done(x), PlainDone(y)) => x == y
    case (Removed(x), PlainRemoved(y)) => x == y
    case (Value(x), PlainValue(y)) => x == y
    case (Listed(names), PlainListed(keys)) =>
      |names| == |keys| && forall n :: n in names <==> n in keys
    case _ => false
  }

  /** What the reader will accept back: names within its ceiling, and a count within 32 bits. */
  predicate CanBeReopened(m: map<Text, Text>) {
    Vault.PaddedCount(|m|) < U32_LIMIT && forall k :: k in m ==> |k| <= MAX_NAME_LEN
  }

  /** What a caller must respect, all of it visible before the call: values whose sealed length fits 32
      bits, and saving only what can be reopened. */
  predicate Fits(p: Plain, op: Op) {
    match op
    case Add(name, value) => ValueCtLen(|value|) < U32_LIMIT
    case Upsert(name, value) => ValueCtLen(|value|) < U32_LIMIT
    case Save(env) => CanBeReopened(p.live)
    case _ => true
  }

  predicate AllFit(p: Plain, ops: seq<Op>)
    decreases |ops|
  {
    ops == [] || (Fits(p, ops[0]) && AllFit(PlainStep(p, ops[0]).0, ops[1..]))
  }

  // ---------- records that stand for a map ----------

  predicate Holds(c: Suite, dek: bytes, r: Vault.Record, m: map<Text, Text>) {
    && r.name in m
    && |r.valueCt| == ValueCtLen(|m[r.name]|) < U32_LIMIT
    && OpenValue(c, dek, r.id, FORMAT_VERSION, r.valueCt) == Ok(m[r.name])
  }

  /** Stated on the multiset of records, so that order never matters. */
  ghost predicate Represents(c: Suite, dek: bytes, rs: multiset<Vault.Record>, m: map<Text, Text>) {
    && (forall r :: r in rs ==> rs[r] == 1 && Holds(c, dek, r, m))
    && (forall r1, r2 :: r1 in rs && r2 in rs && r1.name == r2.name ==> r1 == r2)
    && (forall k :: k in m ==> exists r :: r in rs && r.name == k)
  }

  lemma FindInMap(c: Suite, dek: bytes, rs: seq<Vault.Record>, m: map<Text, Text>, name: Text)
    requires Represents(c, dek, multiset(rs), m)
    ensures Vault.Find(rs, name).Some? <==> name in m
    ensures name in m ==> Holds(c, dek, Vault.Find(rs, name).value, m)
  {
    hide Holds, Vault.Find;
    var f := Vault.Find(rs, name);
    if f.Some? {
      assert f.value in multiset(rs);
      NameOfHeld(c, dek, f.value, m);
    }
    if name in m {
      var r :| r in multiset(rs) && r.name == name;
      assert r in rs;
    }
  }

  lemma NameOfHeld(c: Suite, dek: bytes, r: Vault.Record, m: map<Text, Text>)
    requires Holds(c, dek, r, m)
    ensures r.name in m
  {
  }

  lemma HeldAfterInsert(c: Suite, dek: bytes, r: Vault.Record, m: map<Text, Text>, name: Text, v: Text)
    requires Holds(c, dek, r, m) && r.name != name
    ensures Holds(c, dek, r, m[name := v])
  {
  }

  lemma HeldAfterDrop(c: Suite, dek: bytes, r: Vault.Record, m: map<Text, Text>, name: Text)
    requires Holds(c, dek, r, m) && r.name != name
    ensures Holds(c, dek, r, m - {name})
  {
  }

  lemma AppendOne(c: Suite, dek: bytes, rs: multiset<Vault.Record>, m: map<Text, Text>, r: Vault.Record, v: Text)
    requires Represents(c, dek, rs, m) && r.name !in m
    requires Holds(c, dek, r, m[r.name := v])
    ensures Represents(c, dek, rs + multiset{r}, m[r.name := v])
  {
    hide Holds;
    var rs', m' := rs + multiset{r}, m[r.name := v];
    forall x | x in rs ensures x.name != r.name && Holds(c, dek, x, m') {
      NameOfHeld(c, dek, x, m);
      HeldAfterInsert(c, dek, x, m, r.name, v);
    }
    assert forall x :: x in rs' <==> x in rs || x == r;
    forall k | k in m' ensures exists x :: x in rs' && x.name == k {
      if k == r.name {
        assert r in rs';
      } else {
        var x :| x in rs && x.name == k;
        assert x in rs';
      }
    }
  }

  lemma DropName(c: Suite, dek: bytes, rs: seq<Vault.Record>, m: map<Text, Text>, name: Text)
    requires Represents(c, dek, multiset(rs), m)
    ensures Represents(c, dek, multiset(Vault.Without(rs, name)), m - {name})
  {
    hide Holds, Vault.Without;
    var before, after, m' := multiset(rs), multiset(Vault.Without(rs, name)), m - {name};
    Vault.WithoutElements(rs, name);
    forall x | x in after ensures after[x] == 1 && x in before && Holds(c, dek, x, m') {
      assert before[x] == after[x];
      HeldAfterDrop(c, dek, x, m, name);
    }
    forall k | k in m' ensures exists x :: x in after && x.name == k {
      var x :| x in before && x.name == k;
      assert after[x] == before[x];
      assert x in after;
    }
    assert forall x, y :: x in after && y in after && x.name == y.name ==> x in before && y in before;
  }

  lemma {:induction false} WithoutLength(rs: seq<Vault.Record>, name: Text)
    ensures |Vault.Without(rs, name)| <= |rs|
    ensures |Vault.Without(rs, name)| == |rs| <==> Vault.Find(rs, name).None?
    decreases |rs|
  {
    if rs != [] {
      WithoutLength(rs[1..], name);
      assert rs == [rs[0]] + rs[1..];
    }
  }

  lemma {:induction false} SameSize(c: Suite, dek: bytes, rs: seq<Vault.Record>, m: map<Text, Text>)
    requires Represents(c, dek, multiset(rs), m)
    ensures |rs| == |m|
    decreases |rs|
  {
    hide Holds, Vault.Without;
    if rs == [] {
      assert forall k :: k !in m;
      assert m == map[];
    } else {
      var name := rs[0].name;
      assert rs[0] in multiset(rs);
      NameOfHeld(c, dek, rs[0], m);
      var rest := rs[1..];
      assert rs == [rs[0]] + rest;
      DropName(c, dek, rs, m, name);
      OnlyHeadDropped(rs);
      SameSize(c, dek, rest, m - {name});
      assert (m - {name}).Keys == m.Keys - {name};
      assert |m.Keys - {name}| == |m.Keys| - 1;
    }
  }

  lemma OnlyHeadDropped(rs: seq<Vault.Record>)
    requires rs != [] && multiset(rs)[rs[0]] == 1
    requires forall x :: x in multiset(rs) && x.name == rs[0].name ==> x == rs[0]
    ensures multiset(rs[1..]) == multiset(Vault.Without(rs, rs[0].name))
  {
    hide Vault.Without;
    var all, rest, kept := multiset(rs), multiset(rs[1..]), multiset(Vault.Without(rs, rs[0].name));
    assert rs == [rs[0]] + rs[1..];
    assert all == multiset{rs[0]} + rest;
    Vault.WithoutElements(rs, rs[0].name);
    assert forall x :: rest[x] == kept[x];
  }

  lemma ListAgrees(c: Suite, dek: bytes, rs: seq<Vault.Record>, m: map<Text, Text>)
    requires Represents(c, dek, multiset(rs), m)
    ensures Agree(Listed(Vault.Names(rs)), PlainListed(m.Keys))
  {
    hide Holds;
    SameSize(c, dek, rs, m);
    var names := Vault.Names(rs);
    forall n ensures n in names <==> n in m {
      if n in names {
        var i :| 0 <= i < |names| && names[i] == n;
        assert rs[i] in multiset(rs);
        NameOfHeld(c, dek, rs[i], m);
      }
      if n in m {
        var r :| r in multiset(rs) && r.name == n;
        var i :| 0 <= i < |rs| && rs[i] == r;
        assert names[i] == n;
      }
    }
  }

  // ---------- the invariant ----------

  const NO_RANDOMNESS: Tape := (i: nat) => 0

  /** A version-3 file needs no random bytes to open. */
  lemma UnlockIgnoresTape(c: Suite, v: LockedVault, dek: bytes, t1: Tape, p1: nat, t2: Tape, p2: nat)
    requires v.records.V3?
    ensures Vault.Unlock(c, v, dek, t1, p1) == Vault.Unlock(c, v, dek, t2, p2)
  {
  }

  ghost predicate FileHolds(c: Suite, dek: bytes, file: bytes, m: map<Text, Text>) {
    && Load(c, file).Ok? && Load(c, file).value.records.V3?
    && var u := Vault.Unlock(c, Load(c, file).value, dek, NO_RANDOMNESS, 0);
    && u.Ok? && GoodMem(c, dek, u.value, m, false)
    && u.value.loaded == Some(c.sha256(file))
  }

  ghost predicate GoodMem(c: Suite, dek: bytes, mem: Vault.Mem, m: map<Text, Text>, locked: bool) {
    && HeaderFits(mem.header) && mem.header.formatVersion == FORMAT_VERSION
    && mem.state == (if locked then Vault.Locked else Vault.Unlocked(dek))
    && Represents(c, dek, multiset(mem.records), m)
  }

  /** The vault stands for the live map, the file for the saved one, and the fingerprint for the file that is
      there, if one is. */
  ghost predicate Inv(c: Suite, dek: bytes, w: World, p: Plain) {
    && GoodMem(c, dek, w.mem, p.live, p.locked)
    && (w.disk.Some? <==> p.saved.Some?)
    && (w.disk.Some? ==> FileHolds(c, dek, w.disk.value, p.saved.value))
    && (w.mem.loaded.Some? && w.disk.Some? ==> w.mem.loaded.value == c.sha256(w.disk.value))
  }

  lemma InsertHolds(c: Suite, dek: bytes, mem: Vault.Mem, m: map<Text, Text>, name: Text, value: Text,
                    t: Tape, pos: nat)
    requires c.Lawful() && GoodMem(c, dek, mem, m, false) && name !in m
    requires ValueCtLen(|value|) < U32_LIMIT
    ensures var o := Vault.Insert(c, mem, name, value, t, pos);
            o.result == Ok(()) && GoodMem(c, dek, o.mem, m[name := value], false) && o.mem.loaded == mem.loaded
  {
    hide Represents, SealValue, HeaderFits;
    var id := Vault.DrawId(At(t, pos, 16));
    var ct := SealValue(c, dek, id, FORMAT_VERSION, value, At(t, pos + 16, 24));
    PaddedCovers(4 + |value|, VALUE_BUCKET);
    OpenSealedValue(c, dek, id, FORMAT_VERSION, value, At(t, pos + 16, 24));
    var r := Vault.Record(id, name, ct);
    AppendOne(c, dek, multiset(mem.records), m, r, value);
    assert multiset(mem.records + [r]) == multiset(mem.records) + multiset{r};
  }

  lemma DropHolds(c: Suite, dek: bytes, mem: Vault.Mem, m: map<Text, Text>, locked: bool, name: Text)
    requires GoodMem(c, dek, mem, m, locked)
    ensures GoodMem(c, dek, mem.(records := Vault.Without(mem.records, name)), m - {name}, locked)
  {
    hide Represents, HeaderFits, Vault.Without;
    DropName(c, dek, mem.records, m, name);
  }

  lemma HeldRecordsSaveable(c: Suite, dek: bytes, mem: Vault.Mem, m: map<Text, Text>)
    requires GoodMem(c, dek, mem, m, false) && CanBeReopened(m)
    ensures Saveable(mem.header, mem.records) && NamesInRange(mem.records)
  {
    hide HeaderFits, OpenValue, ValueCtLen, NameCtLen, Vault.PaddedCount;
    SameSize(c, dek, mem.records, m);
    forall r | r in mem.records
      ensures NameCtLen(|r.name|) < U32_LIMIT && |r.valueCt| < U32_LIMIT && |r.name| <= MAX_NAME_LEN
    {
      assert r in multiset(mem.records) && Holds(c, dek, r, m);
      ShortNameSize(|r.name|);
    }
  }

  lemma SaveHolds(c: Suite, dek: bytes, mem: Vault.Mem, m: map<Text, Text>, t: Tape, pos: nat)
    requires c.Lawful() && GoodMem(c, dek, mem, m, false) && CanBeReopened(m)
    ensures FileHolds(c, dek, Vault.SavedImage(c, dek, mem.header, mem.records, t, pos), m)
  {
    hide Vault.SavedImage, Load, Vault.Unlock, HeaderBytes, Represents, NamesInRange, CanBeReopened, Vault.SavedRaws,
      WellFormed;
    HeldRecordsSaveable(c, dek, mem, m);
    SaveThenUnlock(c, dek, mem.header, mem.records, t, pos, NO_RANDOMNESS, 0);
    SavedImageLoads(c, dek, mem.header, mem.records, t, pos);
    var image := Vault.SavedImage(c, dek, mem.header, mem.records, t, pos);
    var u := Vault.Unlock(c, Load(c, image).value, dek, NO_RANDOMNESS, 0).value;
    assert u.header == mem.header.(headerMac := u.header.headerMac);
    OtherMacFits(mem.header, u.header.headerMac);
  }

  lemma OtherMacFits(h: VaultHeader, mac: Mac)
    requires HeaderFits(h)
    ensures HeaderFits(h.(headerMac := mac))
  {
    MacKeepsLength(h, mac);
  }

  lemma ShortNameSize(n: nat)
    requires n <= MAX_NAME_LEN
    ensures NameCtLen(n) < U32_LIMIT
  {
    PaddedLenIsLeast(5 + n, NAME_BUCKET, 65);
  }

  ghost predicate Refines(c: Suite, dek: bytes, w: World, p: Plain, op: Op, t: Tape, pos: nat) {
    var n := Step(c, dek, w, op, t, pos);
    var (q, a) := PlainStep(p, op);
    Agree(n.answer, a) && Inv(c, dek, n.world, q)
  }

  lemma AddRefines(c: Suite, dek: bytes, w: World, p: Plain, name: Text, value: Text, t: Tape, pos: nat)
    requires c.Lawful() && Inv(c, dek, w, p) && ValueCtLen(|value|) < U32_LIMIT
    ensures Refines(c, dek, w, p, Add(name, value), t, pos)
  {
    hide Represents, HeaderFits, FileHolds, Vault.Find, SealValue, ValueCtLen;
    FindInMap(c, dek, w.mem.records, p.live, name);
    if name !in p.live && !p.locked {
      InsertHolds(c, dek, w.mem, p.live, name, value, t, pos);
    }
  }

  lemma UpsertRefines(c: Suite, dek: bytes, w: World, p: Plain, name: Text, value: Text, t: Tape, pos: nat)
    requires c.Lawful() && Inv(c, dek, w, p) && ValueCtLen(|value|) < U32_LIMIT
    ensures Refines(c, dek, w, p, Upsert(name, value), t, pos)
  {
    hide Represents, HeaderFits, FileHolds, Vault.Without, SealValue, ValueCtLen;
    DropHolds(c, dek, w.mem, p.live, p.locked, name);
    var dropped := w.mem.(records := Vault.Without(w.mem.records, name));
    if !p.locked {
      InsertHolds(c, dek, dropped, p.live - {name}, name, value, t, pos);
      assert (p.live - {name})[name := value] == p.live[name := value];
    }
  }

  lemma RemoveRefines(c: Suite, dek: bytes, w: World, p: Plain, name: Text, t: Tape, pos: nat)
    requires Inv(c, dek, w, p)
    ensures Refines(c, dek, w, p, Remove(name), t, pos)
  {
    hide Represents, HeaderFits, FileHolds, Vault.Find, Vault.Without;
    FindInMap(c, dek, w.mem.records, p.live, name);
    WithoutLength(w.mem.records, name);
    DropHolds(c, dek, w.mem, p.live, p.locked, name);
  }

  /** A single writer's save is never refused as a concurrent change, nor because its file has vanished. */
  lemma SaveRefines(c: Suite, dek: bytes, w: World, p: Plain, env: Vault.SaveEnv, t: Tape, pos: nat)
    requires c.Lawful() && Inv(c, dek, w, p) && Fits(p, Save(env))
    ensures Refines(c, dek, w, p, Save(env), t, pos)
  {
    hide Represents, HeaderFits, FileHolds, Vault.SavedImage, CanBeReopened, Vault.SavedPos;
    if !p.locked && env.writeOk && env.renameOk {
      SaveHolds(c, dek, w.mem, p.live, t, pos);
    }
  }

  lemma ReopenRefines(c: Suite, dek: bytes, w: World, p: Plain, t: Tape, pos: nat)
    requires Inv(c, dek, w, p)
    ensures Refines(c, dek, w, p, Reopen, t, pos)
  {
    hide GoodMem, Load, Vault.Unlock;
    if w.disk.Some? {
      UnlockIgnoresTape(c, Load(c, w.disk.value).value, dek, t, pos, NO_RANDOMNESS, 0);
    }
  }

  /** One step: the answers agree and the invariant holds of what results. */
  lemma StepRefines(c: Suite, dek: bytes, w: World, p: Plain, op: Op, t: Tape, pos: nat)
    requires c.Lawful() && Inv(c, dek, w, p) && Fits(p, op)
    ensures Refines(c, dek, w, p, op, t, pos)
  {
    hide Represents, HeaderFits, FileHolds;
    match op
    case Save(env) => SaveRefines(c, dek, w, p, env, t, pos);
    case Reopen => ReopenRefines(c, dek, w, p, t, pos);
    case Get(name) => FindInMap(c, dek, w.mem.records, p.live, name);
    case List => ListAgrees(c, dek, w.mem.records, p.live);
    case Lock =>
    case Vanish =>
    case Add(name, value) => AddRefines(c, dek, w, p, name, value, t, pos);
    case Upsert(name, value) => UpsertRefines(c, dek, w, p, name, value, t, pos);
    case Remove(name) => RemoveRefines(c, dek, w, p, name, t, pos);
  }

  lemma {:induction false} RunRefinesMap(c: Suite, dek: bytes, w: World, p: Plain, ops: seq<Op>, t: Tape, pos: nat)
    requires c.Lawful() && Inv(c, dek, w, p) && AllFit(p, ops)
    ensures forall i :: 0 <= i < |ops| ==> Agree(Run(c, dek, w, ops, t, pos)[i], PlainRun(p, ops)[i])
    decreases |ops|
  {
    hide Inv, Step, PlainStep, Agree, Fits, DoReopen;
    if ops != [] {
      var n := Step(c, dek, w, ops[0], t, pos);
      var (q, a) := PlainStep(p, ops[0]);
      StepRefines(c, dek, w, p, ops[0], t, pos);
      RunRefinesMap(c, dek, n.world, q, ops[1..], t, n.pos);
      assert Run(c, dek, w, ops, t, pos) == [n.answer] + Run(c, dek, n.world, ops[1..], t, n.pos);
      assert PlainRun(p, ops) == [a] + PlainRun(q, ops[1..]);
    }
  }

  /** From a fresh unlocked vault and no file, for every run and every random source. */
  lemma FreshVaultIsAMap(c: Suite, dek: bytes, h: VaultHeader, ops: seq<Op>, t: Tape)
    requires c.Lawful() && HeaderFits(h) && h.formatVersion == FORMAT_VERSION
    requires AllFit(Plain(map[], false, None), ops)
    ensures var w := World(Vault.Mem(h, [], Vault.Unlocked(dek), None), None);
            forall i :: 0 <= i < |ops| ==>
              Agree(Run(c, dek, w, ops, t, 0)[i], PlainRun(Plain(map[], false, None), ops)[i])
  {
    hide HeaderFits, Agree, Run, PlainRun, AllFit;
    var w := World(Vault.Mem(h, [], Vault.Unlocked(dek), None), None);
    RunRefinesMap(c, dek, w, Plain(map[], false, None), ops, t, 0);
  }

  /** A file that was deleted under an open vault is written anew: whatever was done before, after `Vanish` a save
      succeeds and a reopening finds every live entry. */
  lemma VanishedFileIsWrittenAnew(c: Suite, dek: bytes, w: World, p: Plain, name: Text, t: Tape, pos: nat)
    requires c.Lawful() && Inv(c, dek, w, p) && !p.locked && CanBeReopened(p.live)
    ensures var ops := [Vanish, Reopen, Save(Vault.SaveEnv(true, true, true)), Reopen, Get(name)];
            var answers := Run(c, dek, w, ops, t, pos);
            && answers[1] == Done(Err(Io)) && answers[2] == Done(Ok(())) && answers[3] == Done(Ok(()))
            && answers[4] == Value(if name in p.live then Ok(p.live[name]) else Err(NotFound(name)))
  {
    hide Inv, Run, PlainRun, AllFit, CanBeReopened;
    var save := Save(Vault.SaveEnv(true, true, true));
    var ops := [Vanish] + ([Reopen] + ([save] + ([Reopen] + ([Get(name)] + []))));
    var gone, kept := p.(saved := None), Plain(p.live, false, Some(p.live));
    PlainRunStep(kept, Get(name), []);
    PlainRunStep(kept, Reopen, [Get(name)] + []);
    PlainRunStep(gone, save, [Reopen] + ([Get(name)] + []));
    PlainRunStep(gone, Reopen, [save] + ([Reopen] + ([Get(name)] + [])));
    PlainRunStep(p, Vanish, [Reopen] + ([save] + ([Reopen] + ([Get(name)] + []))));
    assert AllFit(kept, []) by { NothingToFit(kept); }
    assert ops == [Vanish, Reopen, save, Reopen, Get(name)];
    RunRefinesMap(c, dek, w, p, ops, t, pos);
    var answers := Run(c, dek, w, ops, t, pos);
    forall i | 0 <= i < 5 ensures Agree(answers[i], PlainRun(p, ops)[i]) {
    }
  }

  lemma NothingToFit(p: Plain)
    ensures AllFit(p, [])
  {
  }

  lemma PlainRunStep(p: Plain, op: Op, ops: seq<Op>)
    ensures PlainRun(p, [op] + ops) == [PlainStep(p, op).1] + PlainRun(PlainStep(p, op).0, ops)
    ensures AllFit(p, [op] + ops) <==> Fits(p, op) && AllFit(PlainStep(p, op).0, ops)
  {
    hide PlainStep, Fits;
    assert ([op] + ops)[1..] == ops;
  }
}
