/** Any number of `create_vault` calls on one path: claim by exclusive creation, work, save, clean up. */
module CreateProtocol {
  import opened Bytes
  import opened Wrappers

  /** Where one call stands. `Claimed` holds the empty placeholder; `Failing` is about to remove it. */
  datatype Pc =
    | Ready
    | Claimed
    | Failing
    | Created(image: bytes)
    | Refused
    | Failed(removed: bool)
    | Killed(holding: bool)

  datatype Sys = Sys(path: Option<bytes>, calls: seq<Pc>)

  datatype Step =
    | Claim(i: nat)                     // create_new: succeeds exactly when the path is absent
    | CannotOpen(i: nat)                // or fails for another reason
    | Fault(i: nat)                     // weak passphrase, key derivation, or a write or rename of the save
    | Save(i: nat, image: bytes)        // the save's rename replaces whatever is at the path
    | Cleanup(i: nat, removed: bool)    // remove_file(path), whose own failure is ignored
    | Kill(i: nat)                      // the process ends here

  const PLACEHOLDER: bytes := []

  function Apply(s: Sys, step: Step): Option<Sys> {
    if step.i >= |s.calls| then None else
    var pc := s.calls[step.i];
    match step
    case Claim(i) =>
      if pc != Ready then None
      else if s.path.Some? then Some(s.(calls := s.calls[i := Refused]))
      else Some(Sys(Some(PLACEHOLDER), s.calls[i := Claimed]))
    case CannotOpen(i) => if pc != Ready then None else Some(s.(calls := s.calls[i := Refused]))
    case Fault(i) => if pc != Claimed then None else Some(s.(calls := s.calls[i := Failing]))
    case Save(i, image) => if pc != Claimed then None else Some(Sys(Some(image), s.calls[i := Created(image)]))
    case Cleanup(i, removed) =>
      if pc != Failing then None
      else Some(Sys(if removed then None else s.path, s.calls[i := Failed(removed || s.path.None?)]))
    case Kill(i) =>
      if pc == Ready || pc == Claimed || pc == Failing then Some(s.(calls := s.calls[i := Killed(pc != Ready)]))
      else None
  }

  function Exec(s: Sys, steps: seq<Step>): Option<Sys>
    decreases |steps|
  {
    if steps == [] then Some(s)
    else match Apply(s, steps[0])
      case None => None
      case Some(s') => Exec(s', steps[1..])
  }

  predicate Started(s: Sys) {
    forall i :: 0 <= i < |s.calls| ==> s.calls[i] == Ready
  }

  /** The calls that answer for what is at the path: holding the claim, done, or unable to give it back. */
  predicate Owns(pc: Pc) {
    pc == Claimed || pc == Failing || pc.Created? || pc == Killed(true) || pc == Failed(false)
  }

  predicate Holding(pc: Pc) {
    pc == Claimed || pc == Failing
  }

  /** What must be at the path while a call owns it. */
  function Owned(pc: Pc): bytes
    requires Owns(pc)
  {
    if pc.Created? then pc.image else PLACEHOLDER
  }

  /** A file found at the start rules everyone out; otherwise at most one call owns the path, the path is
      exactly what that call put there, and without an owner it is absent. */
  predicate Inv(before: Option<bytes>, s: Sys) {
    if before.Some? then
      s.path == before && forall i :: 0 <= i < |s.calls| ==> !Owns(s.calls[i])
    else
      && (forall i, j :: 0 <= i < |s.calls| && 0 <= j < |s.calls| && Owns(s.calls[i]) && Owns(s.calls[j]) ==> i == j)
      && (forall i :: 0 <= i < |s.calls| && Owns(s.calls[i]) ==> s.path == Some(Owned(s.calls[i])))
      && (s.path.Some? ==> exists i :: 0 <= i < |s.calls| && Owns(s.calls[i]))
  }

  lemma StepKeepsInv(before: Option<bytes>, s: Sys, step: Step)
    requires Inv(before, s) && Apply(s, step).Some?
    ensures Inv(before, Apply(s, step).value)
  {
    var s' := Apply(s, step).value;
    var i := step.i;
    assert forall k :: 0 <= k < |s.calls| && k != i ==> s'.calls[k] == s.calls[k];
    if before.None? && s'.path.Some? {
      if Owns(s'.calls[i]) {
      } else {
        var k :| 0 <= k < |s.calls| && Owns(s.calls[k]);
        assert k != i && Owns(s'.calls[k]);
      }
    }
  }

  lemma {:induction false} RunKeepsInv(before: Option<bytes>, s: Sys, steps: seq<Step>)
    requires Inv(before, s) && Exec(s, steps).Some?
    ensures Inv(before, Exec(s, steps).value)
    decreases |steps|
  {
    hide Apply, Inv;
    if steps != [] {
      StepKeepsInv(before, s, steps[0]);
      RunKeepsInv(before, Apply(s, steps[0]).value, steps[1..]);
    }
  }

  /** At most one call ever holds the claim or has succeeded, and never one of each. */
  lemma AtMostOneClaimOrSuccess(s0: Sys, steps: seq<Step>, i: nat, j: nat)
    requires Started(s0) && Exec(s0, steps).Some?
    requires var s := Exec(s0, steps).value;
             && i < |s.calls| && j < |s.calls|
             && (Holding(s.calls[i]) || s.calls[i].Created?) && (Holding(s.calls[j]) || s.calls[j].Created?)
    ensures i == j
  {
    RunKeepsInv(s0.path, s0, steps);
  }

  /** A file that was there beforehand is never altered or deleted, and no call succeeds over it. */
  lemma ExistingFileUntouched(s0: Sys, steps: seq<Step>)
    requires Started(s0) && s0.path.Some? && Exec(s0, steps).Some?
    ensures var s := Exec(s0, steps).value;
            s.path == s0.path && forall i :: 0 <= i < |s.calls| ==> !s.calls[i].Created? && !Holding(s.calls[i])
  {
    RunKeepsInv(s0.path, s0, steps);
  }

  lemma {:induction false} CreatedStays(s: Sys, steps: seq<Step>, i: nat)
    requires i < |s.calls| && s.calls[i].Created? && Exec(s, steps).Some?
    ensures |Exec(s, steps).value.calls| == |s.calls| && Exec(s, steps).value.calls[i] == s.calls[i]
    decreases |steps|
  {
    if steps != [] {
      CreatedStays(Apply(s, steps[0]).value, steps[1..], i);
    }
  }

  /** A vault that a call completed is at the path from then on, whatever the other calls do. */
  lemma CompletedVaultStays(s0: Sys, before: seq<Step>, after: seq<Step>, i: nat)
    requires Started(s0) && Exec(s0, before).Some?
    requires var s := Exec(s0, before).value; i < |s.calls| && s.calls[i].Created? && Exec(s, after).Some?
    ensures var s := Exec(s0, before).value;
            s.path == Some(s.calls[i].image) && Exec(s, after).value.path == Some(s.calls[i].image)
  {
    hide Apply, Exec;
    RunKeepsInv(s0.path, s0, before);
    var s := Exec(s0, before).value;
    RunKeepsInv(s0.path, s, after);
    CreatedStays(s, after, i);
    assert Owns(s.calls[i]) && Owns(Exec(s, after).value.calls[i]);
  }

  predicate Finished(pc: Pc) {
    pc.Created? || pc == Refused || pc.Failed? || pc.Killed?
  }

  /** When every call on an absent path has ended, the path is absent again exactly when none succeeded,
      none was killed while holding the claim, and no removal of a placeholder failed. */
  lemma AbsentAgainIff(s0: Sys, steps: seq<Step>)
    requires Started(s0) && s0.path.None? && Exec(s0, steps).Some?
    requires forall i :: 0 <= i < |Exec(s0, steps).value.calls| ==> Finished(Exec(s0, steps).value.calls[i])
    ensures var s := Exec(s0, steps).value;
            s.path.None? <==> forall i :: 0 <= i < |s.calls| ==>
              !s.calls[i].Created? && s.calls[i] != Killed(true) && s.calls[i] != Failed(false)
  {
    hide Apply, Exec;
    RunKeepsInv(s0.path, s0, steps);
  }

  // ---------- progress ----------

  /** In every reachable state a call that has not begun can claim the path if and only if it is absent; it then
      holds the empty placeholder, and otherwise is turned away and changes nothing. */
  lemma ClaimIff(s0: Sys, steps: seq<Step>, i: nat)
    requires Started(s0) && Exec(s0, steps).Some?
    requires var s := Exec(s0, steps).value; i < |s.calls| && s.calls[i] == Ready
    ensures var s := Exec(s0, steps).value;
            var claimed := Exec(s, [Claim(i)]);
            && claimed.Some? && |claimed.value.calls| == |s.calls|
            && (claimed.value.calls[i] == Claimed <==> s.path.None?)
            && (s.path.None? ==>
                  && claimed.value.path == Some([])
                  && forall j :: 0 <= j < |s.calls| ==> !Owns(s.calls[j]))
            && (s.path.Some? ==> claimed.value == s.(calls := s.calls[i := Refused]))
  {
    RunKeepsInv(s0.path, s0, steps);
    var s := Exec(s0, steps).value;
    ExecOne(s, Claim(i));
  }

  lemma ExecOne(s: Sys, step: Step)
    ensures Exec(s, [step]) == Apply(s, step)
  {
    hide Apply;
    assert [step][1..] == [];
  }

  lemma ExecTwo(s: Sys, a: Step, b: Step)
    requires Apply(s, a).Some?
    ensures Exec(s, [a, b]) == Apply(Apply(s, a).value, b)
  {
    hide Apply;
    assert [a, b][1..] == [b];
    ExecOne(Apply(s, a).value, b);
  }

  /** A call that finds the path absent and meets no fault completes its vault, whatever the others did before. */
  lemma LoneCallCompletes(s: Sys, i: nat, image: bytes)
    requires i < |s.calls| && s.calls[i] == Ready && s.path.None?
    ensures Exec(s, [Claim(i), Save(i, image)]) == Some(Sys(Some(image), s.calls[i := Created(image)]))
  {
    ExecTwo(s, Claim(i), Save(i, image));
    assert s.calls[i := Claimed][i := Created(image)] == s.calls[i := Created(image)];
  }

  /** A failure leaves nothing in the way: once the call that failed has removed its placeholder, another call
      completes on the same path. */
  lemma RetryCompletes(s0: Sys, steps: seq<Step>, i: nat, j: nat, image: bytes)
    requires Started(s0) && Exec(s0, steps).Some?
    requires var s := Exec(s0, steps).value;
             i < |s.calls| && j < |s.calls| && s.calls[i] == Claimed && s.calls[j] == Ready
    ensures var s := Exec(s0, steps).value;
            var cleaned := Exec(s, [Fault(i), Cleanup(i, true)]);
            && cleaned == Some(Sys(None, s.calls[i := Failed(true)]))
            && Exec(cleaned.value, [Claim(j), Save(j, image)])
               == Some(Sys(Some(image), s.calls[i := Failed(true)][j := Created(image)]))
  {
    RunKeepsInv(s0.path, s0, steps);
    var s := Exec(s0, steps).value;
    ExecTwo(s, Fault(i), Cleanup(i, true));
    assert Apply(s, Fault(i)).value.calls[i := Failed(true)] == s.calls[i := Failed(true)];
    LoneCallCompletes(Sys(None, s.calls[i := Failed(true)]), j, image);
  }

  /** Every call that has begun can end, in failure or in a vault, and no other call is touched by how it does. */
  lemma EveryCallCanEnd(s: Sys, i: nat) returns (steps: seq<Step>)
    requires i < |s.calls|
    ensures Exec(s, steps).Some?
    ensures var calls := Exec(s, steps).value.calls;
            |calls| == |s.calls| && Finished(calls[i]) && calls == s.calls[i := calls[i]]
  {
    match s.calls[i]
    case Ready =>
      steps := [CannotOpen(i)];
      ExecOne(s, CannotOpen(i));
    case Claimed =>
      steps := [Fault(i), Cleanup(i, true)];
      ExecTwo(s, Fault(i), Cleanup(i, true));
    case Failing =>
      steps := [Cleanup(i, true)];
      ExecOne(s, Cleanup(i, true));
    case _ =>
      steps := [];
  }

  /** A call can be killed at any point before its end; one that held the claim leaves its placeholder. */
  lemma KilledLeavesPlaceholder(s0: Sys, steps: seq<Step>, i: nat)
    requires Started(s0) && Exec(s0, steps).Some?
    requires i < |Exec(s0, steps).value.calls| && !Finished(Exec(s0, steps).value.calls[i])
    ensures var s := Exec(s0, steps).value;
            var killed := Exec(s, [Kill(i)]);
            && killed == Some(s.(calls := s.calls[i := Killed(Holding(s.calls[i]))]))
            && (Holding(s.calls[i]) ==> s.path == Some([]))
  {
    RunKeepsInv(s0.path, s0, steps);
    ExecOne(Exec(s0, steps).value, Kill(i));
  }
}
