/** The doubling search for the Argon2 memory cost, for any machine, that is, any probe function. */
module Calibration {
  import opened Bytes
  import opened Crypto
  import opened Reader

  /** Time one derivation takes at a memory cost. */
  type Probe = u32 -> nat

  /** `mem.saturating_mul(2).min(cap)`. */
  function Doubled(mem: u32, cap: u32): u32 {
    var d := if 2 * mem < U32_LIMIT then 2 * mem else U32_LIMIT - 1;
    if d < cap then d else cap
  }

  /** The levels the search may visit: the floor, then doubled and clipped. */
  function Level(floor: u32, cap: u32, k: nat): u32 {
    if k == 0 then floor else Doubled(Level(floor, cap, k - 1), cap)
  }

  /** Why the search goes no further than `mem`. */
  predicate Stops(cap: u32, probe: Probe, target: nat, maxTrial: nat, mem: u32) {
    mem >= cap || probe(mem) > maxTrial || Doubled(mem, cap) == mem || probe(Doubled(mem, cap)) > target
  }

  /** `chosen` is the level the search climbed to: level `k`, every level climbed to above the floor met the
      target, no earlier level gave a reason to stop, and level `k` did. */
  predicate Climbed(floor: u32, cap: u32, probe: Probe, target: nat, maxTrial: nat, chosen: u32, k: nat) {
    && chosen == Level(floor, cap, k)
    && (forall i :: 0 < i <= k ==> probe(Level(floor, cap, i)) <= target)
    && (forall i :: 0 <= i < k ==> !Stops(cap, probe, target, maxTrial, Level(floor, cap, i)))
    && Stops(cap, probe, target, maxTrial, chosen)
  }

  /** `calibrate_with`. */
  method CalibrateWith(floor: u32, cap: u32, probe: Probe, target: nat, maxTrial: nat) returns (chosen: u32)
    ensures exists k :: Climbed(floor, cap, probe, target, maxTrial, chosen, k)
    ensures chosen >= floor && (floor <= cap ==> chosen <= cap)
  {
    hide Doubled;
    chosen := floor;
    var mem := floor;
    ghost var k: nat := 0;
    while true
      invariant mem == Level(floor, cap, k)
      invariant k == 0 <==> mem == floor
      invariant k == 0 ==> chosen == floor
      invariant k > 0 ==> chosen == Level(floor, cap, k - 1) && mem == Doubled(chosen, cap)
      invariant k > 0 ==> chosen < cap && probe(chosen) <= maxTrial && chosen < mem <= cap
      invariant floor <= chosen <= mem
      invariant forall i :: 0 < i < k ==> probe(Level(floor, cap, i)) <= target
      invariant forall i :: 0 <= i < k - 1 ==> !Stops(cap, probe, target, maxTrial, Level(floor, cap, i))
      decreases cap - mem
    {
      var dt := probe(mem);
      if mem == floor || dt <= target {
        chosen := mem;
      } else {
        assert Climbed(floor, cap, probe, target, maxTrial, chosen, k - 1);
        break;
      }
      assert k > 0 ==> !Stops(cap, probe, target, maxTrial, Level(floor, cap, k - 1));
      var next := Doubled(mem, cap);
      if mem >= cap || dt > maxTrial {
        assert Climbed(floor, cap, probe, target, maxTrial, chosen, k);
        break;
      }
      if next == mem {
        assert Climbed(floor, cap, probe, target, maxTrial, chosen, k);
        break;
      }
      DoublingClimbs(mem, cap);
      mem, k := next, k + 1;
    }
  }

  lemma DoublingClimbs(mem: u32, cap: u32)
    requires mem < cap
    ensures mem <= Doubled(mem, cap) <= cap
  {
  }

  lemma {:induction false} LevelsClimb(floor: u32, cap: u32, i: nat, j: nat)
    requires floor <= cap && i <= j
    ensures floor <= Level(floor, cap, i) <= Level(floor, cap, j) <= cap
    decreases j
  {
    if i < j {
      LevelsClimb(floor, cap, i, j - 1);
    } else if j > 0 {
      LevelsClimb(floor, cap, j - 1, j - 1);
    }
  }

  /** Without saturation a level is the floor doubled some number of times and clipped at the cap. */
  lemma {:induction false} LevelIsDoubledFloor(floor: u32, cap: u32, k: nat)
    requires floor <= cap
    ensures Level(floor, cap, k) == if floor * Pow2(k) < cap then floor * Pow2(k) else cap
  {
    if k > 0 {
      LevelIsDoubledFloor(floor, cap, k - 1);
      DoubleProduct(floor, Pow2(k - 1));
    }
  }

  lemma DoubleProduct(a: nat, b: nat)
    ensures a * (2 * b) == 2 * (a * b)
  {
  }

  /** The search is determined: whatever describes its outcome describes the same level. */
  lemma OutcomeUnique(floor: u32, cap: u32, probe: Probe, target: nat, maxTrial: nat, a: u32, j: nat, b: u32, k: nat)
    requires Climbed(floor, cap, probe, target, maxTrial, a, j) && Climbed(floor, cap, probe, target, maxTrial, b, k)
    ensures j == k && a == b
  {
    assert Stops(cap, probe, target, maxTrial, Level(floor, cap, j));
    assert Stops(cap, probe, target, maxTrial, Level(floor, cap, k));
  }

  ghost predicate Monotone(probe: Probe) {
    forall a: u32, b: u32 :: a <= b ==> probe(a) <= probe(b)
  }

  /** A level the trial bound keeps the search from leaving: the next one is larger and within the target,
      but this one already took too long to try further. */
  predicate Blocked(cap: u32, probe: Probe, target: nat, maxTrial: nat, mem: u32) {
    mem < Doubled(mem, cap) && probe(Doubled(mem, cap)) <= target && probe(mem) > maxTrial
  }

  ghost predicate NeverBlocked(floor: u32, cap: u32, probe: Probe, target: nat, maxTrial: nat) {
    forall j: nat :: !Blocked(cap, probe, target, maxTrial, Level(floor, cap, j))
  }

  /** No level above the floor is within the target and larger than `chosen`. */
  ghost predicate Largest(floor: u32, cap: u32, probe: Probe, target: nat, chosen: u32) {
    forall j: nat :: j > 0 && probe(Level(floor, cap, j)) <= target ==> Level(floor, cap, j) <= chosen
  }

  /** On a machine where more memory never takes less time, the search finds the largest level within the
      target (the floor is taken unconditionally) exactly when no level of the ladder is blocked. */
  lemma LargestAffordableIff(floor: u32, cap: u32, probe: Probe, target: nat, maxTrial: nat, chosen: u32, k: nat)
    requires floor <= cap && Climbed(floor, cap, probe, target, maxTrial, chosen, k)
    requires Monotone(probe)
    ensures Largest(floor, cap, probe, target, chosen) <==> NeverBlocked(floor, cap, probe, target, maxTrial)
  {
    if Largest(floor, cap, probe, target, chosen) {
      forall j: nat ensures !Blocked(cap, probe, target, maxTrial, Level(floor, cap, j)) {
        LargestNotBlocked(floor, cap, probe, target, maxTrial, chosen, k, j);
      }
    }
    if NeverBlocked(floor, cap, probe, target, maxTrial) {
      assert !Blocked(cap, probe, target, maxTrial, Level(floor, cap, k));
      forall j: nat | j > 0 && probe(Level(floor, cap, j)) <= target ensures Level(floor, cap, j) <= chosen {
        NothingLargerFits(floor, cap, probe, target, maxTrial, chosen, k, j);
      }
    }
  }

  /** A blocked level would lie at or above `chosen` or below it, and neither can be. */
  lemma LargestNotBlocked(floor: u32, cap: u32, probe: Probe, target: nat, maxTrial: nat, chosen: u32, k: nat, j: nat)
    requires floor <= cap && Climbed(floor, cap, probe, target, maxTrial, chosen, k)
    requires Largest(floor, cap, probe, target, chosen)
    ensures !Blocked(cap, probe, target, maxTrial, Level(floor, cap, j))
  {
    hide Doubled;
    if j < k {
      assert !Stops(cap, probe, target, maxTrial, Level(floor, cap, j));
    } else {
      LevelsClimb(floor, cap, k, j);
      assert Level(floor, cap, j + 1) == Doubled(Level(floor, cap, j), cap);
    }
  }

  lemma NothingLargerFits(floor: u32, cap: u32, probe: Probe, target: nat, maxTrial: nat, chosen: u32, k: nat, j: nat)
    requires floor <= cap && Climbed(floor, cap, probe, target, maxTrial, chosen, k)
    requires Monotone(probe) && !Blocked(cap, probe, target, maxTrial, chosen)
    requires j > 0 && probe(Level(floor, cap, j)) <= target
    ensures Level(floor, cap, j) <= chosen
  {
    hide Doubled;
    LevelsClimb(floor, cap, j, j);
    if j <= k {
      LevelsClimb(floor, cap, j, k);
    } else {
      LevelsClimb(floor, cap, k, k + 1);
      LevelsClimb(floor, cap, k + 1, j);
      assert Level(floor, cap, k + 1) == Doubled(chosen, cap);
      if Doubled(chosen, cap) == chosen {
        Stuck(floor, cap, k, j);
      }
    }
  }

  /** In particular when the target does not exceed the trial bound, as in production. */
  lemma LargestAffordable(floor: u32, cap: u32, probe: Probe, target: nat, maxTrial: nat, chosen: u32, k: nat)
    requires floor <= cap && Climbed(floor, cap, probe, target, maxTrial, chosen, k)
    requires Monotone(probe) && target <= maxTrial
    ensures Largest(floor, cap, probe, target, chosen)
  {
    LargestAffordableIff(floor, cap, probe, target, maxTrial, chosen, k);
  }

  /** A blocked level ends the climb early: here the search stays at 1 although 2 costs a fifth of the target. */
  lemma TrialBoundCutsShort()
    ensures var probe := (m: u32) => 10 * m;
            Climbed(1, 4, probe, 100, 5, 1, 0) && Level(1, 4, 1) == 2 && probe(2) <= 100
  {
  }

  lemma {:induction false} Stuck(floor: u32, cap: u32, k: nat, j: nat)
    requires k <= j && Doubled(Level(floor, cap, k), cap) == Level(floor, cap, k)
    ensures Level(floor, cap, j) == Level(floor, cap, k)
    decreases j
  {
    if k < j {
      Stuck(floor, cap, k, j - 1);
    }
  }

  /** A production calibration always yields a header the parser accepts. */
  lemma CalibratedParametersParse(probe: Probe, target: nat, maxTrial: nat, chosen: u32, k: nat, salt: Salt)
    requires Climbed(CAL_FLOOR_MEM_KIB, CAL_CAP_MEM_KIB, probe, target, maxTrial, chosen, k)
    ensures CAL_FLOOR_MEM_KIB <= chosen && Argon2InRange(Argon2Params(chosen, CAL_TIME, CAL_PARALLELISM, salt))
  {
    LevelsClimb(CAL_FLOOR_MEM_KIB, CAL_CAP_MEM_KIB, 0, k);
  }
}
