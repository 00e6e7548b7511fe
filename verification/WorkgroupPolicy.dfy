/** Choosing a one-dimensional workgroup width from device limits. */
module WorkgroupPolicy {
  import opened Machine

  datatype Dims = Dims(x: u32, y: u32, z: u32)

  /** The device capabilities the choice reads. */
  datatype Caps = Caps(maxWorkgroup: Dims, maxInvocations: u32, subgroupSize: u32, idealTile: Dims,
                       specialization: bool)

  const MIN_WORKGROUP_X := 32
  const DEFAULT_WORKGROUP_X := 64
  const MAX_PORTABLE_WORKGROUP_X := 256

  function SaturatingAdd(a: u32, b: u32): u32 {
    if a + b <= U32_MAX then a + b else U32_MAX
  }

  function SaturatingMul(a: u32, b: u32): u32 {
    if 0 <= a * b <= U32_MAX then a * b else U32_MAX
  }

  /** The largest power of two up to `n`; one for zero. */
  function PowerFloor(n: nat): (p: nat)
    ensures 1 <= p && (1 <= n ==> p <= n < 2 * p)
  {
    if n <= 1 then 1 else 2 * PowerFloor(n / 2)
  }

  predicate IsPowerOfTwo(n: nat) {
    n == PowerFloor(n)
  }

  function PowerCeiling(n: nat): (p: nat)
    ensures n <= p && 1 <= p && (2 <= n ==> p < 2 * n)
  {
    if IsPowerOfTwo(n) || n == 0 then PowerFloor(n) else 2 * PowerFloor(n)
  }

  function Clamp(value: int, low: int, high: int): int {
    if value < low then low else if value > high then high else value
  }

  function NormalizePowerOfTwo(value: u32, low: u32, high: u32): (r: nat)
    requires low <= high
    ensures 1 <= r <= Max(1, high)
  {
    PowerFloor(Clamp(value, low, high))
  }

  function LegalCeiling(caps: Caps): (r: nat)
    ensures 1 <= r <= MAX_PORTABLE_WORKGROUP_X
  {
    var adapterX := if caps.maxWorkgroup.x > 0 then caps.maxWorkgroup.x else 1;
    var invocations := if caps.maxInvocations > 0 then caps.maxInvocations else adapterX;
    Max(1, Min(Min(adapterX, invocations), MAX_PORTABLE_WORKGROUP_X))
  }

  /** The device can launch a workgroup of this width, and it is portable. */
  predicate Legal(x: nat, caps: Caps) {
    && 1 <= x <= 256 && x <= Max(1, caps.maxWorkgroup.x)
    && (caps.maxInvocations > 0 ==> x <= caps.maxInvocations)
  }

  function TileSize(tile: Dims): u32 {
    SaturatingMul(SaturatingMul(tile.x, tile.y), tile.z)
  }

  predicate LegalTile(tile: Dims, caps: Caps) {
    && tile.x != 0 && tile.y != 0 && tile.z != 0
    && 0 < TileSize(tile) <= Max(caps.maxInvocations, 1)
    && tile.x <= Max(caps.maxWorkgroup.x, 1)
    && tile.y <= Max(caps.maxWorkgroup.y, 1)
    && tile.z <= Max(caps.maxWorkgroup.z, 1)
  }

  function PreferredX(caps: Caps): Option<nat> {
    if LegalTile(caps.idealTile, caps) then
      Some(NormalizePowerOfTwo(TileSize(caps.idealTile), 1, Max(1, Min(caps.maxWorkgroup.x, caps.maxInvocations))))
    else
      None
  }

  /** Reward for how a problem size divides by the width. */
  function TailScore(x: nat, problemSize: Option<u32>): (r: nat)
    requires 1 <= x <= MAX_PORTABLE_WORKGROUP_X
    ensures r <= 200
  {
    if problemSize.None? || problemSize.value == 0 then 0
    else if problemSize.value % x == 0 then 200
    else Max(0, 120 - SaturatingMul(problemSize.value % x, 120) / x)
  }

  function EffectiveSubgroup(caps: Caps): (r: u32)
    ensures r >= 1
  {
    if caps.subgroupSize > 0 then caps.subgroupSize else 32
  }

  function Occupancy(x: nat, subgroup: u32): (r: nat)
    requires 1 <= x <= MAX_PORTABLE_WORKGROUP_X && 1 <= subgroup
    ensures r <= 800
  {
    Min(SaturatingAdd(x, subgroup - 1) / subgroup, 8) * 100
  }

  /** The score without the flat bonus for specialization constants. */
  function BaseScore(x: nat, problemSize: Option<u32>, caps: Caps): (r: nat)
    requires 1 <= x <= MAX_PORTABLE_WORKGROUP_X
    ensures r <= 2250
  {
    var subgroup := EffectiveSubgroup(caps);
    var preferred := if PreferredX(caps) == Some(x) then 1000 else 0;
    var fit := if x % subgroup == 0 then 250 else 0;
    Occupancy(x, subgroup) + preferred + fit + TailScore(x, problemSize)
  }

  function Score(x: nat, problemSize: Option<u32>, caps: Caps): (r: u32)
    requires 1 <= x <= MAX_PORTABLE_WORKGROUP_X
  {
    BaseScore(x, problemSize, caps) + if caps.specialization then 30 else 0
  }

  /** Wider wins a tie. */
  predicate Beats(x: nat, best: nat, problemSize: Option<u32>, caps: Caps)
    requires 1 <= x <= MAX_PORTABLE_WORKGROUP_X && 1 <= best <= MAX_PORTABLE_WORKGROUP_X
  {
    || Score(x, problemSize, caps) > Score(best, problemSize, caps)
    || (Score(x, problemSize, caps) == Score(best, problemSize, caps) && x > best)
  }

  /** The best of `best`, `candidate`, twice `candidate`, and so on up to `maxX`. */
  function Search(candidate: nat, best: nat, maxX: nat, problemSize: Option<u32>, caps: Caps): (r: nat)
    requires 1 <= candidate && 1 <= best <= maxX <= MAX_PORTABLE_WORKGROUP_X
    ensures 1 <= r <= maxX
    decreases maxX - candidate
  {
    if candidate > maxX then best
    else Search(2 * candidate, if Beats(candidate, best, problemSize, caps) then candidate else best, maxX,
                problemSize, caps)
  }

  /** The declared width is legal, a power of two, and scores no less than the default. */
  predicate KeepsDeclared(declared: u32, problemSize: Option<u32>, caps: Caps) {
    var maxX := LegalCeiling(caps);
    var minX := Max(1, Min(MIN_WORKGROUP_X, maxX));
    && minX <= declared <= maxX && IsPowerOfTwo(declared)
    && Score(declared, problemSize, caps) >= Score(Max(minX, Min(DEFAULT_WORKGROUP_X, maxX)), problemSize, caps)
  }

  function Floor(caps: Caps): (r: nat)
    ensures 1 <= r <= LegalCeiling(caps)
  {
    var maxX := LegalCeiling(caps);
    if caps.subgroupSize > 0 then Max(1, Min(caps.subgroupSize, maxX)) else Max(1, Min(MIN_WORKGROUP_X, maxX))
  }

  function FirstCandidate(caps: Caps): (r: nat)
    ensures 1 <= r <= LegalCeiling(caps)
  {
    Max(1, Min(PowerCeiling(Floor(caps)), LegalCeiling(caps)))
  }

  function Select(declared: u32, problemSize: Option<u32>, caps: Caps): (r: nat)
    ensures 1 <= r <= LegalCeiling(caps)
  {
    var maxX := LegalCeiling(caps);
    if KeepsDeclared(declared, problemSize, caps) then declared
    else Search(FirstCandidate(caps), NormalizePowerOfTwo(DEFAULT_WORKGROUP_X, Floor(caps), maxX), maxX, problemSize,
                caps)
  }

  lemma SelectIsLegal(declared: u32, problemSize: Option<u32>, caps: Caps)
    ensures Legal(Select(declared, problemSize, caps), caps)
  {
    hide Search, Score, KeepsDeclared, PowerFloor;
  }

  // ----- what the choice means -----

  /** `x` is reached from `first` by doubling. */
  predicate Reached(first: nat, x: nat)
    requires 1 <= first
    decreases x
  {
    x == first || (x > first && x % 2 == 0 && Reached(first, x / 2))
  }

  lemma {:induction false} ReachedFromNext(first: nat, x: nat)
    requires 1 <= first && Reached(first, x) && x != first
    ensures Reached(2 * first, x)
    decreases x
  {
    if x / 2 != first {
      ReachedFromNext(first, x / 2);
    }
  }

  /** Nothing tried beats the width found. */
  lemma {:induction false} SearchFindsBest(candidate: nat, best: nat, maxX: nat, problemSize: Option<u32>, caps: Caps,
                                           x: nat)
    requires 1 <= candidate && 1 <= best <= maxX <= MAX_PORTABLE_WORKGROUP_X
    requires x == best || (1 <= x <= maxX && Reached(candidate, x))
    ensures !Beats(x, Search(candidate, best, maxX, problemSize, caps), problemSize, caps)
    decreases maxX - candidate
  {
    hide Score;
    if candidate <= maxX {
      var next := if Beats(candidate, best, problemSize, caps) then candidate else best;
      SearchFindsBest(2 * candidate, next, maxX, problemSize, caps, next);
      if x != best && x != candidate {
        ReachedFromNext(candidate, x);
        SearchFindsBest(2 * candidate, next, maxX, problemSize, caps, x);
      }
    }
  }

  lemma {:induction false} SearchFindsCandidate(candidate: nat, best: nat, maxX: nat, problemSize: Option<u32>,
                                                caps: Caps)
    requires 1 <= candidate && 1 <= best <= maxX <= MAX_PORTABLE_WORKGROUP_X
    ensures
      var r := Search(candidate, best, maxX, problemSize, caps);
      r == best || Reached(candidate, r)
    decreases maxX - candidate
  {
    hide Score;
    if candidate <= maxX {
      var next := if Beats(candidate, best, problemSize, caps) then candidate else best;
      SearchFindsCandidate(2 * candidate, next, maxX, problemSize, caps);
      var r := Search(candidate, best, maxX, problemSize, caps);
      if r != next {
        ReachedFromHalf(candidate, r);
      }
    }
  }

  lemma {:induction false} ReachedFromHalf(first: nat, x: nat)
    requires 1 <= first && Reached(2 * first, x)
    ensures Reached(first, x)
    decreases x
  {
    if x != 2 * first {
      ReachedFromHalf(first, x / 2);
    }
  }

  /** A width that is not the declared one is a candidate that no candidate beats. */
  lemma SelectsBest(declared: u32, problemSize: Option<u32>, caps: Caps)
    requires !KeepsDeclared(declared, problemSize, caps)
    ensures
      var r := Select(declared, problemSize, caps);
      var start := NormalizePowerOfTwo(DEFAULT_WORKGROUP_X, Floor(caps), LegalCeiling(caps));
      && (r == start || Reached(FirstCandidate(caps), r))
      && !Beats(start, r, problemSize, caps)
      && (forall x | 1 <= x <= LegalCeiling(caps) && Reached(FirstCandidate(caps), x) ::
            !Beats(x, r, problemSize, caps))
  {
    hide Score, LegalCeiling, Floor, FirstCandidate, NormalizePowerOfTwo, KeepsDeclared, Beats;
    var maxX := LegalCeiling(caps);
    var start := NormalizePowerOfTwo(DEFAULT_WORKGROUP_X, Floor(caps), maxX);
    SearchFindsCandidate(FirstCandidate(caps), start, maxX, problemSize, caps);
    SearchFindsBest(FirstCandidate(caps), start, maxX, problemSize, caps, start);
    forall x | 1 <= x <= maxX && Reached(FirstCandidate(caps), x)
      ensures !Beats(x, Select(declared, problemSize, caps), problemSize, caps)
    {
      SearchFindsBest(FirstCandidate(caps), start, maxX, problemSize, caps, x);
    }
  }

  // ----- what the choice depends on -----

  predicate SameButSpecialization(a: Caps, b: Caps) {
    a.(specialization := b.specialization) == b
  }

  lemma {:induction false} SearchIgnoresSpecialization(candidate: nat, best: nat, maxX: nat, problemSize: Option<u32>,
                                                       a: Caps, b: Caps)
    requires 1 <= candidate && 1 <= best <= maxX <= MAX_PORTABLE_WORKGROUP_X
    requires SameButSpecialization(a, b)
    ensures Search(candidate, best, maxX, problemSize, a) == Search(candidate, best, maxX, problemSize, b)
    decreases maxX - candidate
  {
    if candidate <= maxX {
      ScoreShifts(candidate, problemSize, a, b);
      ScoreShifts(best, problemSize, a, b);
      hide Score;
      var next := if Beats(candidate, best, problemSize, a) then candidate else best;
      SearchIgnoresSpecialization(2 * candidate, next, maxX, problemSize, a, b);
    }
  }

  lemma ScoreShifts(x: nat, problemSize: Option<u32>, a: Caps, b: Caps)
    requires 1 <= x <= MAX_PORTABLE_WORKGROUP_X && SameButSpecialization(a, b)
    ensures Score(x, problemSize, a) - Score(x, problemSize, b)
         == (if a.specialization then 30 else 0) - (if b.specialization then 30 else 0)
  {
    assert PreferredX(a) == PreferredX(b);
  }

  /** Support for specialization constants moves every score by the same amount, so
      it cannot change the width. */
  lemma SelectIgnoresSpecialization(declared: u32, problemSize: Option<u32>, a: Caps, b: Caps)
    requires SameButSpecialization(a, b)
    ensures Select(declared, problemSize, a) == Select(declared, problemSize, b)
  {
    var maxX := LegalCeiling(a);
    var default := Max(Max(1, Min(MIN_WORKGROUP_X, maxX)), Min(DEFAULT_WORKGROUP_X, maxX));
    ScoreShifts(default, problemSize, a, b);
    if 1 <= declared <= maxX {
      ScoreShifts(declared, problemSize, a, b);
    }
    hide Score, PowerFloor, PowerCeiling;
    SearchIgnoresSpecialization(FirstCandidate(a), NormalizePowerOfTwo(DEFAULT_WORKGROUP_X, Floor(a), maxX), maxX,
                                problemSize, a, b);
  }

  const COMPACT := Caps(Dims(256, 256, 64), 256, 32, Dims(8, 8, 1), false)
  const WIDE := COMPACT.(idealTile := Dims(16, 16, 1))

  lemma PowersUpTo256()
    ensures PowerFloor(1) == 1 && PowerFloor(32) == 32 && PowerFloor(64) == 64 && PowerFloor(256) == 256
  {
  }

  /** The preferred tile alone changes the chosen width. */
  lemma TileChangesWidth()
    ensures Select(1, Some(4096), COMPACT) == 64
    ensures Select(1, Some(4096), WIDE) == 256
  {
    PowersUpTo256();
    hide PowerFloor;
    assert PreferredX(COMPACT) == Some(64) && PreferredX(WIDE) == Some(256);
    assert LegalCeiling(COMPACT) == 256 == LegalCeiling(WIDE);
    assert FirstCandidate(COMPACT) == 32 == FirstCandidate(WIDE);
    assert NormalizePowerOfTwo(64, 32, 256) == 64;
    ScoresOf(COMPACT, 64);
    ScoresOf(WIDE, 256);
    SearchOf(COMPACT, 64);
    SearchOf(WIDE, 256);
  }

  lemma ScoresOf(caps: Caps, preferred: nat)
    requires caps.subgroupSize == 32 && !caps.specialization
    requires PreferredX(caps) == Some(preferred)
    ensures Score(32, Some(4096), caps) == 550 + (if preferred == 32 then 1000 else 0)
    ensures Score(64, Some(4096), caps) == 650 + (if preferred == 64 then 1000 else 0)
    ensures Score(128, Some(4096), caps) == 850 + (if preferred == 128 then 1000 else 0)
    ensures Score(256, Some(4096), caps) == 1250 + (if preferred == 256 then 1000 else 0)
  {
    hide PreferredX;
    assert TailScore(32, Some(4096)) == 200 && TailScore(64, Some(4096)) == 200;
    assert TailScore(128, Some(4096)) == 200 && TailScore(256, Some(4096)) == 200;
  }

  lemma SearchOf(caps: Caps, preferred: nat)
    requires preferred == 64 || preferred == 256
    requires Score(32, Some(4096), caps) == 550 + (if preferred == 32 then 1000 else 0)
    requires Score(64, Some(4096), caps) == 650 + (if preferred == 64 then 1000 else 0)
    requires Score(128, Some(4096), caps) == 850 + (if preferred == 128 then 1000 else 0)
    requires Score(256, Some(4096), caps) == 1250 + (if preferred == 256 then 1000 else 0)
    ensures Search(32, 64, 256, Some(4096), caps) == preferred
  {
  }
}
