/** The workgroup width in terms of the device's own limits: which widths are tried, what
    a width scores, and that no width tried beats the one chosen. */
module WorkgroupMeaning {
  import opened Machine
  import opened WorkgroupPolicy

  const POWERS := {1, 2, 4, 8, 16, 32, 64, 128, 256}

  /** No legal width is wider. */
  predicate Widest(x: nat, caps: Caps) {
    Legal(x, caps) && !Legal(x + 1, caps)
  }

  /** A subgroup fills the width; 32 where the device reports none. */
  function Wanted(caps: Caps): nat {
    if caps.subgroupSize > 0 then caps.subgroupSize else 32
  }

  /** A legal power of two that holds a subgroup, or the widest width where there is none. */
  ghost predicate Tried(x: nat, caps: Caps) {
    || (Legal(x, caps) && x in POWERS && x >= Wanted(caps))
    || (Widest(x, caps) && forall p | p in POWERS && Legal(p, caps) :: p < Wanted(caps))
  }

  /** The widest legal power of two up to 64 or the subgroup, whichever is larger. */
  predicate Starts(x: nat, caps: Caps) {
    && Legal(x, caps) && x in POWERS && x <= Max(64, Wanted(caps))
    && (Legal(2 * x, caps) ==> 2 * x > Max(64, Wanted(caps)))
  }

  /** The declared width stays: a legal power of two, no narrower than 32 where the device
      allows that much, that scores no less than width 64 or the widest below it. */
  predicate Kept(declared: u32, problemSize: Option<u32>, caps: Caps, default: nat)
    requires Legal(default, caps)
  {
    && Legal(declared, caps) && declared in POWERS && (declared >= 32 || Widest(declared, caps))
    && Score(declared, problemSize, caps) >= Score(default, problemSize, caps)
  }

  /** The width compared with the declared one. */
  predicate IsDefault(x: nat, caps: Caps) {
    Legal(x, caps) && x <= 64 && (x == 64 || Widest(x, caps))
  }

  // ----- powers of two -----

  lemma {:induction false} PowerFloorIsPower(n: nat)
    requires n < 512
    ensures PowerFloor(n) in POWERS
    decreases n
  {
    if n > 1 {
      PowerFloorIsPower(n / 2);
      assert PowerFloor(n / 2) <= n / 2 < 256;
    }
  }

  lemma PowerFloorIs(n: nat, x: nat)
    requires 1 <= n && 1 <= x <= 256
    ensures PowerFloor(n) == x <==> x in POWERS && x <= n < 2 * x
  {
    if n < 512 {
      PowerFloorIsPower(n);
    }
    hide PowerFloor;
  }

  lemma PowerCeilingIs(n: nat, q: nat)
    requires 1 <= n <= 256 && q in POWERS && n <= q
    ensures PowerCeiling(n) in POWERS && PowerCeiling(n) <= q
  {
    var p := PowerFloor(n);
    PowerFloorIsPower(n);
    assert PowerCeiling(n) == if n == p then p else 2 * p;
    hide PowerFloor, PowerCeiling;
    if n != p {
      assert q > p;
      NextPower(p, q);
    }
  }

  lemma NextPower(p: nat, q: nat)
    requires p in POWERS && q in POWERS && p < q
    ensures 2 * p in POWERS && 2 * p <= q
  {
  }

  lemma {:induction false} ReachedIsPower(first: nat, x: nat)
    requires first in POWERS && x <= 256
    ensures Reached(first, x) <==> x in POWERS && first <= x
    decreases x
  {
    if x > first && x % 2 == 0 {
      ReachedIsPower(first, x / 2);
    }
  }

  // ----- the widths tried -----

  lemma CeilingIsWidest(caps: Caps, x: nat)
    ensures Legal(x, caps) <==> 1 <= x <= LegalCeiling(caps)
    ensures Widest(x, caps) <==> x == LegalCeiling(caps)
  {
  }

  lemma StartMeans(caps: Caps, x: nat)
    ensures Starts(x, caps) <==> x == NormalizePowerOfTwo(DEFAULT_WORKGROUP_X, Floor(caps), LegalCeiling(caps))
  {
    var most := Min(Max(64, Wanted(caps)), LegalCeiling(caps));
    assert Clamp(DEFAULT_WORKGROUP_X, Floor(caps), LegalCeiling(caps)) == most;
    CeilingIsWidest(caps, x);
    CeilingIsWidest(caps, 2 * x);
    hide LegalCeiling, Legal;
    assert 1 <= most <= 256;
    if 1 <= x <= 256 {
      PowerFloorIs(most, x);
    }
  }

  lemma TriedMeans(caps: Caps, x: nat)
    ensures Tried(x, caps) <==> 1 <= x <= LegalCeiling(caps) && Reached(FirstCandidate(caps), x)
  {
    var top := LegalCeiling(caps);
    CeilingIsWidest(caps, x);
    forall p
      ensures Legal(p, caps) <==> 1 <= p <= top
    {
      if p >= 0 { CeilingIsWidest(caps, p); }
    }
    var floor := Floor(caps);
    assert floor == Max(1, Min(Wanted(caps), top));
    hide LegalCeiling, Legal, Floor;
    if q: nat :| q in POWERS && Wanted(caps) <= q <= top {
      assert 1 <= floor <= q;
      PowerCeilingIs(floor, q);
      FirstIsCeiling(caps);
      if x <= top {
        ReachedIsPower(PowerCeiling(floor), x);
        if x in POWERS && x >= Wanted(caps) { PowerCeilingIs(floor, x); }
      }
    } else {
      FirstIsWidest(caps);
      ReachedOnly(top, x);
    }
  }

  lemma FirstIsCeiling(caps: Caps)
    requires PowerCeiling(Floor(caps)) <= LegalCeiling(caps)
    ensures FirstCandidate(caps) == PowerCeiling(Floor(caps))
  {
  }

  lemma FirstIsWidest(caps: Caps)
    requires forall p | p in POWERS && p <= LegalCeiling(caps) :: p < Wanted(caps)
    ensures FirstCandidate(caps) == LegalCeiling(caps)
  {
    var floor, top := Floor(caps), LegalCeiling(caps);
    PowerFloorIsPower(floor);
    hide PowerFloor, LegalCeiling;
  }

  lemma ReachedOnly(first: nat, x: nat)
    requires 1 <= first
    ensures x <= first ==> (Reached(first, x) <==> x == first)
  {
  }

  lemma DefaultMeans(caps: Caps, x: nat)
    ensures IsDefault(x, caps) <==> x == Max(Max(1, Min(MIN_WORKGROUP_X, LegalCeiling(caps))),
                                             Min(DEFAULT_WORKGROUP_X, LegalCeiling(caps)))
  {
    CeilingIsWidest(caps, x);
    hide LegalCeiling, Legal;
  }

  lemma KeptMeans(declared: u32, problemSize: Option<u32>, caps: Caps, default: nat)
    requires IsDefault(default, caps)
    ensures Kept(declared, problemSize, caps, default) <==> KeepsDeclared(declared, problemSize, caps)
  {
    DefaultMeans(caps, default);
    CeilingIsWidest(caps, declared);
    if 1 <= declared <= 256 {
      PowerFloorIs(declared, declared);
    }
    hide Score, LegalCeiling, PowerFloor, Legal;
  }

  // ----- what a width scores -----

  /** The tile fits the device, and `x` is the widest power of two within its volume and
      within the device's limits on a width. */
  predicate TilePrefers(x: nat, caps: Caps) {
    var tile := caps.idealTile;
    var volume := Min(tile.x * tile.y * tile.z, U32_MAX);
    var room := Min(volume, Max(1, Min(caps.maxWorkgroup.x, caps.maxInvocations)));
    && 1 <= tile.x <= Max(1, caps.maxWorkgroup.x) && 1 <= tile.y <= Max(1, caps.maxWorkgroup.y)
    && 1 <= tile.z <= Max(1, caps.maxWorkgroup.z) && volume <= Max(1, caps.maxInvocations)
    && x in POWERS && x <= room < 2 * x
  }

  /** `waves` subgroups hold a width of `x` and one fewer do not. */
  predicate Fills(waves: nat, x: nat, caps: Caps) {
    waves >= 1 && (waves - 1) * Wanted(caps) < x <= waves * Wanted(caps)
  }

  /** Nothing for an unknown or empty problem, 200 when the width divides it, otherwise
      120 less the share of the last group that is filled. */
  predicate TailEarns(x: nat, problemSize: Option<u32>, points: nat)
    requires 1 <= x
  {
    if problemSize.None? || problemSize.value == 0 then points == 0
    else if problemSize.value % x == 0 then points == 200
    else points <= 120 && (120 - points) * x <= 120 * (problemSize.value % x) < (121 - points) * x
  }

  lemma SaturatedProduct(tile: Dims)
    requires tile.x >= 1 && tile.y >= 1 && tile.z >= 1
    ensures TileSize(tile) == Min(tile.x * tile.y * tile.z, U32_MAX)
  {
    var xy := tile.x * tile.y;
    assert xy >= 1;
    assert xy * tile.z >= xy;
    if xy > U32_MAX {
      assert U32_MAX * tile.z >= U32_MAX;
    }
  }

  lemma PreferenceMeans(x: nat, caps: Caps)
    requires 1 <= x <= 256
    ensures PreferredX(caps) == Some(x) <==> TilePrefers(x, caps)
  {
    var tile := caps.idealTile;
    if tile.x >= 1 && tile.y >= 1 && tile.z >= 1 {
      SaturatedProduct(tile);
      var volume := Min(tile.x * tile.y * tile.z, U32_MAX);
      assert TileSize(tile) == volume;
      hide TileSize;
      if LegalTile(tile, caps) {
        var room := Min(volume, Max(1, Min(caps.maxWorkgroup.x, caps.maxInvocations)));
        PowerFloorIs(room, x);
      }
    }
  }

  lemma QuotientIs(n: nat, d: nat, q: nat)
    requires d >= 1 && q * d <= n < (q + 1) * d
    ensures n / d == q
  {
    QuotientAtLeast(n, d, q);
    QuotientAtLeast(n, d, q + 1);
  }

  lemma WavesAreQuotient(x: nat, subgroup: nat, waves: nat)
    requires waves >= 1 && subgroup >= 1 && (waves - 1) * subgroup < x <= waves * subgroup
    ensures (x + subgroup - 1) / subgroup == waves
    ensures waves > 1 ==> subgroup < x
  {
    assert waves * subgroup == (waves - 1) * subgroup + subgroup;
    assert (waves + 1) * subgroup == waves * subgroup + subgroup;
    QuotientIs(x + subgroup - 1, subgroup, waves);
    if waves > 1 {
      assert (waves - 1) * subgroup >= 1 * subgroup;
    }
  }

  lemma WavesMean(x: nat, caps: Caps, waves: nat)
    requires 1 <= x <= 256 && Fills(waves, x, caps)
    ensures Occupancy(x, EffectiveSubgroup(caps)) == 100 * Min(8, waves)
  {
    var subgroup := EffectiveSubgroup(caps);
    WavesAreQuotient(x, subgroup, waves);
    hide Fills;
    if x + subgroup - 1 > U32_MAX {
      QuotientIs(U32_MAX, subgroup, 1);
    }
  }

  lemma TailMeans(x: nat, problemSize: Option<u32>, points: nat)
    requires 1 <= x <= 256 && TailEarns(x, problemSize, points)
    ensures TailScore(x, problemSize) == points
  {
    if problemSize.Some? && problemSize.value != 0 && problemSize.value % x != 0 {
      var rem := problemSize.value % x;
      assert 0 < rem < x <= 256;
      assert SaturatingMul(rem, 120) == 120 * rem;
      QuotientIs(120 * rem, x, 120 - points);
    }
  }

  /** A score is 100 for each of up to eight subgroups, 1000 for the device's preferred
      width, 250 for whole subgroups, 30 for specialization, and the tail's points. */
  lemma ScoreMeans(x: nat, problemSize: Option<u32>, caps: Caps, waves: nat, tail: nat)
    requires 1 <= x <= 256 && Fills(waves, x, caps) && TailEarns(x, problemSize, tail)
    ensures
      Score(x, problemSize, caps) ==
        100 * Min(8, waves) + (if TilePrefers(x, caps) then 1000 else 0)
        + (if x % Wanted(caps) == 0 then 250 else 0) + (if caps.specialization then 30 else 0) + tail
  {
    WavesMean(x, caps, waves);
    TailMeans(x, problemSize, tail);
    PreferenceMeans(x, caps);
    hide Occupancy, TailScore, PreferredX, TilePrefers, Fills, TailEarns;
  }

  // ----- main result -----

  /** The width chosen is legal on the device. Unless the declared one is kept, it was tried
      or started from, and no width tried or started from beats it. */
  ghost predicate IsChosen(declared: u32, problemSize: Option<u32>, caps: Caps, r: nat) {
    && Legal(r, caps)
    && (forall default | IsDefault(default, caps) ::
          if Kept(declared, problemSize, caps, default) then r == declared else IsBest(problemSize, caps, r))
  }

  ghost predicate IsBest(problemSize: Option<u32>, caps: Caps, r: nat)
    requires Legal(r, caps)
  {
    && (Tried(r, caps) || Starts(r, caps))
    && (forall x | Tried(x, caps) || Starts(x, caps) :: !Beats(x, r, problemSize, caps))
  }

  lemma SelectIsChosen(declared: u32, problemSize: Option<u32>, caps: Caps)
    ensures IsChosen(declared, problemSize, caps, Select(declared, problemSize, caps))
  {
    var r := Select(declared, problemSize, caps);
    SelectIsLegal(declared, problemSize, caps);
    forall default | IsDefault(default, caps)
      ensures if Kept(declared, problemSize, caps, default) then r == declared else IsBest(problemSize, caps, r)
    {
      KeptMeans(declared, problemSize, caps, default);
      if !Kept(declared, problemSize, caps, default) {
        SelectIsBest(declared, problemSize, caps);
      }
    }
  }

  lemma SelectIsBest(declared: u32, problemSize: Option<u32>, caps: Caps)
    requires !KeepsDeclared(declared, problemSize, caps)
    ensures Legal(Select(declared, problemSize, caps), caps)
    ensures IsBest(problemSize, caps, Select(declared, problemSize, caps))
  {
    var r := Select(declared, problemSize, caps);
    SelectIsLegal(declared, problemSize, caps);
    SelectsBest(declared, problemSize, caps);
    StartMeans(caps, r);
    TriedMeans(caps, r);
    hide Score, Beats, Select, KeepsDeclared, Tried, Starts, NormalizePowerOfTwo, FirstCandidate, LegalCeiling;
    forall x | Tried(x, caps) || Starts(x, caps)
      ensures 1 <= x <= 256 && !Beats(x, r, problemSize, caps)
    {
      StartMeans(caps, x);
      TriedMeans(caps, x);
    }
  }

  /** Only one width meets this. */
  lemma ChoiceIsUnique(declared: u32, problemSize: Option<u32>, caps: Caps, r: nat)
    requires IsChosen(declared, problemSize, caps, r)
    ensures r == Select(declared, problemSize, caps)
  {
    hide Score, Select, Tried, Starts, Kept, IsDefault;
    var default := HasDefault(caps);
    SelectIsChosen(declared, problemSize, caps);
  }

  /** Every device has a default width to compare with. */
  lemma HasDefault(caps: Caps) returns (default: nat)
    ensures IsDefault(default, caps)
  {
    default := Min(64, LegalCeiling(caps));
    DefaultMeans(caps, default);
  }

  method SelectWorkgroupX(declared: u32, problemSize: Option<u32>, caps: Caps) returns (r: u32)
    ensures r == Select(declared, problemSize, caps)
    ensures IsChosen(declared, problemSize, caps, r)
  {
    SelectIsChosen(declared, problemSize, caps);
    hide IsChosen, Score, PowerFloor, IsPowerOfTwo, PowerCeiling;
    var maxX: int := LegalCeiling(caps);
    if KeepsDeclared(declared, problemSize, caps) {
      return declared;
    }
    var best := NormalizePowerOfTwo(DEFAULT_WORKGROUP_X, Floor(caps), maxX);
    var bestScore := Score(best, problemSize, caps);
    var candidate := FirstCandidate(caps);
    while candidate <= maxX
      invariant 1 <= candidate && 1 <= best <= maxX
      invariant bestScore == Score(best, problemSize, caps)
      invariant Search(candidate, best, maxX, problemSize, caps) == Select(declared, problemSize, caps)
      decreases maxX - candidate
    {
      var score := Score(candidate, problemSize, caps);
      if score > bestScore || (score == bestScore && candidate > best) {
        best, bestScore := candidate, score;
      }
      candidate := 2 * candidate;
    }
    r := best;
  }
}
