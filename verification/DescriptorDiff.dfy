/** What changed between two kernel descriptors. */
module DescriptorDiff {
  import opened Machine
  import opened Ordering
  import opened Sequences
  import opened KernelIr
  import opened PathSums

  datatype Descriptor = Descriptor(slots: seq<u32>, body: KernelBody)

  /** The variant of an op kind, without its payload. */
  type Variant = OpKind -> nat

  datatype Diff = Diff(dropped: seq<u32>, added: seq<u32>, opCountDelta: map<Path, int>, rootShapeChanged: bool)

  function SlotSet(d: Descriptor): set<u32> {
    set s | s in d.slots
  }

  /** Ops of the body at a path; zero where there is no body. */
  function CountAt(body: KernelBody, path: Path): nat {
    if IsBodyPath(body, path) then |BodyAt(body, path).ops| else 0
  }

  /** The recorded change at a path; zero where nothing is recorded. */
  function DeltaAt(diff: Diff, path: Path): int {
    if path in diff.opCountDelta then diff.opCountDelta[path] else 0
  }

  function TotalOps(body: KernelBody): nat
    decreases body, |body.children| + 1
  {
    |body.ops| + ChildOps(body, |body.children|)
  }

  function ChildOps(body: KernelBody, n: nat): nat
    requires n <= |body.children|
    decreases body, n
  {
    if n == 0 then 0 else ChildOps(body, n - 1) + TotalOps(body.children[n - 1])
  }

  // ----- counting -----

  /** `path` leads into the tree hung below `prefix`. */
  predicate Below(body: KernelBody, prefix: Path, path: Path) {
    prefix <= path && IsBodyPath(body, path[|prefix|..])
  }

  /** It leads into one of the first `n` children. */
  predicate BelowFirst(body: KernelBody, prefix: Path, n: nat, path: Path)
    requires n <= |body.children|
  {
    && prefix <= path && |prefix| < |path| && path[|prefix|] < n
    && Below(body.children[path[|prefix|]], prefix + [path[|prefix|]], path)
  }

  lemma BelowSplits(body: KernelBody, prefix: Path, path: Path)
    ensures Below(body, prefix, path) <==> path == prefix || BelowFirst(body, prefix, |body.children|, path)
    ensures BelowFirst(body, prefix, |body.children|, path) ==>
              CountAt(body, path[|prefix|..]) == CountAt(body.children[path[|prefix|]], path[|prefix| + 1..])
    ensures path == prefix ==> path[|prefix|..] == []
  {
  }

  class Counter {
    var counts: map<Path, nat>

    constructor ()
      ensures counts == map[]
    {
      counts := map[];
    }

    /** Record the op count of every body of the tree, keeping everything else. */
    method WalkCounts(body: KernelBody, path: Path)
      modifies this
      ensures forall p :: p in counts <==> p in old(counts) || Below(body, path, p)
      ensures forall p | p in counts ::
                counts[p] == if Below(body, path, p) then CountAt(body, p[|path|..]) else old(counts)[p]
      decreases body
    {
      hide IsBodyPath, CountAt;
      counts := counts[path := |body.ops|];
      for i := 0 to |body.children|
        invariant forall p :: p in counts <==> p in old(counts) || p == path || BelowFirst(body, path, i, p)
        invariant forall p | p in counts ::
                    counts[p] == if p == path then |body.ops|
                                 else if BelowFirst(body, path, i, p) then
                                   CountAt(body.children[p[|path|]], p[|path| + 1..])
                                 else old(counts)[p]
      {
        var below := path + [i];
        WalkCounts(body.children[i], below);
        forall p
          ensures BelowFirst(body, path, i + 1, p) <==>
                    BelowFirst(body, path, i, p) || Below(body.children[i], below, p)
          ensures Below(body.children[i], below, p) ==> !BelowFirst(body, path, i, p) && p != path && p[|path|] == i
        {
          ChildPathsApart(body, path, i, p);
        }
      }
      forall p
        ensures Below(body, path, p) <==> p == path || BelowFirst(body, path, |body.children|, p)
        ensures BelowFirst(body, path, |body.children|, p) ==>
                  CountAt(body, p[|path|..]) == CountAt(body.children[p[|path|]], p[|path| + 1..])
        ensures p == path ==> CountAt(body, p[|path|..]) == |body.ops|
      {
        BelowSplits(body, path, p);
        OwnCount(body);
      }
    }
  }

  lemma OwnCount(body: KernelBody)
    ensures IsBodyPath(body, []) && CountAt(body, []) == |body.ops|
  {
  }

  lemma ChildPathsApart(body: KernelBody, path: Path, i: nat, p: Path)
    requires i < |body.children|
    ensures BelowFirst(body, path, i + 1, p) <==> BelowFirst(body, path, i, p) || Below(body.children[i], path + [i], p)
    ensures Below(body.children[i], path + [i], p) ==> !BelowFirst(body, path, i, p) && p != path && p[|path|] == i
  {
  }

  method Counts(body: KernelBody) returns (counts: map<Path, nat>)
    ensures forall p :: p in counts <==> IsBodyPath(body, p)
    ensures forall p | p in counts :: counts[p] == CountAt(body, p)
  {
    hide IsBodyPath, CountAt;
    var counter := new Counter();
    counter.WalkCounts(body, []);
    counts := counter.counts;
    forall p: Path
      ensures p[0..] == p
    {
    }
  }

  // ----- the diff -----

  ghost predicate StrictlyAscending(s: seq<u32>) {
    forall i, j | 0 <= i < j < |s| :: s[i] < s[j]
  }

  ghost predicate Lists(s: seq<u32>, slots: set<u32>) {
    StrictlyAscending(s) && forall x :: x in s <==> x in slots
  }

  predicate SameRootShape(variant: Variant, before: KernelBody, after: KernelBody) {
    && |before.ops| == |after.ops|
    && forall i | 0 <= i < |before.ops| :: variant(before.ops[i].kind) == variant(after.ops[i].kind)
  }

  /** A change is recorded where the count differs, and at every new body. */
  predicate Recorded(before: KernelBody, after: KernelBody, path: Path) {
    || (IsBodyPath(before, path) && CountAt(before, path) != CountAt(after, path))
    || (IsBodyPath(after, path) && !IsBodyPath(before, path))
  }

  ghost predicate IsDiff(variant: Variant, before: Descriptor, after: Descriptor, diff: Diff) {
    && Lists(diff.dropped, SlotSet(before) - SlotSet(after))
    && Lists(diff.added, SlotSet(after) - SlotSet(before))
    && (forall p :: p in diff.opCountDelta <==> Recorded(before.body, after.body, p))
    && (forall p :: DeltaAt(diff, p) == CountAt(after.body, p) - CountAt(before.body, p))
    && (diff.rootShapeChanged <==> !SameRootShape(variant, before.body, after.body))
  }

  method SortedSlots(slots: set<u32>) returns (sorted: seq<u32>)
    ensures Lists(sorted, slots)
  {
    var leq := (a: u32, b: u32) => a <= b;
    var left := slots;
    sorted := [];
    while left != {}
      invariant left <= slots
      invariant forall x :: x in sorted <==> x in slots - left
      invariant StrictlyAscending(sorted)
      decreases |left|
    {
      var x: u32 :| x in left;
      ghost var before := sorted;
      sorted := InsertAscending(leq, sorted, x);
      InsertedOnce(before, x, sorted);
      left := left - {x};
    }
  }

  lemma InsertedOnce(before: seq<u32>, x: u32, after: seq<u32>)
    requires StrictlyAscending(before) && x !in before
    requires Ascending((a: u32, b: u32) => a <= b, after)
    requires multiset(after) == multiset(before) + multiset{x}
    ensures StrictlyAscending(after)
    ensures forall y :: y in after <==> y in before || y == x
  {
    forall y
      ensures y in after <==> y in before || y == x
    {
      assert y in multiset(after) <==> y in multiset(before) || y == x;
    }
    forall i, j | 0 <= i < j < |after|
      ensures after[i] < after[j]
    {
      if after[i] == after[j] {
        RepeatsCount(after, i, j);
        DistinctCountsOnce(before, after[i]);
      }
    }
  }

  method OpCountDelta(before: KernelBody, after: KernelBody) returns (delta: map<Path, int>)
    ensures forall p :: p in delta <==> Recorded(before, after, p)
    ensures forall p | p in delta :: delta[p] == CountAt(after, p) - CountAt(before, p)
  {
    hide IsBodyPath;
    var beforeCounts := Counts(before);
    var afterCounts := Counts(after);
    delta := map[];
    var left := beforeCounts.Keys;
    while left != {}
      invariant left <= beforeCounts.Keys
      invariant forall p :: p in delta <==> p in beforeCounts && p !in left && CountAt(before, p) != CountAt(after, p)
      invariant forall p | p in delta :: delta[p] == CountAt(after, p) - CountAt(before, p)
      decreases |left|
    {
      var path :| path in left;
      var afterCount: int := if path in afterCounts then afterCounts[path] else 0;
      if beforeCounts[path] != afterCount {
        delta := delta[path := afterCount - beforeCounts[path]];
      }
      left := left - {path};
    }
    left := afterCounts.Keys;
    while left != {}
      invariant left <= afterCounts.Keys
      invariant forall p :: p in delta <==>
                  || (p in beforeCounts && CountAt(before, p) != CountAt(after, p))
                  || (p in afterCounts && p !in beforeCounts && p !in left)
      invariant forall p | p in delta :: delta[p] == CountAt(after, p) - CountAt(before, p)
      decreases |left|
    {
      var path :| path in left;
      if path !in beforeCounts {
        delta := delta[path := afterCounts[path]];
      }
      left := left - {path};
    }
  }

  method DiffDescriptors(variant: Variant, before: Descriptor, after: Descriptor) returns (diff: Diff)
    ensures IsDiff(variant, before, after, diff)
  {
    hide IsBodyPath;
    var beforeSlots := SlotSet(before);
    var afterSlots := SlotSet(after);
    var dropped := SortedSlots(beforeSlots - afterSlots);
    var added := SortedSlots(afterSlots - beforeSlots);
    var delta := OpCountDelta(before.body, after.body);
    var changed := false;
    if |before.body.ops| != |after.body.ops| {
      changed := true;
    } else {
      var i := 0;
      while i < |before.body.ops|
        invariant 0 <= i <= |before.body.ops|
        invariant !changed
        invariant forall k | 0 <= k < i :: variant(before.body.ops[k].kind) == variant(after.body.ops[k].kind)
      {
        if variant(before.body.ops[i].kind) != variant(after.body.ops[i].kind) {
          changed := true;
          break;
        }
        i := i + 1;
      }
    }
    diff := Diff(dropped, added, delta, changed);
  }

  // ----- what a diff says -----

  /** Slots are conserved: taking the dropped ones away and adding the added ones
      turns one slot set into the other. */
  function Replay(slots: set<u32>, diff: Diff): set<u32> {
    slots - (set s | s in diff.dropped) + (set s | s in diff.added)
  }

  lemma SlotsAreConserved(variant: Variant, before: Descriptor, after: Descriptor, diff: Diff)
    requires IsDiff(variant, before, after, diff)
    ensures Replay(SlotSet(before), diff) == SlotSet(after)
  {
  }

  /** The slot sets agree, the second tree has no body the first lacks, no count
      differs and the root ops have the same variants. */
  ghost predicate Alike(variant: Variant, before: Descriptor, after: Descriptor) {
    && SlotSet(before) == SlotSet(after)
    && (forall p | IsBodyPath(after.body, p) :: IsBodyPath(before.body, p))
    && (forall p :: CountAt(before.body, p) == CountAt(after.body, p))
    && SameRootShape(variant, before.body, after.body)
  }

  lemma EmptyDiffMeans(variant: Variant, before: Descriptor, after: Descriptor, diff: Diff)
    requires IsDiff(variant, before, after, diff)
    ensures diff == Diff([], [], map[], false) <==> Alike(variant, before, after)
  {
    hide IsBodyPath;
    if Alike(variant, before, after) {
      NothingListed(diff.dropped);
      NothingListed(diff.added);
      assert forall p :: p !in diff.opCountDelta;
      assert diff.opCountDelta == map[];
    }
    if diff == Diff([], [], map[], false) {
      forall s
        ensures s in SlotSet(before) <==> s in SlotSet(after)
      {
        assert s !in diff.dropped && s !in diff.added;
      }
      forall p
        ensures IsBodyPath(after.body, p) ==> IsBodyPath(before.body, p)
        ensures CountAt(before.body, p) == CountAt(after.body, p)
      {
        assert p !in diff.opCountDelta;
      }
    }
  }

  lemma NothingListed(s: seq<u32>)
    ensures (forall x :: x !in s) ==> s == []
  {
    if s != [] {
      assert s[0] in s;
    }
  }

  lemma SelfDiffIsEmpty(variant: Variant, d: Descriptor, diff: Diff)
    requires IsDiff(variant, d, d, diff)
    ensures diff == Diff([], [], map[], false)
  {
    EmptyDiffMeans(variant, d, d, diff);
  }

  // ----- conservation of ops -----

  function PathsOf(body: KernelBody, prefix: Path): set<Path>
    decreases body, |body.children| + 1
  {
    {prefix} + ChildPaths(body, prefix, |body.children|)
  }

  function ChildPaths(body: KernelBody, prefix: Path, n: nat): set<Path>
    requires n <= |body.children|
    decreases body, n
  {
    if n == 0 then {} else ChildPaths(body, prefix, n - 1) + PathsOf(body.children[n - 1], prefix + [n - 1])
  }

  lemma {:induction false} PathsOfMeans(body: KernelBody, prefix: Path, p: Path)
    ensures p in PathsOf(body, prefix) <==> Below(body, prefix, p)
    decreases body, |body.children| + 1
  {
    hide IsBodyPath;
    ChildPathsMeans(body, prefix, |body.children|, p);
    BelowSplits(body, prefix, p);
  }

  lemma {:induction false} ChildPathsMeans(body: KernelBody, prefix: Path, n: nat, p: Path)
    requires n <= |body.children|
    ensures p in ChildPaths(body, prefix, n) <==> BelowFirst(body, prefix, n, p)
    decreases body, n
  {
    hide IsBodyPath, PathsOf;
    if n > 0 {
      ChildPathsMeans(body, prefix, n - 1, p);
      PathsOfMeans(body.children[n - 1], prefix + [n - 1], p);
      ChildPathsApart(body, prefix, n - 1, p);
    }
  }

  /** Summing the counts of all bodies gives the ops of the tree. */
  lemma {:induction false} CountsSum(body: KernelBody, prefix: Path, f: Path -> int)
    requires forall p | Below(body, prefix, p) :: f(p) == CountAt(body, p[|prefix|..])
    ensures Sum(PathsOf(body, prefix), f) == TotalOps(body)
    decreases body, |body.children| + 1
  {
    hide IsBodyPath, CountAt;
    var below := ChildPaths(body, prefix, |body.children|);
    ChildPathsMeans(body, prefix, |body.children|, prefix);
    forall p | BelowFirst(body, prefix, |body.children|, p)
      ensures f(p) == CountAt(body.children[p[|prefix|]], p[|prefix| + 1..])
    {
      BelowSplits(body, prefix, p);
    }
    ChildCountsSum(body, prefix, |body.children|, f);
    SumDisjoint({prefix}, below, f);
    SumTakes({prefix}, f, prefix);
    assert {prefix} - {prefix} == {};
    BelowSplits(body, prefix, prefix);
    OwnCount(body);
  }

  lemma {:induction false} ChildCountsSum(body: KernelBody, prefix: Path, n: nat, f: Path -> int)
    requires n <= |body.children|
    requires forall p | BelowFirst(body, prefix, n, p) :: f(p) == CountAt(body.children[p[|prefix|]], p[|prefix| + 1..])
    ensures Sum(ChildPaths(body, prefix, n), f) == ChildOps(body, n)
    decreases body, n
  {
    hide IsBodyPath, CountAt, PathsOf, TotalOps;
    if n > 0 {
      var child, below := body.children[n - 1], prefix + [n - 1];
      forall p
        ensures BelowFirst(body, prefix, n - 1, p) ==> BelowFirst(body, prefix, n, p)
        ensures Below(child, below, p) ==> f(p) == CountAt(child, p[|below|..])
        ensures !(p in ChildPaths(body, prefix, n - 1) && p in PathsOf(child, below))
      {
        ChildPathsApart(body, prefix, n - 1, p);
        ChildPathsMeans(body, prefix, n - 1, p);
        PathsOfMeans(child, below, p);
      }
      ChildCountsSum(body, prefix, n - 1, f);
      CountsSum(child, below, f);
      SumDisjoint(ChildPaths(body, prefix, n - 1), PathsOf(child, below), f);
    }
  }

  /** The recorded changes add up to the change in the number of ops of the whole tree. */
  lemma DeltasSumToTotal(variant: Variant, before: Descriptor, after: Descriptor, diff: Diff)
    requires IsDiff(variant, before, after, diff)
    ensures Sum(diff.opCountDelta.Keys, p => DeltaAt(diff, p)) == TotalOps(after.body) - TotalOps(before.body)
  {
    hide IsBodyPath, CountAt, PathsOf, TotalOps;
    var delta := p => DeltaAt(diff, p);
    var was := p => CountAt(before.body, p);
    var now := p => CountAt(after.body, p);
    var old', new' := PathsOf(before.body, []), PathsOf(after.body, []);
    forall p: Path
      ensures p in old' <==> IsBodyPath(before.body, p)
      ensures p in new' <==> IsBodyPath(after.body, p)
      ensures Below(before.body, [], p) ==> was(p) == CountAt(before.body, p[0..])
      ensures Below(after.body, [], p) ==> now(p) == CountAt(after.body, p[0..])
    {
      assert p[0..] == p;
      PathsOfMeans(before.body, [], p);
      PathsOfMeans(after.body, [], p);
    }
    CountsSum(before.body, [], was);
    CountsSum(after.body, [], now);
    assert forall p | p !in old' :: was(p) == 0 by { CountElsewhere(before.body); }
    assert forall p | p !in new' :: now(p) == 0 by { CountElsewhere(after.body); }
    SumIgnoresZeros(old', old' + new', was);
    SumIgnoresZeros(new', old' + new', now);
    SumDifference(old' + new', now, was, delta);
    SumIgnoresZeros(diff.opCountDelta.Keys, old' + new', delta);
  }

  lemma CountElsewhere(body: KernelBody)
    ensures forall p | !IsBodyPath(body, p) :: CountAt(body, p) == 0
  {
  }
}
