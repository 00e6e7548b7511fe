/** Sums of a quantity over a finite set of tree paths. */
module PathSums {
  import opened KernelIr

  ghost function Sum(paths: set<Path>, f: Path -> int): int
    decreases |paths|
  {
    if paths == {} then 0 else
      var p :| p in paths;
      f(p) + Sum(paths - {p}, f)
  }

  /** Any member may be taken out first. */
  lemma {:induction false} SumTakes(paths: set<Path>, f: Path -> int, p: Path)
    requires p in paths
    ensures Sum(paths, f) == f(p) + Sum(paths - {p}, f)
    decreases |paths|
  {
    var q :| q in paths && Sum(paths, f) == f(q) + Sum(paths - {q}, f);
    if q != p {
      SumTakes(paths - {q}, f, p);
      SumTakes(paths - {p}, f, q);
      assert paths - {q} - {p} == paths - {p} - {q};
    }
  }

  /** Members that contribute nothing may be dropped. */
  lemma {:induction false} SumIgnoresZeros(some: set<Path>, all: set<Path>, f: Path -> int)
    requires some <= all
    requires forall p | p in all - some :: f(p) == 0
    ensures Sum(some, f) == Sum(all, f)
    decreases |all|
  {
    if p :| p in all && p !in some {
      SumTakes(all, f, p);
      SumIgnoresZeros(some, all - {p}, f);
    } else {
      assert all == some;
    }
  }

  lemma {:induction false} SumDifference(paths: set<Path>, f: Path -> int, g: Path -> int, h: Path -> int)
    requires forall p | p in paths :: h(p) == f(p) - g(p)
    ensures Sum(paths, h) == Sum(paths, f) - Sum(paths, g)
    decreases |paths|
  {
    if paths != {} {
      var p :| p in paths;
      SumTakes(paths, f, p);
      SumTakes(paths, g, p);
      SumTakes(paths, h, p);
      SumDifference(paths - {p}, f, g, h);
    }
  }

  lemma {:induction false} SumDisjoint(a: set<Path>, b: set<Path>, f: Path -> int)
    requires a !! b
    ensures Sum(a + b, f) == Sum(a, f) + Sum(b, f)
    decreases |a|
  {
    if a == {} {
      assert a + b == b;
    } else {
      var p :| p in a;
      SumTakes(a, f, p);
      SumTakes(a + b, f, p);
      assert a + b - {p} == (a - {p}) + b;
      SumDisjoint(a - {p}, b, f);
    }
  }
}
