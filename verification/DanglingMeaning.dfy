/** Preorder over the body tree, and the reports of the dangling check in it: each
    stands for a reference that escapes its scope, and each such reference has one. */
module DanglingMeaning {
  import opened Machine
  import opened KernelIr
  import opened Dangling

  // ----- preorder -----

  function Tail(s: Site): Site
    requires s.path != []
  {
    s.(path := s.path[1..])
  }

  /** Preorder: a body's own ops in order, then its children in order. */
  predicate Precedes(a: Site, b: Site)
    decreases |a.path|
  {
    if a.path == [] then
      b.path != [] || a.op < b.op || (a.op == b.op && a.slot < b.slot)
    else
      && b.path != []
      && (a.path[0] < b.path[0] || (a.path[0] == b.path[0] && Precedes(Tail(a), Tail(b))))
  }

  ghost predicate InPreorder(sites: seq<Site>) {
    forall j, k | 0 <= j < k < |sites| :: Precedes(sites[j], sites[k])
  }

  lemma {:induction false} NotBeforeItself(s: Site)
    ensures !Precedes(s, s)
    decreases |s.path|
  {
    if s.path != [] {
      NotBeforeItself(Tail(s));
    }
  }

  function Under(prefix: Path, s: Site): Site {
    s.(path := prefix + s.path)
  }

  lemma {:induction false} PrefixKeepsOrder(prefix: Path, a: Site, b: Site)
    ensures Precedes(Under(prefix, a), Under(prefix, b)) <==> Precedes(a, b)
    decreases |prefix|
  {
    if prefix == [] {
      assert prefix + a.path == a.path && prefix + b.path == b.path;
    } else {
      PrefixKeepsOrder(prefix[1..], a, b);
      assert Tail(Under(prefix, a)) == Under(prefix[1..], a) && Tail(Under(prefix, b)) == Under(prefix[1..], b);
    }
  }

  /** The site lies in this body itself / in its child `c`. */
  predicate InBody(prefix: Path, s: Site) {
    s.path == prefix
  }

  predicate InChild(prefix: Path, c: nat, s: Site) {
    prefix + [c] <= s.path
  }

  /** It lies in one of the first `n` children. */
  ghost predicate InFirstChildren(prefix: Path, n: nat, s: Site) {
    exists c: nat :: c < n && InChild(prefix, c, s)
  }

  lemma BodyBeforeChild(prefix: Path, c: nat, a: Site, b: Site)
    requires InBody(prefix, a) && InChild(prefix, c, b)
    ensures Precedes(a, b)
  {
    var a', b' := a.(path := []), b.(path := b.path[|prefix|..]);
    assert prefix + b'.path == b.path && prefix + a'.path == a.path;
    PrefixKeepsOrder(prefix, a', b');
    assert Under(prefix, a') == a && Under(prefix, b') == b;
  }

  lemma ChildBeforeChild(prefix: Path, c: nat, d: nat, a: Site, b: Site)
    requires c < d && InChild(prefix, c, a) && InChild(prefix, d, b)
    ensures Precedes(a, b)
  {
    var a', b' := a.(path := a.path[|prefix|..]), b.(path := b.path[|prefix|..]);
    assert a.path[|prefix|] == c && b.path[|prefix|] == d;
    assert prefix + a'.path == a.path && prefix + b'.path == b.path;
    PrefixKeepsOrder(prefix, a', b');
    assert Under(prefix, a') == a && Under(prefix, b') == b;
  }

  lemma OpsInOrder(prefix: Path, a: Site, b: Site)
    requires InBody(prefix, a) && InBody(prefix, b)
    requires a.op < b.op || (a.op == b.op && a.slot < b.slot)
    ensures Precedes(a, b)
  {
    PrefixKeepsOrder(prefix, a.(path := []), b.(path := []));
    assert prefix + [] == prefix;
    assert Under(prefix, a.(path := [])) == a && Under(prefix, b.(path := [])) == b;
  }

  // ----- the report list -----

  function SiteOf(r: DanglingRef): Site {
    Site(r.path, r.opIndex, r.operandPosition)
  }

  function SitesOf(refs: seq<DanglingRef>): (sites: seq<Site>)
    ensures |sites| == |refs|
    ensures forall j | 0 <= j < |refs| :: sites[j] == SiteOf(refs[j])
  {
    seq(|refs|, j requires 0 <= j < |refs| => SiteOf(refs[j]))
  }

  /** `r` is the report of a loose operand in the body at `rel` below `prefix`. */
  ghost predicate ReportAt(body: KernelBody, classify: Classifier, inherited: set<u32>, prefix: Path, origins: Origins,
                           rel: Path, r: DanglingRef)
  {
    && IsBodyPath(body, rel)
    && Loose(BodyAt(body, rel), classify, ScopeAt(body, classify, inherited, rel), r.opIndex, r.operandPosition)
    && r == ReportOf(BodyAt(body, rel), prefix + rel, origins, r.opIndex, r.operandPosition)
  }

  lemma {:induction false} OpReportsExact(body: KernelBody, classify: Classifier, inherited: set<u32>, path: Path,
                                          origins: Origins, i: nat, pos: nat)
    requires i < |body.ops| && pos <= |body.ops[i].operands|
    ensures
      var reports := OpReports(body, classify, inherited, path, origins, i, pos);
      && (forall j | 0 <= j < |reports| ::
            && reports[j].operandPosition < pos && reports[j].opIndex == i
            && Loose(body, classify, inherited, i, reports[j].operandPosition)
            && reports[j] == ReportOf(body, path, origins, i, reports[j].operandPosition))
      && (forall p | 0 <= p < pos && Loose(body, classify, inherited, i, p) ::
            ReportOf(body, path, origins, i, p) in reports)
      && InPreorder(SitesOf(reports))
  {
    hide Loose, Precedes, InPreorder;
    if pos == 0 {
      assert InPreorder([]) by { NothingInPreorder(); }
    } else {
      OpReportsExact(body, classify, inherited, path, origins, i, pos - 1);
      var before := OpReports(body, classify, inherited, path, origins, i, pos - 1);
      var last :=
        if Loose(body, classify, inherited, i, pos - 1) then [ReportOf(body, path, origins, i, pos - 1)] else [];
      assert OpReports(body, classify, inherited, path, origins, i, pos) == before + last;
      forall j, k | 0 <= j < |before| && 0 <= k < |last|
        ensures Precedes(SiteOf(before[j]), SiteOf(last[k]))
      {
        OpsInOrder(path, SiteOf(before[j]), SiteOf(last[k]));
      }
      JoinInPreorder(before, last);
    }
  }

  lemma {:induction false} OwnReportsExact(body: KernelBody, classify: Classifier, inherited: set<u32>, path: Path,
                                           origins: Origins, n: nat)
    requires n <= |body.ops|
    ensures
      var reports := OwnReports(body, classify, inherited, path, origins, n);
      && (forall j | 0 <= j < |reports| ::
            && reports[j].opIndex < n
            && Loose(body, classify, inherited, reports[j].opIndex, reports[j].operandPosition)
            && reports[j] == ReportOf(body, path, origins, reports[j].opIndex, reports[j].operandPosition))
      && (forall i, p | 0 <= i < n && 0 <= p < |body.ops[i].operands| && Loose(body, classify, inherited, i, p) ::
            ReportOf(body, path, origins, i, p) in reports)
      && InPreorder(SitesOf(reports))
  {
    hide Loose, OpReports;
    if n > 0 {
      var before := OwnReports(body, classify, inherited, path, origins, n - 1);
      var last := OpReports(body, classify, inherited, path, origins, n - 1, |body.ops[n - 1].operands|);
      OwnReportsExact(body, classify, inherited, path, origins, n - 1);
      OpReportsExact(body, classify, inherited, path, origins, n - 1, |body.ops[n - 1].operands|);
      forall j, k | 0 <= j < |before| && 0 <= k < |last|
        ensures Precedes(SiteOf(before[j]), SiteOf(last[k]))
      {
        OpsInOrder(path, SiteOf(before[j]), SiteOf(last[k]));
      }
      JoinInPreorder(before, last);
    }
  }

  lemma NothingInPreorder()
    ensures InPreorder([])
  {
  }

  lemma JoinInPreorder(a: seq<DanglingRef>, b: seq<DanglingRef>)
    requires InPreorder(SitesOf(a)) && InPreorder(SitesOf(b))
    requires forall j, k | 0 <= j < |a| && 0 <= k < |b| :: Precedes(SiteOf(a[j]), SiteOf(b[k]))
    ensures InPreorder(SitesOf(a + b))
  {
  }

  /** Descending one step: what is reported below child `c` under the longer prefix
      is reported below the body. */
  lemma ReportBelow(body: KernelBody, classify: Classifier, inherited: set<u32>, prefix: Path, origins: Origins,
                    c: nat, rel: Path, r: DanglingRef)
    requires c < |body.children|
    ensures ReportAt(body, classify, inherited, prefix, origins, [c] + rel, r) <==>
            ReportAt(body.children[c], classify, ChildScope(body, classify, inherited, c, |body.ops|), prefix + [c],
                     origins, rel, r)
  {
    assert ([c] + rel)[1..] == rel;
    assert prefix + [c] + rel == prefix + ([c] + rel);
  }

  lemma {:induction false} ChildReportsHold(body: KernelBody, classify: Classifier, inherited: set<u32>, prefix: Path,
                                            origins: Origins, n: nat, r: DanglingRef)
    requires n <= |body.children|
    ensures r in ChildReports(body, classify, inherited, prefix, origins, n) <==>
              exists c: nat :: c < n && InChildReports(body, classify, inherited, prefix, origins, c, r)
  {
    hide Reports;
    if n > 0 {
      ChildReportsHold(body, classify, inherited, prefix, origins, n - 1, r);
      assert InChildReports(body, classify, inherited, prefix, origins, n - 1, r) <==>
             r in Reports(body.children[n - 1], classify, ChildScope(body, classify, inherited, n - 1, |body.ops|),
                          prefix + [n - 1], origins);
    }
  }

  predicate InChildReports(body: KernelBody, classify: Classifier, inherited: set<u32>, prefix: Path, origins: Origins,
                           c: nat, r: DanglingRef)
  {
    && c < |body.children|
    && r in Reports(body.children[c], classify, ChildScope(body, classify, inherited, c, |body.ops|), prefix + [c],
                    origins)
  }

  lemma {:induction false} ReportIsLoose(body: KernelBody, classify: Classifier, inherited: set<u32>, prefix: Path,
                                         origins: Origins, r: DanglingRef) returns (rel: Path)
    requires r in Reports(body, classify, inherited, prefix, origins)
    ensures ReportAt(body, classify, inherited, prefix, origins, rel, r)
    decreases body
  {
    hide Loose, OwnReports, ChildReports, ChildScope;
    if r in OwnReports(body, classify, inherited, prefix, origins, |body.ops|) {
      OwnReportsExact(body, classify, inherited, prefix, origins, |body.ops|);
      rel := [];
      assert prefix + [] == prefix;
    } else {
      ChildReportsHold(body, classify, inherited, prefix, origins, |body.children|, r);
      var c: nat :| c < |body.children| && InChildReports(body, classify, inherited, prefix, origins, c, r);
      var below := ReportIsLoose(body.children[c], classify, ChildScope(body, classify, inherited, c, |body.ops|),
                                 prefix + [c], origins, r);
      rel := [c] + below;
      ReportBelow(body, classify, inherited, prefix, origins, c, below, r);
    }
  }

  lemma {:induction false} LooseIsReported(body: KernelBody, classify: Classifier, inherited: set<u32>, prefix: Path,
                                           origins: Origins, rel: Path, r: DanglingRef)
    requires ReportAt(body, classify, inherited, prefix, origins, rel, r)
    ensures r in Reports(body, classify, inherited, prefix, origins)
    decreases |rel|
  {
    if rel == [] {
      assert prefix + [] == prefix;
      OwnReportsExact(body, classify, inherited, prefix, origins, |body.ops|);
    } else {
      var c, below := rel[0], rel[1..];
      assert rel == [c] + below;
      ReportBelow(body, classify, inherited, prefix, origins, c, below, r);
      LooseIsReported(body.children[c], classify, ChildScope(body, classify, inherited, c, |body.ops|),
                      prefix + [c], origins, below, r);
      assert InChildReports(body, classify, inherited, prefix, origins, c, r);
      ChildReportsHold(body, classify, inherited, prefix, origins, |body.children|, r);
    }
  }

  lemma {:induction false} ReportsInPreorder(body: KernelBody, classify: Classifier, inherited: set<u32>,
                                             prefix: Path, origins: Origins)
    ensures
      var reports := Reports(body, classify, inherited, prefix, origins);
      InPreorder(SitesOf(reports)) && forall j | 0 <= j < |reports| :: prefix <= reports[j].path
    decreases body, |body.children| + 1
  {
    hide OwnReports, ChildReports;
    var own := OwnReports(body, classify, inherited, prefix, origins, |body.ops|);
    var below := ChildReports(body, classify, inherited, prefix, origins, |body.children|);
    OwnReportsExact(body, classify, inherited, prefix, origins, |body.ops|);
    ChildReportsInPreorder(body, classify, inherited, prefix, origins, |body.children|);
    forall j, k | 0 <= j < |own| && 0 <= k < |below|
      ensures Precedes(SiteOf(own[j]), SiteOf(below[k]))
    {
      assert InFirstChildren(prefix, |body.children|, SiteOf(below[k]));
      var c: nat :| c < |body.children| && InChild(prefix, c, SiteOf(below[k]));
      BodyBeforeChild(prefix, c, SiteOf(own[j]), SiteOf(below[k]));
    }
    JoinInPreorder(own, below);
    forall k | 0 <= k < |below|
      ensures prefix <= below[k].path
    {
      assert InFirstChildren(prefix, |body.children|, SiteOf(below[k]));
      var c: nat :| c < |body.children| && InChild(prefix, c, SiteOf(below[k]));
    }
  }

  lemma {:induction false} ChildReportsInPreorder(body: KernelBody, classify: Classifier, inherited: set<u32>,
                                                  prefix: Path, origins: Origins, n: nat)
    requires n <= |body.children|
    ensures
      var reports := ChildReports(body, classify, inherited, prefix, origins, n);
      && InPreorder(SitesOf(reports))
      && (forall j | 0 <= j < |reports| :: InFirstChildren(prefix, n, SiteOf(reports[j])))
    decreases body, n
  {
    hide Reports, ChildScope;
    if n > 0 {
      var before := ChildReports(body, classify, inherited, prefix, origins, n - 1);
      var scope := ChildScope(body, classify, inherited, n - 1, |body.ops|);
      var last := Reports(body.children[n - 1], classify, scope, prefix + [n - 1], origins);
      ChildReportsInPreorder(body, classify, inherited, prefix, origins, n - 1);
      ReportsInPreorder(body.children[n - 1], classify, scope, prefix + [n - 1], origins);
      forall j, k | 0 <= j < |before| && 0 <= k < |last|
        ensures Precedes(SiteOf(before[j]), SiteOf(last[k]))
      {
        assert InFirstChildren(prefix, n - 1, SiteOf(before[j]));
        var c: nat :| c < n - 1 && InChild(prefix, c, SiteOf(before[j]));
        ChildBeforeChild(prefix, c, n - 1, SiteOf(before[j]), SiteOf(last[k]));
      }
      JoinInPreorder(before, last);
      var reports := ChildReports(body, classify, inherited, prefix, origins, n);
      assert reports == before + last;
      forall j | 0 <= j < |reports|
        ensures InFirstChildren(prefix, n, SiteOf(reports[j]))
      {
        if j < |before| {
          assert InFirstChildren(prefix, n - 1, SiteOf(before[j]));
          var c: nat :| c < n - 1 && InChild(prefix, c, SiteOf(before[j]));
          assert InChild(prefix, c, SiteOf(reports[j]));
        } else {
          assert reports[j] == last[j - |before|];
          assert InChild(prefix, n - 1, SiteOf(reports[j]));
        }
      }
    }
  }
}
