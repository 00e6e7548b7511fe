/** Where dangling ids come from: the origin table built before the check, and the
    whole check with it. */
module DanglingOrigins {
  import opened Machine
  import opened KernelIr
  import opened Dangling
  import opened DanglingMeaning
  import opened DanglingScope

  /** One result id of one op, with where it stands. */
  datatype Producer = Producer(site: Site, id: u32, kind: string)

  function OpProducers(body: KernelBody, path: Path, i: nat, n: nat): seq<Producer>
    requires i < |body.ops| && n <= |ResultIds(body.ops[i])|
  {
    if n == 0 then [] else
      OpProducers(body, path, i, n - 1)
      + [Producer(Site(path, i, n - 1), ResultIds(body.ops[i])[n - 1], body.ops[i].kind.text)]
  }

  function OwnProducers(body: KernelBody, path: Path, n: nat): seq<Producer>
    requires n <= |body.ops|
  {
    if n == 0 then [] else
      OwnProducers(body, path, n - 1) + OpProducers(body, path, n - 1, |ResultIds(body.ops[n - 1])|)
  }

  /** Every producer of a body tree in preorder. */
  function Producers(body: KernelBody, path: Path): seq<Producer>
    decreases body, |body.children| + 1
  {
    OwnProducers(body, path, |body.ops|) + ChildProducers(body, path, |body.children|)
  }

  function ChildProducers(body: KernelBody, path: Path, n: nat): seq<Producer>
    requires n <= |body.children|
    decreases body, n
  {
    if n == 0 then [] else ChildProducers(body, path, n - 1) + Producers(body.children[n - 1], path + [n - 1])
  }

  /** Enter the producers into the table; a later one replaces an earlier one. */
  function Enter(origins: Origins, producers: seq<Producer>): Origins {
    if producers == [] then origins else
      var last := producers[|producers| - 1];
      Enter(origins, producers[..|producers| - 1])[last.id := Origin(last.site.path, last.site.op, last.kind)]
  }

  lemma {:induction false} EnterBoth(origins: Origins, a: seq<Producer>, b: seq<Producer>)
    ensures Enter(origins, a + b) == Enter(Enter(origins, a), b)
  {
    if b == [] {
      assert a + b == a;
    } else {
      assert (a + b)[..|a + b| - 1] == a + b[..|b| - 1];
      EnterBoth(origins, a, b[..|b| - 1]);
    }
  }

  /** The table holds the last producer of every id that has one. */
  lemma {:induction false} EnterMeans(producers: seq<Producer>, id: u32)
    ensures id !in Enter(map[], producers) ==> forall k | 0 <= k < |producers| :: producers[k].id != id
    ensures id in Enter(map[], producers) ==>
              exists k :: && 0 <= k < |producers| && producers[k].id == id
                          && Enter(map[], producers)[id] == Origin(producers[k].site.path, producers[k].site.op,
                                                                   producers[k].kind)
                          && (forall l | k < l < |producers| :: producers[l].id != id)
  {
    if producers != [] {
      var last := |producers| - 1;
      var before := producers[..last];
      EnterMeans(before, id);
      if producers[last].id == id {
        assert producers[last].id == id;
      } else if id in Enter(map[], producers) {
        var k :| && 0 <= k < |before| && before[k].id == id
                 && Enter(map[], before)[id] == Origin(before[k].site.path, before[k].site.op, before[k].kind)
                 && (forall l | k < l < |before| :: before[l].id != id);
        assert producers[k] == before[k];
        forall l | k < l < |producers|
          ensures producers[l].id != id
        {
          if l < last { assert producers[l] == before[l]; }
        }
      } else {
        forall k | 0 <= k < |producers|
          ensures producers[k].id != id
        {
          if k < last { assert producers[k] == before[k]; }
        }
      }
    }
  }

  class OriginBuilder {
    var path: Path
    var origins: Origins

    constructor ()
      ensures path == [] && origins == map[]
    {
      path, origins := [], map[];
    }

    method BuildIdOrigins(body: KernelBody)
      modifies this
      ensures path == old(path)
      ensures origins == Enter(old(origins), Producers(body, old(path)))
      decreases body
    {
      hide Enter, OwnProducers;
      EnterOwn(body);
      ghost var own := OwnProducers(body, path, |body.ops|);
      assert own + ChildProducers(body, path, 0) == own;
      for c := 0 to |body.children|
        invariant path == old(path)
        invariant origins == Enter(old(origins), own + ChildProducers(body, path, c))
      {
        path := path + [c];
        BuildIdOrigins(body.children[c]);
        path := path[..|path| - 1];
        ghost var child := Producers(body.children[c], path + [c]);
        EnterBoth(old(origins), own + ChildProducers(body, path, c), child);
        assert own + ChildProducers(body, path, c) + child == own + (ChildProducers(body, path, c) + child);
      }
    }

    /** Enter the ids of a body's own ops. */
    method EnterOwn(body: KernelBody)
      modifies this`origins
      ensures origins == Enter(old(origins), OwnProducers(body, path, |body.ops|))
    {
      hide ResultIds, Enter, OpProducers;
      assert Enter(origins, []) == origins by { EnterNothing(origins); }
      for i := 0 to |body.ops|
        invariant origins == Enter(old(origins), OwnProducers(body, path, i))
      {
        EnterOp(body, i);
        EnterBoth(old(origins), OwnProducers(body, path, i), OpProducers(body, path, i, |ResultIds(body.ops[i])|));
      }
    }

    method EnterOp(body: KernelBody, i: nat)
      requires i < |body.ops|
      modifies this`origins
      ensures origins == Enter(old(origins), OpProducers(body, path, i, |ResultIds(body.ops[i])|))
    {
      hide ResultIds;
      var ids := ResultIds(body.ops[i]);
      for n := 0 to |ids|
        invariant origins == Enter(old(origins), OpProducers(body, path, i, n))
      {
        origins := origins[ids[n] := Origin(path, i, body.ops[i].kind.text)];
        ghost var entered := OpProducers(body, path, i, n + 1);
        assert entered[..|entered| - 1] == OpProducers(body, path, i, n);
      }
    }
  }

  lemma EnterNothing(origins: Origins)
    ensures Enter(origins, []) == origins
  {
  }

  // ----- the producer list is the tree in preorder -----

  ghost predicate ProducerAt(body: KernelBody, prefix: Path, rel: Path, p: Producer) {
    && Produces(body, p.site.(path := rel), p.id)
    && p.site.path == prefix + rel
    && p.kind == BodyAt(body, rel).ops[p.site.op].kind.text
  }

  function ProducerSites(producers: seq<Producer>): (sites: seq<Site>)
    ensures |sites| == |producers|
    ensures forall j | 0 <= j < |producers| :: sites[j] == producers[j].site
  {
    seq(|producers|, j requires 0 <= j < |producers| => producers[j].site)
  }

  lemma JoinProducers(a: seq<Producer>, b: seq<Producer>)
    requires InPreorder(ProducerSites(a)) && InPreorder(ProducerSites(b))
    requires forall j, k | 0 <= j < |a| && 0 <= k < |b| :: Precedes(a[j].site, b[k].site)
    ensures InPreorder(ProducerSites(a + b))
  {
  }

  lemma {:induction false} OpProducersExact(body: KernelBody, path: Path, i: nat, n: nat)
    requires i < |body.ops| && n <= |ResultIds(body.ops[i])|
    ensures
      var ps := OpProducers(body, path, i, n);
      && |ps| == n
      && (forall j | 0 <= j < n ::
            ps[j] == Producer(Site(path, i, j), ResultIds(body.ops[i])[j], body.ops[i].kind.text))
      && InPreorder(ProducerSites(ps))
  {
    hide ResultIds;
    if n > 0 {
      OpProducersExact(body, path, i, n - 1);
      var ps := OpProducers(body, path, i, n);
      forall j, k | 0 <= j < k < n
        ensures Precedes(ps[j].site, ps[k].site)
      {
        OpsInOrder(path, ps[j].site, ps[k].site);
      }
    }
  }

  lemma {:induction false} OwnProducersExact(body: KernelBody, path: Path, n: nat)
    requires n <= |body.ops|
    ensures
      var ps := OwnProducers(body, path, n);
      && (forall j | 0 <= j < |ps| :: ps[j].site.op < n && ProducerAt(body, path, [], ps[j]))
      && (forall p: Producer | ProducerAt(body, path, [], p) && p.site.op < n :: p in ps)
      && InPreorder(ProducerSites(ps))
  {
    hide ResultIds, OpProducers;
    if n > 0 {
      var before := OwnProducers(body, path, n - 1);
      var count := |ResultIds(body.ops[n - 1])|;
      var last := OpProducers(body, path, n - 1, count);
      OwnProducersExact(body, path, n - 1);
      OpProducersExact(body, path, n - 1, count);
      forall j, k | 0 <= j < |before| && 0 <= k < |last|
        ensures Precedes(before[j].site, last[k].site)
      {
        assert ProducerAt(body, path, [], before[j]);
        OpsInOrder(path, before[j].site, last[k].site);
      }
      JoinProducers(before, last);
      assert path + [] == path;
      forall p: Producer | ProducerAt(body, path, [], p) && p.site.op == n - 1
        ensures p in last
      {
        assert p == last[p.site.slot];
      }
    }
  }

  lemma {:induction false} ProducersInPreorder(body: KernelBody, prefix: Path)
    ensures
      var ps := Producers(body, prefix);
      InPreorder(ProducerSites(ps)) && forall j | 0 <= j < |ps| :: prefix <= ps[j].site.path
    decreases body, |body.children| + 1
  {
    hide OwnProducers, ChildProducers;
    var own := OwnProducers(body, prefix, |body.ops|);
    var below := ChildProducers(body, prefix, |body.children|);
    OwnProducersExact(body, prefix, |body.ops|);
    ChildProducersInPreorder(body, prefix, |body.children|);
    assert prefix + [] == prefix;
    forall j, k | 0 <= j < |own| && 0 <= k < |below|
      ensures Precedes(own[j].site, below[k].site)
    {
      assert ProducerAt(body, prefix, [], own[j]);
      assert InFirstChildren(prefix, |body.children|, below[k].site);
      var c: nat :| c < |body.children| && InChild(prefix, c, below[k].site);
      BodyBeforeChild(prefix, c, own[j].site, below[k].site);
    }
    JoinProducers(own, below);
    forall k | 0 <= k < |below|
      ensures prefix <= below[k].site.path
    {
      assert InFirstChildren(prefix, |body.children|, below[k].site);
      var c: nat :| c < |body.children| && InChild(prefix, c, below[k].site);
    }
  }

  lemma {:induction false} ChildProducersInPreorder(body: KernelBody, prefix: Path, n: nat)
    requires n <= |body.children|
    ensures
      var ps := ChildProducers(body, prefix, n);
      && InPreorder(ProducerSites(ps))
      && (forall j | 0 <= j < |ps| :: InFirstChildren(prefix, n, ps[j].site))
    decreases body, n
  {
    hide Producers;
    if n > 0 {
      var before := ChildProducers(body, prefix, n - 1);
      var last := Producers(body.children[n - 1], prefix + [n - 1]);
      ChildProducersInPreorder(body, prefix, n - 1);
      ProducersInPreorder(body.children[n - 1], prefix + [n - 1]);
      forall j, k | 0 <= j < |before| && 0 <= k < |last|
        ensures Precedes(before[j].site, last[k].site)
      {
        assert InFirstChildren(prefix, n - 1, before[j].site);
        var c: nat :| c < n - 1 && InChild(prefix, c, before[j].site);
        ChildBeforeChild(prefix, c, n - 1, before[j].site, last[k].site);
      }
      JoinProducers(before, last);
      var ps := ChildProducers(body, prefix, n);
      assert ps == before + last;
      forall j | 0 <= j < |ps|
        ensures InFirstChildren(prefix, n, ps[j].site)
      {
        if j < |before| {
          assert InFirstChildren(prefix, n - 1, before[j].site);
          var c: nat :| c < n - 1 && InChild(prefix, c, before[j].site);
          assert InChild(prefix, c, ps[j].site);
        } else {
          assert ps[j] == last[j - |before|];
          assert InChild(prefix, n - 1, ps[j].site);
        }
      }
    }
  }

  lemma ProducerBelow(body: KernelBody, prefix: Path, c: nat, rel: Path, p: Producer)
    requires c < |body.children|
    ensures ProducerAt(body, prefix, [c] + rel, p) <==> ProducerAt(body.children[c], prefix + [c], rel, p)
  {
  }

  predicate InChildProducers(body: KernelBody, prefix: Path, c: nat, p: Producer) {
    c < |body.children| && p in Producers(body.children[c], prefix + [c])
  }

  lemma {:induction false} ChildProducersHold(body: KernelBody, prefix: Path, n: nat, p: Producer)
    requires n <= |body.children|
    ensures p in ChildProducers(body, prefix, n) <==> exists c: nat :: c < n && InChildProducers(body, prefix, c, p)
  {
    hide Producers;
    if n > 0 {
      ChildProducersHold(body, prefix, n - 1, p);
      assert InChildProducers(body, prefix, n - 1, p) <==> p in Producers(body.children[n - 1], prefix + [n - 1]);
    }
  }

  lemma {:induction false} ListedProducer(body: KernelBody, prefix: Path, p: Producer) returns (rel: Path)
    requires p in Producers(body, prefix)
    ensures ProducerAt(body, prefix, rel, p)
    decreases body
  {
    hide OwnProducers, ChildProducers, ResultIds;
    if p in OwnProducers(body, prefix, |body.ops|) {
      OwnProducersExact(body, prefix, |body.ops|);
      rel := [];
    } else {
      ChildProducersHold(body, prefix, |body.children|, p);
      var c: nat :| c < |body.children| && InChildProducers(body, prefix, c, p);
      var below := ListedProducer(body.children[c], prefix + [c], p);
      rel := [c] + below;
      ProducerBelow(body, prefix, c, below, p);
    }
  }

  lemma {:induction false} ProducerIsListed(body: KernelBody, prefix: Path, rel: Path, p: Producer)
    requires ProducerAt(body, prefix, rel, p)
    ensures p in Producers(body, prefix)
    decreases |rel|
  {
    hide OwnProducers, ChildProducers, ResultIds;
    if rel == [] {
      OwnProducersExact(body, prefix, |body.ops|);
    } else {
      var c, below := rel[0], rel[1..];
      assert rel == [c] + below;
      ProducerBelow(body, prefix, c, below, p);
      ProducerIsListed(body.children[c], prefix + [c], below, p);
      assert InChildProducers(body, prefix, c, p);
      ChildProducersHold(body, prefix, |body.children|, p);
    }
  }

  // ----- main results -----

  /** The origin is the preorder-last op that defines `id`. */
  ghost predicate LastProducer(root: KernelBody, id: u32, origin: Origin) {
    exists slot: nat :: LastProducerSlot(root, id, origin, Site(origin.path, origin.opIndex, slot))
  }

  ghost predicate LastProducerSlot(root: KernelBody, id: u32, origin: Origin, last: Site) {
    && last.path == origin.path && last.op == origin.opIndex
    && Produces(root, last, id)
    && origin.kind == BodyAt(root, origin.path).ops[origin.opIndex].kind.text
    && forall s | Produces(root, s, id) :: s == last || Precedes(s, last)
  }

  lemma ProducerFor(root: KernelBody, s: Site, id: u32) returns (k: nat)
    requires Produces(root, s, id)
    ensures k < |Producers(root, [])|
    ensures Producers(root, [])[k].id == id && Producers(root, [])[k].site == s
  {
    hide ResultIds, Producers;
    var p := Producer(s, id, BodyAt(root, s.path).ops[s.op].kind.text);
    assert s.(path := s.path) == s && [] + s.path == s.path;
    assert ProducerAt(root, [], s.path, p);
    ProducerIsListed(root, [], s.path, p);
    k :| 0 <= k < |Producers(root, [])| && Producers(root, [])[k] == p;
  }

  /** An id's origin is its last producer in preorder, and unknown exactly when no
      op of the tree produces it. */
  lemma OriginIsLastProducer(root: KernelBody, id: u32)
    ensures
      var origins := Enter(map[], Producers(root, []));
      && (ProducedIn(root, id) <==> id in origins)
      && (ProducedIn(root, id) ==> LastProducer(root, id, OriginOf(origins, id)))
      && (!ProducedIn(root, id) ==> OriginOf(origins, id) == Unknown)
  {
    hide ResultIds, Producers;
    var ps := Producers(root, []);
    var origins := Enter(map[], ps);
    EnterMeans(ps, id);
    if id in origins {
      var k :| && 0 <= k < |ps| && ps[k].id == id
               && origins[id] == Origin(ps[k].site.path, ps[k].site.op, ps[k].kind)
               && (forall l | k < l < |ps| :: ps[l].id != id);
      LastListedIsLast(root, id, k);
      assert LastProducerSlot(root, id, origins[id], Site(origins[id].path, origins[id].opIndex, ps[k].site.slot));
    } else if s :| Produces(root, s, id) {
      var k := ProducerFor(root, s, id);
    }
  }

  lemma LastListedIsLast(root: KernelBody, id: u32, k: nat)
    requires k < |Producers(root, [])| && Producers(root, [])[k].id == id
    requires forall l | k < l < |Producers(root, [])| :: Producers(root, [])[l].id != id
    ensures
      var p := Producers(root, [])[k];
      LastProducerSlot(root, id, Origin(p.site.path, p.site.op, p.kind), p.site)
  {
    hide ResultIds, Producers;
    var ps := Producers(root, []);
    var rel := ListedProducer(root, [], ps[k]);
    assert [] + rel == rel;
    assert ps[k].site.(path := rel) == ps[k].site;
    ProducersInPreorder(root, []);
    forall s | Produces(root, s, id)
      ensures s == ps[k].site || Precedes(s, ps[k].site)
    {
      var l := ProducerFor(root, s, id);
      assert l <= k;
      if l < k { assert Precedes(ProducerSites(ps)[l], ProducerSites(ps)[k]); }
    }
  }

  /** The report names the operand it stands for, the op's kind, and where the id
      was last produced. */
  ghost predicate Describes(root: KernelBody, r: DanglingRef) {
    && IsBodyPath(root, r.path)
    && r.opIndex < |BodyAt(root, r.path).ops|
    && var op := BodyAt(root, r.path).ops[r.opIndex];
    && r.operandPosition < |op.operands|
    && r.refId == op.operands[r.operandPosition]
    && r.kind == op.kind.text
    && (ProducedIn(root, r.refId) ==> LastProducer(root, r.refId, r.origin))
    && (!ProducedIn(root, r.refId) ==> r.origin == Unknown)
  }

  /** The sites the reports stand at are exactly the dangling ones. */
  ghost predicate CoversDangling(root: KernelBody, classify: Classifier, refs: seq<DanglingRef>) {
    && (forall j | 0 <= j < |refs| :: DanglesAt(root, classify, SiteOf(refs[j])))
    && (forall s | DanglesAt(root, classify, s) :: exists j :: 0 <= j < |refs| && SiteOf(refs[j]) == s)
  }

  /** The whole check: every dangling site is reported, no other is, none twice. */
  method FindDanglingRefs(root: KernelBody, classify: Classifier) returns (refs: seq<DanglingRef>)
    ensures CoversDangling(root, classify, refs)
    ensures forall j, k | 0 <= j < k < |refs| ::
              SiteOf(refs[j]) != SiteOf(refs[k]) && Precedes(SiteOf(refs[j]), SiteOf(refs[k]))
    ensures forall j | 0 <= j < |refs| :: Describes(root, refs[j])
  {
    hide Enter, Producers, Reports, Describes, CoversDangling, Precedes;
    var builder := new OriginBuilder();
    builder.BuildIdOrigins(root);
    var checker := new Checker(builder.origins, classify);
    checker.CheckBody(root, {});
    refs := checker.refs;
    assert refs == Reports(root, classify, {}, [], Enter(map[], Producers(root, [])));
    ReportsDescribe(root, classify);
    ReportsCover(root, classify, builder.origins);
    ReportsOnce(root, classify, builder.origins);
  }

  lemma ReportsDescribe(root: KernelBody, classify: Classifier)
    ensures
      var refs := Reports(root, classify, {}, [], Enter(map[], Producers(root, [])));
      forall j | 0 <= j < |refs| :: Describes(root, refs[j])
  {
    hide Reports, ScopeAt, Produced, CompletedBefore, LastProducer, ProducedIn, Enter, Producers;
    var origins := Enter(map[], Producers(root, []));
    var refs := Reports(root, classify, {}, [], origins);
    forall j | 0 <= j < |refs|
      ensures Describes(root, refs[j])
    {
      var rel := ReportIsLoose(root, classify, {}, [], origins, refs[j]);
      assert [] + rel == rel;
      OriginIsLastProducer(root, refs[j].refId);
    }
  }

  lemma ReportsCover(root: KernelBody, classify: Classifier, origins: Origins)
    ensures CoversDangling(root, classify, Reports(root, classify, {}, [], origins))
  {
    hide Reports, Loose, ScopeAt, DanglesAt;
    var refs := Reports(root, classify, {}, [], origins);
    forall j | 0 <= j < |refs|
      ensures DanglesAt(root, classify, SiteOf(refs[j]))
    {
      var rel := ReportIsLoose(root, classify, {}, [], origins, refs[j]);
      assert [] + rel == rel;
      DanglesIsLoose(root, classify, SiteOf(refs[j]));
    }
    forall s | DanglesAt(root, classify, s)
      ensures exists j :: 0 <= j < |refs| && SiteOf(refs[j]) == s
    {
      var r := DanglingReport(root, classify, origins, s);
      var j :| 0 <= j < |refs| && refs[j] == r;
    }
  }

  lemma ReportsOnce(root: KernelBody, classify: Classifier, origins: Origins)
    ensures
      var refs := Reports(root, classify, {}, [], origins);
      forall j, k | 0 <= j < k < |refs| ::
        SiteOf(refs[j]) != SiteOf(refs[k]) && Precedes(SiteOf(refs[j]), SiteOf(refs[k]))
  {
    hide Reports, Precedes;
    var refs := Reports(root, classify, {}, [], origins);
    ReportsInPreorder(root, classify, {}, [], origins);
    forall j, k | 0 <= j < k < |refs|
      ensures SiteOf(refs[j]) != SiteOf(refs[k]) && Precedes(SiteOf(refs[j]), SiteOf(refs[k]))
    {
      assert Precedes(SitesOf(refs)[j], SitesOf(refs)[k]);
      NotBeforeItself(SiteOf(refs[j]));
    }
  }

  lemma DanglingReport(root: KernelBody, classify: Classifier, origins: Origins, s: Site) returns (r: DanglingRef)
    requires DanglesAt(root, classify, s)
    ensures r in Reports(root, classify, {}, [], origins) && SiteOf(r) == s
  {
    hide Reports, ScopeAt, DanglesAt;
    DanglesIsLoose(root, classify, s);
    r := ReportOf(BodyAt(root, s.path), s.path, origins, s.op, s.slot);
    assert [] + s.path == s.path;
    LooseIsReported(root, classify, {}, [], origins, s.path, r);
  }

  lemma {:induction false} BodyBelow(root: KernelBody, path: Path, c: nat)
    requires IsBodyPath(root, path)
    ensures IsBodyPath(root, path + [c]) <==> c < |BodyAt(root, path).children|
    decreases |path|
  {
    if path != [] {
      assert (path + [c])[1..] == path[1..] + [c];
      BodyBelow(root.children[path[0]], path[1..], c);
    }
  }

  /** The scope of a body in terms of its parent's: an id is inherited exactly when
      some op of the parent names the body and the id was visible before that op. */
  lemma {:induction false} ScopeFromParent(root: KernelBody, classify: Classifier, inherited: set<u32>, path: Path,
                                           c: nat, id: u32)
    requires IsBodyPath(root, path) && c < |BodyAt(root, path).children|
    ensures IsBodyPath(root, path + [c])
    ensures
      var parent := BodyAt(root, path);
      id in ScopeAt(root, classify, inherited, path + [c]) <==>
        exists i: nat, p: nat :: && i < |parent.ops| && p < |parent.ops[i].operands|
                                 && References(parent, classify, i, p, c)
                                 && id in VisibleBefore(parent, classify, ScopeAt(root, classify, inherited, path), i)
    decreases |path|
  {
    hide References, VisibleBefore, ChildScope;
    BodyBelow(root, path, c);
    if path == [] {
      assert path + [c] == [c] && [c][1..] == [];
      ChildScopeMeans(root, classify, inherited, c, |root.ops|, id);
    } else {
      assert (path + [c])[1..] == path[1..] + [c];
      ScopeFromParent(root.children[path[0]], classify, ChildScope(root, classify, inherited, path[0], |root.ops|),
                      path[1..], c, id);
    }
  }

  // ----- an empty report -----

  /** Everything visible anywhere is produced somewhere in the tree. */
  lemma VisibleIsProduced(body: KernelBody, classify: Classifier, inherited: set<u32>, i: nat, id: u32)
    requires i <= |body.ops| && id in VisibleBefore(body, classify, inherited, i) && id !in inherited
    ensures id in SubtreeResults(body)
  {
    ProducedGrows(body.ops, i);
    if id in CompletedBefore(body, classify, i) {
      CompletedBeforeMeans(body, classify, i, id);
      var j: nat, p: nat :| j < i && p < |body.ops[j].operands| && NamesChildOf(body, classify, j, p, id);
      ChildResultsMeans(body, |body.children|, id);
    }
  }

  lemma {:induction false} ScopeIsProduced(body: KernelBody, classify: Classifier, inherited: set<u32>, path: Path,
                                           id: u32)
    requires IsBodyPath(body, path) && id !in inherited
    requires || id in ScopeAt(body, classify, inherited, path)
             || id in SubtreeResults(BodyAt(body, path))
    ensures id in SubtreeResults(body)
    decreases |path|
  {
    hide SubtreeResults, ChildScope, VisibleBefore;
    if path != [] {
      var c := path[0];
      var scope := ChildScope(body, classify, inherited, c, |body.ops|);
      if id in scope {
        ChildScopeMeans(body, classify, inherited, c, |body.ops|, id);
        var i: nat, p: nat :| i < |body.ops| && p < |body.ops[i].operands| && References(body, classify, i, p, c)
                              && id in VisibleBefore(body, classify, inherited, i);
        VisibleIsProduced(body, classify, inherited, i, id);
      } else {
        ScopeIsProduced(body.children[c], classify, scope, path[1..], id);
        ChildResultsMeans(body, |body.children|, id);
        SubtreeHasChildren(body, id);
      }
    }
  }

  lemma SubtreeHasChildren(body: KernelBody, id: u32)
    ensures id in ChildResults(body, |body.children|) ==> id in SubtreeResults(body)
    ensures id in Produced(body) ==> id in SubtreeResults(body)
  {
  }

  /** When nothing dangles, every result reference in the tree names an id that
      some op of the tree produces. */
  lemma NothingDanglesMeansProduced(root: KernelBody, classify: Classifier, s: Site)
    requires forall t :: !DanglesAt(root, classify, t)
    requires IsBodyPath(root, s.path) && s.op < |BodyAt(root, s.path).ops|
    requires s.slot < |BodyAt(root, s.path).ops[s.op].operands|
    requires classify(BodyAt(root, s.path).ops[s.op].kind, s.slot) == ResultRef
    ensures ProducedIn(root, BodyAt(root, s.path).ops[s.op].operands[s.slot])
  {
    hide SubtreeResults, DanglesAt;
    var body := BodyAt(root, s.path);
    var id := body.ops[s.op].operands[s.slot];
    assert !DanglesAt(root, classify, s);
    DanglesIsLoose(root, classify, s);
    var scope := ScopeAt(root, classify, {}, s.path);
    if id !in scope {
      if id in Produced(body) {
        SubtreeHasChildren(body, id);
      } else {
        VisibleIsProduced(body, classify, {}, s.op, id);
      }
    }
    ScopeIsProduced(root, classify, {}, s.path, id);
    SubtreeResultsMeans(root, id);
  }
}
