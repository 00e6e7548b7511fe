/** Which ids are in scope in a body of the tree, from the ops along its path alone. */
module DanglingScope {
  import opened Machine
  import opened KernelIr
  import opened Dangling

  /** Op `i` names child `c`. */
  ghost predicate Names(body: KernelBody, classify: Classifier, i: nat, c: nat) {
    && i < |body.ops| && c < |body.children|
    && exists p: nat ::
         && p < |body.ops[i].operands| && body.ops[i].operands[p] == c
         && classify(body.ops[i].kind, p) == ChildBodyIdx
  }

  /** An op before op `i` defines `id`; a matrix op defines four consecutive ids. */
  ghost predicate DefinedBefore(body: KernelBody, i: nat, id: u32) {
    exists j: nat ::
      && j < i && j < |body.ops| && body.ops[j].result.Some?
      && var first := body.ops[j].result.value; first <= id < first + if body.ops[j].kind.MatrixMma? then 4 else 1
  }

  /** An op before op `i` names a child whose subtree produces `id`. */
  ghost predicate FinishedBefore(body: KernelBody, classify: Classifier, i: nat, id: u32) {
    exists j: nat, c: nat :: j < i && Names(body, classify, j, c) && ProducedIn(body.children[c], id)
  }

  ghost predicate Entered(body: KernelBody, classify: Classifier, c: nat) {
    exists i: nat :: Names(body, classify, i, c)
  }

  /** The body itself puts `id` in the scope of its child `c`. */
  ghost predicate Supplies(body: KernelBody, classify: Classifier, c: nat, id: u32) {
    exists i: nat ::
      Names(body, classify, i, c) && (DefinedBefore(body, i, id) || FinishedBefore(body, classify, i, id))
  }

  /** Step `m` of the path enters a child that some op names. */
  ghost predicate EntersAt(root: KernelBody, classify: Classifier, path: Path, m: nat) {
    && m < |path| && IsBodyPath(root, path[..m])
    && Entered(BodyAt(root, path[..m]), classify, path[m])
  }

  ghost predicate EntersFrom(root: KernelBody, classify: Classifier, path: Path, k: nat) {
    forall m: nat | k <= m < |path| :: EntersAt(root, classify, path, m)
  }

  /** The body at step `k` of the path supplies `id`, and every later step is entered by an op. */
  ghost predicate SuppliedAt(root: KernelBody, classify: Classifier, path: Path, k: nat, id: u32) {
    && k < |path| && IsBodyPath(root, path[..k])
    && Supplies(BodyAt(root, path[..k]), classify, path[k], id)
    && EntersFrom(root, classify, path, k + 1)
  }

  ghost predicate InScope(root: KernelBody, classify: Classifier, path: Path, id: u32) {
    exists k: nat :: SuppliedAt(root, classify, path, k, id)
  }

  /** A result reference to an id that no op of its body defines, that no child finished
      before it produces, and that is not in the body's scope. */
  ghost predicate DanglesAt(root: KernelBody, classify: Classifier, s: Site) {
    && IsBodyPath(root, s.path)
    && var body := BodyAt(root, s.path);
    && s.op < |body.ops| && s.slot < |body.ops[s.op].operands|
    && var id := body.ops[s.op].operands[s.slot];
    && classify(body.ops[s.op].kind, s.slot) == ResultRef
    && !DefinedBefore(body, |body.ops|, id)
    && !FinishedBefore(body, classify, s.op, id)
    && !InScope(root, classify, s.path, id)
  }

  // ----- the checker's sets hold exactly these -----

  lemma DefinedIsProduced(body: KernelBody, i: nat, id: u32)
    requires i <= |body.ops|
    ensures DefinedBefore(body, i, id) <==> id in ProducedBefore(body.ops, i)
  {
    ProducedBeforeMeans(body.ops, i, id);
    forall j | 0 <= j < i
      ensures id in ResultIds(body.ops[j]) <==>
                && body.ops[j].result.Some?
                && body.ops[j].result.value <= id
                && id < body.ops[j].result.value + if body.ops[j].kind.MatrixMma? then 4 else 1
    {
      ResultIdsMeans(body.ops[j], id);
    }
  }

  lemma NamesMeans(body: KernelBody, classify: Classifier, i: nat, c: nat)
    ensures
      Names(body, classify, i, c) <==>
        i < |body.ops| && exists p: nat :: p < |body.ops[i].operands| && References(body, classify, i, p, c)
  {
    if Names(body, classify, i, c) {
      var p: nat :| && p < |body.ops[i].operands| && body.ops[i].operands[p] == c
                    && classify(body.ops[i].kind, p) == ChildBodyIdx;
      assert References(body, classify, i, p, c);
    }
  }

  lemma FinishedIsCompleted(body: KernelBody, classify: Classifier, i: nat, id: u32)
    requires i <= |body.ops|
    ensures FinishedBefore(body, classify, i, id) <==> id in CompletedBefore(body, classify, i)
  {
    hide CompletedBefore, ProducedIn, SubtreeResults;
    CompletedBeforeMeans(body, classify, i, id);
    if FinishedBefore(body, classify, i, id) {
      var j: nat, c: nat :| j < i && Names(body, classify, j, c) && ProducedIn(body.children[c], id);
      NamesMeans(body, classify, j, c);
      var p: nat :| p < |body.ops[j].operands| && References(body, classify, j, p, c);
      SubtreeResultsMeans(body.children[c], id);
      assert NamesChildOf(body, classify, j, p, id);
    }
    if j: nat, p: nat :| j < i && p < |body.ops[j].operands| && NamesChildOf(body, classify, j, p, id) {
      var c := body.ops[j].operands[p];
      NamesMeans(body, classify, j, c);
      SubtreeResultsMeans(body.children[c], id);
    }
  }

  /** One step down: a child inherits what its parent supplies, and what the parent
      inherits once some op names the child. */
  lemma ChildScopeIs(body: KernelBody, classify: Classifier, inherited: set<u32>, c: nat, id: u32)
    ensures
      id in ChildScope(body, classify, inherited, c, |body.ops|) <==>
        Supplies(body, classify, c, id) || (id in inherited && Entered(body, classify, c))
  {
    hide ChildScope, Names, DefinedBefore, FinishedBefore, References, ProducedBefore, CompletedBefore;
    ChildScopeMeans(body, classify, inherited, c, |body.ops|, id);
    forall i: nat | i < |body.ops|
      ensures Names(body, classify, i, c) <==>
                exists p: nat :: p < |body.ops[i].operands| && References(body, classify, i, p, c)
      ensures id in VisibleBefore(body, classify, inherited, i) <==>
                id in inherited || DefinedBefore(body, i, id) || FinishedBefore(body, classify, i, id)
    {
      NamesMeans(body, classify, i, c);
      DefinedIsProduced(body, i, id);
      FinishedIsCompleted(body, classify, i, id);
    }
    forall i: nat | Names(body, classify, i, c)
      ensures i < |body.ops|
    {
      NamesMeans(body, classify, i, c);
    }
  }

  lemma EntersBelow(body: KernelBody, classify: Classifier, path: Path, m: nat)
    requires path != [] && IsBodyPath(body, path)
    ensures EntersAt(body, classify, path, m + 1) <==> EntersAt(body.children[path[0]], classify, path[1..], m)
  {
    hide Entered;
    if m + 1 < |path| {
      assert path[..m + 1][1..] == path[1..][..m];
    }
  }

  lemma EntersFromBelow(body: KernelBody, classify: Classifier, path: Path, k: nat)
    requires path != [] && IsBodyPath(body, path)
    ensures EntersFrom(body, classify, path, k + 1) <==> EntersFrom(body.children[path[0]], classify, path[1..], k)
    ensures EntersFrom(body, classify, path, 0) <==>
              Entered(body, classify, path[0]) && EntersFrom(body, classify, path, 1)
  {
    hide EntersAt;
    var child := body.children[path[0]];
    forall m: nat
      ensures EntersAt(body, classify, path, m + 1) <==> EntersAt(child, classify, path[1..], m)
    {
      EntersBelow(body, classify, path, m);
    }
    if EntersFrom(body, classify, path, k + 1) {
      forall m: nat | k <= m < |path[1..]|
        ensures EntersAt(child, classify, path[1..], m)
      {
        assert EntersAt(body, classify, path, m + 1);
      }
    }
    if EntersFrom(child, classify, path[1..], k) {
      forall m: nat | k + 1 <= m < |path|
        ensures EntersAt(body, classify, path, m)
      {
        assert EntersAt(child, classify, path[1..], m - 1);
        assert EntersAt(body, classify, path, (m - 1) + 1);
      }
    }
    assert EntersAt(body, classify, path, 0) <==> Entered(body, classify, path[0]) by {
      EntersFirst(body, classify, path);
    }
  }

  lemma EntersFirst(body: KernelBody, classify: Classifier, path: Path)
    requires path != [] && IsBodyPath(body, path)
    ensures EntersAt(body, classify, path, 0) <==> Entered(body, classify, path[0])
  {
    assert path[..0] == [];
  }

  lemma SuppliedBelow(body: KernelBody, classify: Classifier, path: Path, k: nat, id: u32)
    requires path != [] && IsBodyPath(body, path)
    ensures
      SuppliedAt(body, classify, path, k + 1, id) <==> SuppliedAt(body.children[path[0]], classify, path[1..], k, id)
    ensures
      SuppliedAt(body, classify, path, 0, id) <==>
        Supplies(body, classify, path[0], id) && EntersFrom(body, classify, path, 1)
  {
    hide Supplies, EntersFrom;
    EntersFromBelow(body, classify, path, k + 1);
    assert path[..0] == [];
    if k + 1 < |path| {
      assert path[..k + 1][1..] == path[1..][..k];
    }
  }

  /** The scope of a body in closed form: some body on its path supplies the id, or it was
      inherited from the start, and ops enter every step after that. */
  lemma {:induction false} ScopeIs(body: KernelBody, classify: Classifier, inherited: set<u32>, path: Path, id: u32)
    requires IsBodyPath(body, path)
    ensures
      id in ScopeAt(body, classify, inherited, path) <==>
        InScope(body, classify, path, id) || (id in inherited && EntersFrom(body, classify, path, 0))
    decreases |path|
  {
    hide ChildScope, Supplies, EntersFrom, SuppliedAt, Entered;
    if path == [] {
      NothingBelow(body, classify, id);
    } else {
      var child, scope := body.children[path[0]], ChildScope(body, classify, inherited, path[0], |body.ops|);
      ChildScopeIs(body, classify, inherited, path[0], id);
      ScopeIs(child, classify, scope, path[1..], id);
      EntersFromBelow(body, classify, path, 0);
      InScopeBelow(body, classify, path, id);
    }
  }

  lemma NothingBelow(body: KernelBody, classify: Classifier, id: u32)
    ensures !InScope(body, classify, [], id) && EntersFrom(body, classify, [], 0)
  {
  }

  lemma InScopeBelow(body: KernelBody, classify: Classifier, path: Path, id: u32)
    requires path != [] && IsBodyPath(body, path)
    ensures
      InScope(body, classify, path, id) <==>
        || (Supplies(body, classify, path[0], id) && EntersFrom(body, classify, path, 1))
        || InScope(body.children[path[0]], classify, path[1..], id)
  {
    hide SuppliedAt, Supplies, EntersFrom;
    SuppliedBelow(body, classify, path, 0, id);
    if k: nat :| SuppliedAt(body, classify, path, k, id) {
      if k > 0 {
        SuppliedBelow(body, classify, path, k - 1, id);
        assert k == (k - 1) + 1;
      }
    }
    if k: nat :| SuppliedAt(body.children[path[0]], classify, path[1..], k, id) {
      SuppliedBelow(body, classify, path, k, id);
    }
  }

  /** The checker reports an operand exactly when its reference dangles. */
  lemma DanglesIsLoose(root: KernelBody, classify: Classifier, s: Site)
    ensures
      DanglesAt(root, classify, s) <==>
        && IsBodyPath(root, s.path)
        && Loose(BodyAt(root, s.path), classify, ScopeAt(root, classify, {}, s.path), s.op, s.slot)
  {
    hide DefinedBefore, FinishedBefore, InScope, ScopeAt, ProducedBefore, CompletedBefore, EntersFrom;
    if IsBodyPath(root, s.path) {
      var body := BodyAt(root, s.path);
      if s.op < |body.ops| && s.slot < |body.ops[s.op].operands| {
        var id := body.ops[s.op].operands[s.slot];
        DefinedIsProduced(body, |body.ops|, id);
        FinishedIsCompleted(body, classify, s.op, id);
        ScopeIs(root, classify, {}, s.path, id);
      }
    }
  }
}
