/** The dangling-reference check over a kernel body tree. */
module Dangling {
  import opened Machine
  import opened KernelIr

  datatype OperandClass = ResultRef | ChildBodyIdx | LiteralPoolIdx | OtherOperand

  /** How an op kind uses its operand at a position. */
  type Classifier = (OpKind, nat) -> OperandClass

  datatype Origin = Origin(path: Path, opIndex: nat, kind: string)

  const Unknown := Origin([], 0, "Unknown")

  datatype DanglingRef = DanglingRef(refId: u32, origin: Origin, path: Path, opIndex: nat, kind: string,
                                     operandPosition: nat)

  type Origins = map<u32, Origin>

  // ----- what is visible where -----

  function IdsOf(ids: seq<u32>): set<u32> {
    set id | id in ids
  }

  /** Ids defined by the first `n` ops. */
  function ProducedBefore(ops: seq<Op>, n: nat): set<u32>
    requires n <= |ops|
  {
    if n == 0 then {} else ProducedBefore(ops, n - 1) + IdsOf(ResultIds(ops[n - 1]))
  }

  function Produced(body: KernelBody): set<u32> {
    ProducedBefore(body.ops, |body.ops|)
  }

  function SubtreeResults(body: KernelBody): set<u32>
    decreases body, |body.children| + 1
  {
    Produced(body) + ChildResults(body, |body.children|)
  }

  function ChildResults(body: KernelBody, n: nat): set<u32>
    requires n <= |body.children|
    decreases body, n
  {
    if n == 0 then {} else ChildResults(body, n - 1) + SubtreeResults(body.children[n - 1])
  }

  /** Operand `pos` of op `i` names child `c`. */
  predicate References(body: KernelBody, classify: Classifier, i: nat, pos: nat, c: nat) {
    && i < |body.ops| && pos < |body.ops[i].operands| && c < |body.children|
    && classify(body.ops[i].kind, pos) == ChildBodyIdx
    && body.ops[i].operands[pos] == c
  }

  /** Results of the children named by the first `pos` operands of op `i`. */
  function NamedChildResults(body: KernelBody, classify: Classifier, i: nat, pos: nat): set<u32>
    requires i < |body.ops| && pos <= |body.ops[i].operands|
  {
    if pos == 0 then {} else
      var c := body.ops[i].operands[pos - 1];
      NamedChildResults(body, classify, i, pos - 1)
      + (if References(body, classify, i, pos - 1, c) then SubtreeResults(body.children[c]) else {})
  }

  /** Results of every child named by one of the first `n` ops. */
  function CompletedBefore(body: KernelBody, classify: Classifier, n: nat): set<u32>
    requires n <= |body.ops|
  {
    if n == 0 then {} else
      CompletedBefore(body, classify, n - 1) + NamedChildResults(body, classify, n - 1, |body.ops[n - 1].operands|)
  }

  /** What a child named by op `i` may refer to. */
  function VisibleBefore(body: KernelBody, classify: Classifier, inherited: set<u32>, i: nat): set<u32>
    requires i <= |body.ops|
  {
    inherited + ProducedBefore(body.ops, i) + CompletedBefore(body, classify, i)
  }

  /** Scope gathered for child `c` from the first `pos` operands of op `i`. */
  function OpScope(body: KernelBody, classify: Classifier, inherited: set<u32>, c: nat, i: nat, pos: nat): set<u32>
    requires i < |body.ops| && pos <= |body.ops[i].operands|
  {
    if pos == 0 then {} else
      OpScope(body, classify, inherited, c, i, pos - 1)
      + (if References(body, classify, i, pos - 1, c) then VisibleBefore(body, classify, inherited, i) else {})
  }

  /** Scope gathered for child `c` from the first `n` ops. */
  function ChildScope(body: KernelBody, classify: Classifier, inherited: set<u32>, c: nat, n: nat): set<u32>
    requires n <= |body.ops|
  {
    if n == 0 then {} else
      ChildScope(body, classify, inherited, c, n - 1)
      + OpScope(body, classify, inherited, c, n - 1, |body.ops[n - 1].operands|)
  }

  /** The scope a body inherits along its path from the root. */
  function ScopeAt(body: KernelBody, classify: Classifier, inherited: set<u32>, path: Path): set<u32>
    requires IsBodyPath(body, path)
    decreases |path|
  {
    if path == [] then inherited
    else ScopeAt(body.children[path[0]], classify, ChildScope(body, classify, inherited, path[0], |body.ops|),
                 path[1..])
  }

  lemma {:induction false} ProducedBeforeMeans(ops: seq<Op>, n: nat, id: u32)
    requires n <= |ops|
    ensures id in ProducedBefore(ops, n) <==> exists i :: 0 <= i < n && id in ResultIds(ops[i])
  {
    hide ResultIds;
    if n > 0 {
      ProducedBeforeMeans(ops, n - 1, id);
    }
  }

  lemma {:induction false} ChildResultsMeans(body: KernelBody, n: nat, id: u32)
    requires n <= |body.children|
    ensures id in ChildResults(body, n) <==> exists c :: 0 <= c < n && id in SubtreeResults(body.children[c])
  {
    hide SubtreeResults;
    if n > 0 {
      ChildResultsMeans(body, n - 1, id);
    }
  }

  /** The results of a subtree are exactly the ids that some op in it defines. */
  lemma {:induction false} SubtreeResultsMeans(body: KernelBody, id: u32)
    ensures id in SubtreeResults(body) <==> ProducedIn(body, id)
    decreases body
  {
    hide ResultIds, ProducedBefore, ChildResults;
    ProducedBeforeMeans(body.ops, |body.ops|, id);
    ChildResultsMeans(body, |body.children|, id);
    if id in Produced(body) {
      var i :| 0 <= i < |body.ops| && id in ResultIds(body.ops[i]);
      var slot :| 0 <= slot < |ResultIds(body.ops[i])| && ResultIds(body.ops[i])[slot] == id;
      assert Produces(body, Site([], i, slot), id);
    } else if id in SubtreeResults(body) {
      var c :| 0 <= c < |body.children| && id in SubtreeResults(body.children[c]);
      SubtreeResultsMeans(body.children[c], id);
      var s :| Produces(body.children[c], s, id);
      ProducesBelow(body, c, s, id);
    } else if s :| Produces(body, s, id) {
      ProducedIsCollected(body, s, id);
    }
  }

  lemma ProducedIsCollected(body: KernelBody, s: Site, id: u32)
    requires Produces(body, s, id)
    ensures id in SubtreeResults(body)
    decreases body
  {
    hide ResultIds, ProducedBefore, ChildResults;
    ProducedBeforeMeans(body.ops, |body.ops|, id);
    ChildResultsMeans(body, |body.children|, id);
    if s.path != [] {
      var c, below := s.path[0], s.(path := s.path[1..]);
      assert s == below.(path := [c] + below.path);
      ProducesBelow(body, c, below, id);
      ProducedIsCollected(body.children[c], below, id);
    }
  }

  /** Operand `p` of op `i` names a child whose subtree defines `id`. */
  predicate NamesChildOf(body: KernelBody, classify: Classifier, i: nat, p: nat, id: u32) {
    && i < |body.ops| && p < |body.ops[i].operands|
    && References(body, classify, i, p, body.ops[i].operands[p])
    && id in SubtreeResults(body.children[body.ops[i].operands[p]])
  }

  lemma {:induction false} NamedChildResultsMeans(body: KernelBody, classify: Classifier, i: nat, pos: nat, id: u32)
    requires i < |body.ops| && pos <= |body.ops[i].operands|
    ensures id in NamedChildResults(body, classify, i, pos) <==>
              exists p: nat :: p < pos && NamesChildOf(body, classify, i, p, id)
  {
    hide SubtreeResults;
    if pos > 0 {
      NamedChildResultsMeans(body, classify, i, pos - 1, id);
      var c := body.ops[i].operands[pos - 1];
      assert NamesChildOf(body, classify, i, pos - 1, id) <==>
             References(body, classify, i, pos - 1, c) && id in SubtreeResults(body.children[c]);
    }
  }

  /** The completed children are those named by an earlier op. */
  lemma {:induction false} CompletedBeforeMeans(body: KernelBody, classify: Classifier, n: nat, id: u32)
    requires n <= |body.ops|
    ensures id in CompletedBefore(body, classify, n) <==>
              exists i: nat, p: nat :: i < n && p < |body.ops[i].operands| && NamesChildOf(body, classify, i, p, id)
  {
    hide NamesChildOf, NamedChildResults;
    if n > 0 {
      CompletedBeforeMeans(body, classify, n - 1, id);
      NamedChildResultsMeans(body, classify, n - 1, |body.ops[n - 1].operands|, id);
    }
  }

  lemma {:induction false} OpScopeMeans(body: KernelBody, classify: Classifier, inherited: set<u32>, c: nat, i: nat,
                                        pos: nat, id: u32)
    requires i < |body.ops| && pos <= |body.ops[i].operands|
    ensures id in OpScope(body, classify, inherited, c, i, pos) <==>
              exists p: nat :: p < pos && References(body, classify, i, p, c)
                               && id in VisibleBefore(body, classify, inherited, i)
  {
    hide VisibleBefore;
    if pos > 0 {
      OpScopeMeans(body, classify, inherited, c, i, pos - 1, id);
    }
  }

  /** A child inherits the union, over every op that names it, of what was visible
      before that op. */
  lemma {:induction false} ChildScopeMeans(body: KernelBody, classify: Classifier, inherited: set<u32>, c: nat,
                                           n: nat, id: u32)
    requires n <= |body.ops|
    ensures id in ChildScope(body, classify, inherited, c, n) <==>
              exists i: nat, p: nat :: i < n && p < |body.ops[i].operands| && References(body, classify, i, p, c)
                                       && id in VisibleBefore(body, classify, inherited, i)
  {
    hide References, VisibleBefore, OpScope;
    if n > 0 {
      ChildScopeMeans(body, classify, inherited, c, n - 1, id);
      OpScopeMeans(body, classify, inherited, c, n - 1, |body.ops[n - 1].operands|, id);
    }
  }

  // ----- the reports -----

  function OriginOf(origins: Origins, id: u32): Origin {
    if id in origins then origins[id] else Unknown
  }

  /** Operand `pos` of op `i` is a result reference to an id that is not in scope. */
  predicate Loose(body: KernelBody, classify: Classifier, inherited: set<u32>, i: nat, pos: nat) {
    && i < |body.ops| && pos < |body.ops[i].operands|
    && classify(body.ops[i].kind, pos) == ResultRef
    && body.ops[i].operands[pos] !in Produced(body)
    && body.ops[i].operands[pos] !in inherited
    && body.ops[i].operands[pos] !in CompletedBefore(body, classify, i)
  }

  function ReportOf(body: KernelBody, path: Path, origins: Origins, i: nat, pos: nat): DanglingRef
    requires i < |body.ops| && pos < |body.ops[i].operands|
  {
    var op := body.ops[i];
    DanglingRef(op.operands[pos], OriginOf(origins, op.operands[pos]), path, i, op.kind.text, pos)
  }

  function OpReports(body: KernelBody, classify: Classifier, inherited: set<u32>, path: Path, origins: Origins,
                     i: nat, pos: nat): seq<DanglingRef>
    requires i < |body.ops| && pos <= |body.ops[i].operands|
  {
    if pos == 0 then [] else
      OpReports(body, classify, inherited, path, origins, i, pos - 1)
      + (if Loose(body, classify, inherited, i, pos - 1) then [ReportOf(body, path, origins, i, pos - 1)] else [])
  }

  function OwnReports(body: KernelBody, classify: Classifier, inherited: set<u32>, path: Path, origins: Origins,
                      n: nat): seq<DanglingRef>
    requires n <= |body.ops|
  {
    if n == 0 then [] else
      OwnReports(body, classify, inherited, path, origins, n - 1)
      + OpReports(body, classify, inherited, path, origins, n - 1, |body.ops[n - 1].operands|)
  }

  function Reports(body: KernelBody, classify: Classifier, inherited: set<u32>, path: Path,
                   origins: Origins): seq<DanglingRef>
    decreases body, |body.children| + 1
  {
    OwnReports(body, classify, inherited, path, origins, |body.ops|)
    + ChildReports(body, classify, inherited, path, origins, |body.children|)
  }

  function ChildReports(body: KernelBody, classify: Classifier, inherited: set<u32>, path: Path, origins: Origins,
                        n: nat): seq<DanglingRef>
    requires n <= |body.children|
    decreases body, n
  {
    if n == 0 then [] else
      ChildReports(body, classify, inherited, path, origins, n - 1)
      + Reports(body.children[n - 1], classify, ChildScope(body, classify, inherited, n - 1, |body.ops|),
                path + [n - 1], origins)
  }

  // ----- the checker -----

  method CollectProduced(body: KernelBody) returns (produced: set<u32>)
    ensures produced == Produced(body)
  {
    hide ResultIds;
    produced := {};
    for i := 0 to |body.ops|
      invariant produced == ProducedBefore(body.ops, i)
    {
      produced := produced + IdsOf(ResultIds(body.ops[i]));
    }
  }

  method CollectBodyResults(body: KernelBody) returns (results: set<u32>)
    ensures results == SubtreeResults(body)
    ensures forall id :: id in results <==> ProducedIn(body, id)
    decreases body
  {
    hide Produced, ProducedIn;
    results := CollectProduced(body);
    for c := 0 to |body.children|
      invariant results == Produced(body) + ChildResults(body, c)
    {
      var child := CollectBodyResults(body.children[c]);
      results := results + child;
    }
    forall id
      ensures id in results <==> ProducedIn(body, id)
    {
      SubtreeResultsMeans(body, id);
    }
  }

  method CollectChildResults(body: KernelBody) returns (results: seq<set<u32>>)
    ensures |results| == |body.children|
    ensures forall c | 0 <= c < |results| :: results[c] == SubtreeResults(body.children[c])
  {
    hide SubtreeResults;
    results := [];
    for c := 0 to |body.children|
      invariant |results| == c
      invariant forall k | 0 <= k < c :: results[k] == SubtreeResults(body.children[k])
    {
      var child := CollectBodyResults(body.children[c]);
      results := results + [child];
    }
  }

  class Checker {
    var path: Path
    var refs: seq<DanglingRef>
    const origins: Origins
    const classify: Classifier

    constructor (origins: Origins, classify: Classifier)
      ensures path == [] && refs == [] && this.origins == origins && this.classify == classify
    {
      path, refs := [], [];
      this.origins, this.classify := origins, classify;
    }

    /** Check one op: report its loose operands and extend the scopes of the
        children it names. */
    method CheckOp(body: KernelBody, i: nat, inherited: set<u32>, producedSoFar: set<u32>, completed: set<u32>,
                   produced: set<u32>, scopes: seq<set<u32>>) returns (extended: seq<set<u32>>)
      requires i < |body.ops| && |scopes| == |body.children|
      requires producedSoFar == ProducedBefore(body.ops, i) && produced == Produced(body)
      requires completed == CompletedBefore(body, classify, i)
      requires forall c | 0 <= c < |scopes| :: scopes[c] == ChildScope(body, classify, inherited, c, i)
      modifies this`refs
      ensures refs == old(refs) + OpReports(body, classify, inherited, path, origins, i, |body.ops[i].operands|)
      ensures |extended| == |scopes|
      ensures forall c | 0 <= c < |scopes| :: extended[c] == ChildScope(body, classify, inherited, c, i + 1)
    {
      hide ProducedBefore, CompletedBefore;
      var op := body.ops[i];
      extended := scopes;
      ProducedGrows(body.ops, i);
      for pos := 0 to |op.operands|
        invariant refs == old(refs) + OpReports(body, classify, inherited, path, origins, i, pos)
        invariant |extended| == |scopes|
        invariant forall c | 0 <= c < |scopes| ::
                    extended[c] == scopes[c] + OpScope(body, classify, inherited, c, i, pos)
      {
        var val := op.operands[pos];
        match classify(op.kind, pos) {
          case ResultRef =>
            if val !in producedSoFar && val !in produced && val !in inherited && val !in completed {
              refs := refs + [DanglingRef(val, OriginOf(origins, val), path, i, op.kind.text, pos)];
            }
          case ChildBodyIdx =>
            if val < |body.children| {
              extended := extended[val := extended[val] + inherited + producedSoFar + completed];
            }
          case _ =>
        }
      }
    }

    method CheckBody(body: KernelBody, inherited: set<u32>)
      modifies this
      ensures path == old(path)
      ensures refs == old(refs) + Reports(body, classify, inherited, old(path), origins)
      decreases body
    {
      hide ChildScope, OwnReports;
      var scopes := CheckOps(body, inherited);
      for c := 0 to |body.children|
        invariant path == old(path)
        invariant refs == old(refs) + OwnReports(body, classify, inherited, path, origins, |body.ops|)
                          + ChildReports(body, classify, inherited, path, origins, c)
      {
        path := path + [c];
        CheckBody(body.children[c], scopes[c]);
        path := path[..|path| - 1];
      }
    }

    /** Check the ops of a body in order; the result is each child's inherited scope. */
    method CheckOps(body: KernelBody, inherited: set<u32>) returns (scopes: seq<set<u32>>)
      modifies this`refs
      ensures refs == old(refs) + OwnReports(body, classify, inherited, path, origins, |body.ops|)
      ensures |scopes| == |body.children|
      ensures forall c | 0 <= c < |scopes| :: scopes[c] == ChildScope(body, classify, inherited, c, |body.ops|)
    {
      hide ResultIds, OpReports, NamedChildResults, OpScope, SubtreeResults;
      var produced := CollectProduced(body);
      var childResults := CollectChildResults(body);
      var producedSoFar: set<u32> := {};
      var completed: set<u32> := {};
      scopes := seq(|body.children|, _ => {});
      for i := 0 to |body.ops|
        invariant refs == old(refs) + OwnReports(body, classify, inherited, path, origins, i)
        invariant producedSoFar == ProducedBefore(body.ops, i)
        invariant completed == CompletedBefore(body, classify, i)
        invariant |scopes| == |body.children|
        invariant forall c | 0 <= c < |scopes| :: scopes[c] == ChildScope(body, classify, inherited, c, i)
      {
        scopes := CheckOp(body, i, inherited, producedSoFar, completed, produced, scopes);
        producedSoFar := producedSoFar + IdsOf(ResultIds(body.ops[i]));
        completed := CompleteChildren(body, i, completed, childResults);
      }
    }

    /** The children an op names are complete after it. */
    method CompleteChildren(body: KernelBody, i: nat, completed: set<u32>, childResults: seq<set<u32>>)
      returns (more: set<u32>)
      requires i < |body.ops| && |childResults| == |body.children|
      requires completed == CompletedBefore(body, classify, i)
      requires forall c | 0 <= c < |childResults| :: childResults[c] == SubtreeResults(body.children[c])
      ensures more == CompletedBefore(body, classify, i + 1)
    {
      var op := body.ops[i];
      more := completed;
      for pos := 0 to |op.operands|
        invariant more == completed + NamedChildResults(body, classify, i, pos)
      {
        if classify(op.kind, pos) == ChildBodyIdx && op.operands[pos] < |childResults| {
          more := more + childResults[op.operands[pos]];
        }
      }
    }
  }

  lemma {:induction false} ProducedGrows(ops: seq<Op>, n: nat)
    requires n <= |ops|
    ensures ProducedBefore(ops, n) <= ProducedBefore(ops, |ops|)
    decreases |ops| - n
  {
    hide ResultIds;
    if n < |ops| {
      ProducedGrows(ops, n + 1);
    }
  }
}
