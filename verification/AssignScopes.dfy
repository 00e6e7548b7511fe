/** Which assignments the walk reports: its scopes hold what the program binds, level by
    level, so the reports are the assignments that carry a name across a loop. */
module AssignScopes {
  import opened SourceWalker
  import opened Bindings
  import opened ScopeTracking

  // ----- the scopes hold what the statements bind -----

  /** What a list of statements leaves in the scope it stands in. */
  lemma {:induction false} DeclareAllMeans(nodes: seq<Node>, scopes: seq<Scope>, name: string)
    requires scopes != []
    ensures
      var after := DeclareAll(nodes, scopes);
      && |after| == |scopes| && Pop(after) == Pop(scopes) && Top(after).isLoopBoundary == Top(scopes).isLoopBoundary
      && (name in Top(after).defs <==>
            || name in Top(scopes).defs
            || Let(name) in nodes
            || (Assign(name) in nodes && !Bound(Pop(scopes), name)))
  {
    if nodes != [] {
      DeclareAllMeans(nodes[1..], Declare(nodes[0], scopes), name);
      assert nodes == [nodes[0]] + nodes[1..];
    }
  }

  lemma {:induction false} OuterScopesStay(nodes: seq<Node>, scopes: seq<Scope>, place: Place)
    requires IsPlace(nodes, place) && scopes != []
    ensures
      var at := ScopesAt(nodes, scopes, place);
      && |at| == |scopes| + |Enclosing(nodes, place)|
      && (forall e: nat | e < |scopes| - 1 :: at[e] == scopes[e])
    decreases place
  {
    DeclareAllMeans(nodes[..place.index], scopes, "");
    if place.Inside? {
      var node := nodes[place.index];
      var inner := DeclareAll(nodes[..place.index], scopes) + [BodyScope(node)];
      OuterScopesStay(BodyOf(node, place.inOtherwise), inner, place.rest);
      forall e: nat | e < |scopes| - 1
        ensures inner[e] == scopes[e]
      {
        assert Pop(DeclareAll(nodes[..place.index], scopes))[e] == Pop(scopes)[e];
      }
    }
  }

  /** Binding levels relative to the scopes a list of statements starts in. */
  predicate BindsOver(scopes: seq<Scope>, nodes: seq<Node>, place: Place, d: nat, name: string)
    requires IsPlace(nodes, place) && scopes != []
    decreases d, 1
  {
    && d < |Earlier(nodes, place)|
    && (|| (if d == 0 then name in Top(scopes).defs else LoopVariable(nodes, place, d, name))
        || Let(name) in Earlier(nodes, place)[d]
        || (&& Assign(name) in Earlier(nodes, place)[d] && !Bound(Pop(scopes), name)
            && UnboundBelow(scopes, nodes, place, d, name)))
  }

  predicate UnboundBelow(scopes: seq<Scope>, nodes: seq<Node>, place: Place, d: nat, name: string)
    requires IsPlace(nodes, place) && scopes != []
    decreases d, 0
  {
    d == 0 || (!BindsOver(scopes, nodes, place, d - 1, name) && UnboundBelow(scopes, nodes, place, d - 1, name))
  }

  /** Entering the body of the first enclosing statement shifts the levels by one. */
  lemma {:induction false} BindsInside(scopes: seq<Scope>, nodes: seq<Node>, place: Place, d: nat, name: string)
    requires IsPlace(nodes, place) && place.Inside? && scopes != []
    ensures
      BindsOver(scopes, nodes, place, d + 1, name) <==>
        BindsOver(InnerScopes(nodes, scopes, place), BodyAround(nodes, place), place.rest, d, name)
    decreases d, 1
  {
    var node, body := nodes[place.index], BodyOf(nodes[place.index], place.inOtherwise);
    var after := DeclareAll(nodes[..place.index], scopes);
    var inner := after + [BodyScope(node)];
    assert Pop(inner) == after && Top(inner) == BodyScope(node);
    assert Earlier(nodes, place)[1..] == Earlier(body, place.rest);
    assert Enclosing(nodes, place)[1..] == Enclosing(body, place.rest);
    OutermostBinds(scopes, nodes, place, name);
    UnboundInside(scopes, nodes, place, d, name);
    assert Bound(after, name) <==> name in Top(after).defs || Bound(Pop(scopes), name) by {
      DeclareAllMeans(nodes[..place.index], scopes, name);
    }
  }

  lemma OutermostBinds(scopes: seq<Scope>, nodes: seq<Node>, place: Place, name: string)
    requires IsPlace(nodes, place) && scopes != []
    ensures BindsOver(scopes, nodes, place, 0, name) <==> name in Top(DeclareAll(nodes[..place.index], scopes)).defs
  {
    DeclareAllMeans(nodes[..place.index], scopes, name);
  }

  lemma {:induction false} UnboundInside(scopes: seq<Scope>, nodes: seq<Node>, place: Place, d: nat, name: string)
    requires IsPlace(nodes, place) && place.Inside? && scopes != []
    ensures
      UnboundBelow(scopes, nodes, place, d + 1, name) <==>
        && !BindsOver(scopes, nodes, place, 0, name)
        && UnboundBelow(InnerScopes(nodes, scopes, place), BodyAround(nodes, place), place.rest, d, name)
    decreases d, 0
  {
    hide BindsOver, DeclareAll;
    if d > 0 {
      BindsInside(scopes, nodes, place, d - 1, name);
      UnboundInside(scopes, nodes, place, d - 1, name);
    }
  }

  /** The scope a list of statements starts in stays where it is. */
  lemma StartingScope(nodes: seq<Node>, scopes: seq<Scope>, place: Place)
    requires IsPlace(nodes, place) && scopes != []
    ensures
      var at := ScopesAt(nodes, scopes, place);
      && |at| == |scopes| + |Enclosing(nodes, place)|
      && at[|scopes| - 1] == Top(DeclareAll(nodes[..place.index], scopes))
      && at[|scopes| - 1].isLoopBoundary == Top(scopes).isLoopBoundary
  {
    OuterScopesStay(nodes, scopes, place);
    DeclareAllMeans(nodes[..place.index], scopes, "");
    if place.Inside? {
      var inner := DeclareAll(nodes[..place.index], scopes) + [BodyScope(nodes[place.index])];
      OuterScopesStay(BodyOf(nodes[place.index], place.inOtherwise), inner, place.rest);
    }
  }

  /** The scopes the body around a place starts in. */
  function InnerScopes(nodes: seq<Node>, scopes: seq<Scope>, place: Place): (inner: seq<Scope>)
    requires IsPlace(nodes, place) && place.Inside? && scopes != []
    ensures inner != []
  {
    DeclareAll(nodes[..place.index], scopes) + [BodyScope(nodes[place.index])]
  }

  lemma ScopesInside(nodes: seq<Node>, scopes: seq<Scope>, place: Place)
    requires IsPlace(nodes, place) && place.Inside? && scopes != []
    ensures
      var inner, body := InnerScopes(nodes, scopes, place), BodyAround(nodes, place);
      && IsPlace(body, place.rest) && |inner| == |scopes| + 1
      && ScopesAt(nodes, scopes, place) == ScopesAt(body, inner, place.rest)
      && |Earlier(nodes, place)| == |Earlier(body, place.rest)| + 1
      && Top(inner).isLoopBoundary == nodes[place.index].Loop?
  {
    DeclareAllMeans(nodes[..place.index], scopes, "");
  }

  lemma {:induction false} ScopeBinds(nodes: seq<Node>, scopes: seq<Scope>, place: Place, d: nat, name: string)
    requires IsPlace(nodes, place) && scopes != [] && d < |Earlier(nodes, place)|
    ensures
      var at := ScopesAt(nodes, scopes, place);
      |scopes| - 1 + d < |at| && (name in at[|scopes| - 1 + d].defs <==> BindsOver(scopes, nodes, place, d, name))
    decreases place
  {
    hide *;
    if d == 0 {
      StartingScope(nodes, scopes, place);
      OutermostBinds(scopes, nodes, place, name);
    } else {
      LevelsInside(nodes, place, d - 1, "");
      ScopesInside(nodes, scopes, place);
      BindsInside(scopes, nodes, place, d - 1, name);
      ScopeBinds(BodyAround(nodes, place), InnerScopes(nodes, scopes, place), place.rest, d - 1, name);
    }
  }

  lemma {:induction false} ScopeIsLoop(nodes: seq<Node>, scopes: seq<Scope>, place: Place, d: nat)
    requires IsPlace(nodes, place) && scopes != [] && d < |Earlier(nodes, place)|
    ensures
      var at := ScopesAt(nodes, scopes, place);
      && |scopes| - 1 + d < |at|
      && (at[|scopes| - 1 + d].isLoopBoundary <==>
            if d == 0 then Top(scopes).isLoopBoundary else LoopLevel(nodes, place, d))
    decreases place
  {
    hide *;
    if d == 0 {
      StartingScope(nodes, scopes, place);
    } else {
      LevelsInside(nodes, place, d - 1, "");
      ScopesInside(nodes, scopes, place);
      ScopeIsLoop(BodyAround(nodes, place), InnerScopes(nodes, scopes, place), place.rest, d - 1);
    }
  }

  lemma {:induction false} BindsOverRoot(nodes: seq<Node>, place: Place, d: nat, name: string)
    requires IsPlace(nodes, place)
    ensures BindsOver(Root, nodes, place, d, name) <==> Binds(nodes, place, d, name)
    decreases d, 1
  {
    assert Pop(Root) == [] && !Bound([], name) && Top(Root).defs == {};
    UnboundBelowRoot(nodes, place, d, name);
  }

  lemma {:induction false} UnboundBelowRoot(nodes: seq<Node>, place: Place, d: nat, name: string)
    requires IsPlace(nodes, place)
    ensures UnboundBelow(Root, nodes, place, d, name) <==> !BoundBelow(nodes, place, d, name)
    decreases d, 0
  {
    hide BindsOver, Binds;
    if d > 0 {
      BindsOverRoot(nodes, place, d - 1, name);
      UnboundBelowRoot(nodes, place, d - 1, name);
    }
  }

  lemma {:induction false} LoopsMean(nodes: seq<Node>, path: seq<string>, place: Place)
    requires IsPlace(nodes, place)
    ensures LoopsAt(nodes, path, place) == path + LoopVariables(Enclosing(nodes, place))
    decreases place
  {
    if place.Inside? {
      var node, body := nodes[place.index], BodyOf(nodes[place.index], place.inOtherwise);
      LoopsMean(body, BodyPath(node, path), place.rest);
      assert Enclosing(nodes, place)[1..] == Enclosing(body, place.rest);
      var inner := LoopVariables(Enclosing(body, place.rest));
      assert BodyPath(node, path) + inner == path + ((if node.Loop? then [node.loopVar] else []) + inner);
    } else {
      assert path + [] == path;
    }
  }

  /** The scopes around a place hold exactly what the statements bind, level by level. */
  lemma ScopesAreBindings(nodes: seq<Node>, place: Place, name: string)
    requires IsPlace(nodes, place)
    ensures DefLevels(ScopesAt(nodes, Root, place), name) == BindingLevels(nodes, place, name)
    ensures BoundaryLevels(ScopesAt(nodes, Root, place)) == LoopLevels(nodes, place)
    ensures LoopsAt(nodes, [], place) == LoopVariables(Enclosing(nodes, place))
  {
    LoopsMean(nodes, [], place);
    assert [] + LoopVariables(Enclosing(nodes, place)) == LoopVariables(Enclosing(nodes, place));
    OuterScopesStay(nodes, Root, place);
    hide ScopesAt, Earlier, Enclosing, Binds, BindsOver, LoopLevel;
    forall d: nat | d < |Earlier(nodes, place)|
      ensures name in ScopesAt(nodes, Root, place)[d].defs <==> Binds(nodes, place, d, name)
      ensures ScopesAt(nodes, Root, place)[d].isLoopBoundary <==> LoopLevel(nodes, place, d)
    {
      LevelOfRoot(nodes, place, d, name);
    }
  }

  lemma LevelOfRoot(nodes: seq<Node>, place: Place, d: nat, name: string)
    requires IsPlace(nodes, place) && d < |Earlier(nodes, place)|
    ensures
      var at := ScopesAt(nodes, Root, place);
      && d < |at| && (name in at[d].defs <==> Binds(nodes, place, d, name))
      && (at[d].isLoopBoundary <==> LoopLevel(nodes, place, d))
  {
    hide ScopesAt, Earlier, Enclosing, Binds, BindsOver;
    ScopeBinds(nodes, Root, place, d, name);
    ScopeIsLoop(nodes, Root, place, d);
    BindsOverRoot(nodes, place, d, name);
  }

  // ----- main results -----

  /** For every program, a pair is reported exactly when some assignment carries
      that name across the innermost of those loops. */
  lemma ReportsAreCarriedAssigns(program: seq<Node>, name: string, loops: seq<string>)
    ensures (name, loops) in WalkNodes(program, Root, []).1 <==> exists place :: CarriesAt(program, place, name, loops)
  {
    var reports := WalkNodes(program, Root, []).1;
    assert Pop(Root) == [];
    assert Tracks([], [], [], {});
    WalkTracks(program, Root, Root, [], {});
    assert SetOf(reports) == Pairs(program, Root, []);
    assert (name, loops) in reports <==> (name, loops) in SetOf(reports);
    hide BindingLevels, DefLevels, BoundaryLevels, LoopLevels, CrossesLoop;
    if (name, loops) in reports {
      var place := PairGivesPlace(program, Root, [], (name, loops));
      CrossesMeans(ScopesAt(program, Root, place), name);
      ScopesAreBindings(program, place, name);
      assert CarriesAt(program, place, name, loops);
    }
    if place :| CarriesAt(program, place, name, loops) {
      CrossesMeans(ScopesAt(program, Root, place), name);
      ScopesAreBindings(program, place, name);
      PlaceGivesPair(program, Root, [], place, name);
    }
  }

  /** In a program where every assigned name has an earlier visible let or loop variable,
      only those count as bindings. */
  lemma WellScopedReports(program: seq<Node>, name: string, loops: seq<string>)
    requires WellScoped(program)
    ensures (name, loops) in WalkNodes(program, Root, []).1 <==>
              exists place :: CarriesDeclaredAt(program, place, name, loops)
  {
    hide CarriesAt, CarriesDeclaredAt;
    ReportsAreCarriedAssigns(program, name, loops);
    forall place
      ensures CarriesAt(program, place, name, loops) <==> CarriesDeclaredAt(program, place, name, loops)
    {
      WellScopedCarries(program, place, name, loops);
    }
  }

  /** For every program, an assignment to the innermost loop's own variable is reported,
      unless a let of that name stands in between. */
  lemma LoopVariableIsReported(program: seq<Node>, place: Place, name: string, d: nat)
    requires IsPlace(program, place) && NodeAt(program, place) == Assign(name)
    requires LoopVariable(program, place, d, name)
    requires forall e | d < e < |Earlier(program, place)| :: Let(name) !in Earlier(program, place)[e]
    requires forall e | d < e < |Earlier(program, place)| :: !LoopLevel(program, place, e)
    ensures (name, LoopVariables(Enclosing(program, place))) in WalkNodes(program, Root, []).1
  {
    LoopVariableCarries(program, place, name, d);
    ReportsAreCarriedAssigns(program, name, LoopVariables(Enclosing(program, place)));
  }

  /** A let directly in a loop body counts as outside the loop: the loop's own scope
      is already crossed when it is searched. A let one block deeper does not. */
  lemma LoopLocalLetIsReported(loopVar: string, name: string)
    ensures (name, [loopVar]) in WalkNodes([Loop(loopVar, [Let(name), Assign(name)])], Root, []).1
    ensures WalkNodes([Loop(loopVar, [Block([Let(name), Assign(name)])])], Root, []).1 == []
  {
    var inLoop := Root + [Scope(true, {loopVar})];
    var body := [Let(name), Assign(name)];
    LetThenAssign(name, inLoop, [loopVar]);
    var direct := Loop(loopVar, body);
    assert BodyPath(direct, []) == [loopVar];
    assert [direct][1..] == [];
    assert WalkNodes([direct], Root, []).1 == WalkBody(direct, body, Root, []) + [];

    var block := Block(body);
    var inBlock := inLoop + [Scope(false, {})];
    LetThenAssign(name, inBlock, [loopVar]);
    assert [block][1..] == [];
    assert WalkNodes([block], inLoop, [loopVar]).1 == WalkBody(block, body, inLoop, [loopVar]) + [];
    var deeper := Loop(loopVar, [block]);
    assert BodyPath(deeper, []) == [loopVar];
    assert [deeper][1..] == [];
    assert WalkNodes([deeper], Root, []).1 == WalkBody(deeper, [block], Root, []) + [];
  }

  lemma LetThenAssign(name: string, env: seq<Scope>, path: seq<string>)
    requires env != [] && path != []
    ensures WalkNodes([Let(name), Assign(name)], env, path).1
         == if Top(env).isLoopBoundary then [(name, path)] else []
  {
    var nodes := [Let(name), Assign(name)];
    var defined := Define(env, name);
    DefineTop(env, name, name);
    assert nodes[1..] == [Assign(name)] && nodes[1..][1..] == [];
    assert WalkNodes(nodes[1..], defined, path).1 == WalkNode(Assign(name), defined, path).1 + [];
  }
}
