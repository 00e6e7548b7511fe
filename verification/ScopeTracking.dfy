/** The declared scopes around an assignment, and how the walk's own scopes track them
    although every assignment also enters its name and so masks later ones. */
module ScopeTracking {
  import opened SourceWalker
  import opened Bindings

  // ----- bindings, declaratively -----

  /** What one statement binds in the scope it stands in: a let binds its name, and
      an assignment to a name that is bound nowhere declares it. */
  function Declare(node: Node, scopes: seq<Scope>): (after: seq<Scope>)
    requires scopes != []
    ensures after != []
  {
    match node
    case Let(name) => Define(scopes, name)
    case Assign(name) => if Bound(scopes, name) then scopes else Define(scopes, name)
    case _ => scopes
  }

  function DeclareAll(nodes: seq<Node>, scopes: seq<Scope>): (after: seq<Scope>)
    requires scopes != []
    ensures after != []
  {
    if nodes == [] then scopes else DeclareAll(nodes[1..], Declare(nodes[0], scopes))
  }

  /** The scopes around a place, each holding what the statements before the place
      bind at that level, and the loop variable for a loop's own scope. */
  function ScopesAt(nodes: seq<Node>, scopes: seq<Scope>, place: Place): seq<Scope>
    requires IsPlace(nodes, place) && scopes != []
    decreases place
  {
    match place
    case Here(i) => DeclareAll(nodes[..i], scopes)
    case Inside(i, o, rest) =>
      ScopesAt(BodyOf(nodes[i], o), DeclareAll(nodes[..i], scopes) + [BodyScope(nodes[i])], rest)
  }

  function LoopsAt(nodes: seq<Node>, path: seq<string>, place: Place): seq<string>
    requires IsPlace(nodes, place)
    decreases place
  {
    match place
    case Here(_) => path
    case Inside(i, o, rest) => LoopsAt(BodyOf(nodes[i], o), BodyPath(nodes[i], path), rest)
  }

  /** The levels that hold a name, and those that belong to loops. */
  function DefLevels(scopes: seq<Scope>, name: string): set<nat> {
    set d: nat | d < |scopes| && name in scopes[d].defs
  }

  function BoundaryLevels(scopes: seq<Scope>): set<nat> {
    set d: nat | d < |scopes| && scopes[d].isLoopBoundary
  }

  lemma {:induction false} BoundMeans(scopes: seq<Scope>, name: string)
    ensures Bound(scopes, name) <==> DefLevels(scopes, name) != {}
  {
    if scopes != [] {
      var top := |scopes| - 1;
      BoundMeans(Pop(scopes), name);
      forall d: nat | d < top
        ensures d in DefLevels(scopes, name) <==> d in DefLevels(Pop(scopes), name)
      {
      }
      if name in Top(scopes).defs {
        assert top in DefLevels(scopes, name);
      } else if Bound(Pop(scopes), name) {
        var d :| d in DefLevels(Pop(scopes), name);
        assert d in DefLevels(scopes, name);
      } else {
        assert forall d: nat :: d !in DefLevels(scopes, name);
      }
    }
  }

  /** The recursive scan decides the condition on levels. */
  lemma {:induction false} CrossesMeans(scopes: seq<Scope>, name: string)
    ensures Crosses(scopes, name) <==> CrossesLoop(DefLevels(scopes, name), BoundaryLevels(scopes))
  {
    if scopes != [] {
      var top := |scopes| - 1;
      var rest := Pop(scopes);
      CrossesMeans(rest, name);
      BoundMeans(rest, name);
      LevelsOfTop(scopes, name);
      var levels, loops := DefLevels(rest, name), BoundaryLevels(rest);
      if name in Top(scopes).defs {
        assert top in DefLevels(scopes, name) && forall e | e in DefLevels(scopes, name) :: e <= top;
        if Top(scopes).isLoopBoundary {
          assert top in BoundaryLevels(scopes);
        }
      } else if Top(scopes).isLoopBoundary {
        assert top in BoundaryLevels(scopes);
        if Bound(rest, name) {
          var d := Greatest(levels);
        }
      }
    }
  }

  /** Levels of the scopes against those without the innermost one. */
  lemma LevelsOfTop(scopes: seq<Scope>, name: string)
    requires scopes != []
    ensures
      var top := |scopes| - 1;
      && DefLevels(scopes, name) == DefLevels(Pop(scopes), name) + (if name in Top(scopes).defs then {top} else {})
      && BoundaryLevels(scopes) == BoundaryLevels(Pop(scopes)) + (if Top(scopes).isLoopBoundary then {top} else {})
      && (forall d | d in DefLevels(Pop(scopes), name) + BoundaryLevels(Pop(scopes)) :: d < top)
  {
  }

  lemma {:induction false} Greatest(levels: set<nat>) returns (d: nat)
    requires levels != {}
    ensures d in levels && forall e | e in levels :: e <= d
    decreases |levels|
  {
    var x :| x in levels;
    if levels - {x} == {} {
      assert levels == {x};
      d := x;
    } else {
      var other := Greatest(levels - {x});
      d := if other > x then other else x;
      forall e | e in levels
        ensures e <= d
      {
        if e != x { assert e in levels - {x}; }
      }
    }
  }

  // ----- the same pairs, collected without masking -----

  function PairsOf(node: Node, scopes: seq<Scope>, path: seq<string>): set<Report>
    requires scopes != []
    decreases node, 1
  {
    match node
    case Assign(name) => if path != [] && Crosses(scopes, name) then {(name, path)} else {}
    case Block(stmts) => PairsIn(node, stmts, scopes, path)
    case If(whenTrue, otherwise) => PairsIn(node, whenTrue, scopes, path) + PairsIn(node, otherwise, scopes, path)
    case Loop(_, body) => PairsIn(node, body, scopes, path)
    case Region(body) => PairsIn(node, body, scopes, path)
    case _ => {}
  }

  function PairsIn(node: Node, body: seq<Node>, scopes: seq<Scope>, path: seq<string>): set<Report>
    requires IsBody(node, body)
    decreases node, 0
  {
    Pairs(body, scopes + [BodyScope(node)], BodyPath(node, path))
  }

  function Pairs(nodes: seq<Node>, scopes: seq<Scope>, path: seq<string>): set<Report>
    requires scopes != []
    decreases nodes, 2
  {
    if nodes == [] then {}
    else PairsOf(nodes[0], scopes, path) + Pairs(nodes[1..], Declare(nodes[0], scopes), path)
  }

  /** The pairs of a statement with bodies are those of its bodies. */
  lemma BodyPairs(node: Node, scopes: seq<Scope>, path: seq<string>, pair: Report)
    requires scopes != [] && HasBody(node, false)
    ensures
      var inner, innerPath := scopes + [BodyScope(node)], BodyPath(node, path);
      pair in PairsOf(node, scopes, path) <==>
        || pair in Pairs(BodyOf(node, false), inner, innerPath)
        || (node.If? && pair in Pairs(BodyOf(node, true), inner, innerPath))
  {
  }

  lemma {:induction false} PlaceGivesPair(nodes: seq<Node>, scopes: seq<Scope>, path: seq<string>, place: Place,
                                          name: string)
    requires scopes != [] && IsPlace(nodes, place) && NodeAt(nodes, place) == Assign(name)
    requires LoopsAt(nodes, path, place) != [] && Crosses(ScopesAt(nodes, scopes, place), name)
    ensures (name, LoopsAt(nodes, path, place)) in Pairs(nodes, scopes, path)
    decreases nodes
  {
    var i := place.index;
    if i > 0 {
      var earlier := Shifted(place);
      ShiftedPlace(nodes, scopes, path, place);
      PlaceGivesPair(nodes[1..], Declare(nodes[0], scopes), path, earlier, name);
    } else if place.Inside? {
      assert nodes[..0] == [];
      BodyPairs(nodes[0], scopes, path, (name, LoopsAt(nodes, path, place)));
      PlaceGivesPair(BodyOf(nodes[0], place.inOtherwise), scopes + [BodyScope(nodes[0])], BodyPath(nodes[0], path),
                     place.rest, name);
    } else {
      assert nodes[..0] == [];
    }
  }

  /** The same place after dropping the first statement. */
  function Shifted(place: Place): Place
    requires place.index > 0
  {
    place.(index := place.index - 1)
  }

  lemma ShiftedPlace(nodes: seq<Node>, scopes: seq<Scope>, path: seq<string>, place: Place)
    requires scopes != [] && nodes != [] && place.index > 0
    ensures IsPlace(nodes, place) <==> IsPlace(nodes[1..], Shifted(place))
    ensures IsPlace(nodes, place) ==>
              && NodeAt(nodes, place) == NodeAt(nodes[1..], Shifted(place))
              && LoopsAt(nodes, path, place) == LoopsAt(nodes[1..], path, Shifted(place))
              && ScopesAt(nodes, scopes, place) == ScopesAt(nodes[1..], Declare(nodes[0], scopes), Shifted(place))
  {
    var i := place.index;
    if i <= |nodes| {
      assert nodes[..i][0] == nodes[0] && nodes[..i][1..] == nodes[1..][..i - 1];
    }
  }

  lemma {:induction false} PairGivesPlace(nodes: seq<Node>, scopes: seq<Scope>, path: seq<string>,
                                          pair: Report) returns (place: Place)
    requires scopes != [] && pair in Pairs(nodes, scopes, path)
    ensures IsPlace(nodes, place) && NodeAt(nodes, place) == Assign(pair.0)
    ensures LoopsAt(nodes, path, place) == pair.1 != [] && Crosses(ScopesAt(nodes, scopes, place), pair.0)
    decreases nodes
  {
    assert nodes[..0] == [];
    var node := nodes[0];
    if pair in Pairs(nodes[1..], Declare(node, scopes), path) {
      var earlier := PairGivesPlace(nodes[1..], Declare(node, scopes), path, pair);
      place := earlier.(index := earlier.index + 1);
      assert Shifted(place) == earlier;
      ShiftedPlace(nodes, scopes, path, place);
    } else if node.Assign? {
      place := Here(0);
    } else {
      BodyPairs(node, scopes, path, pair);
      var inOtherwise := pair !in Pairs(BodyOf(node, false), scopes + [BodyScope(node)], BodyPath(node, path));
      var rest := PairGivesPlace(BodyOf(node, inOtherwise), scopes + [BodyScope(node)], BodyPath(node, path), pair);
      place := Inside(0, inOtherwise, rest);
    }
  }

  // ----- masking changes nothing -----

  /** The walk's scopes against the bindings: beside its bindings a scope may hold
      names that were assigned there; such a name is bound, and if its nearest
      binding crosses a loop the pair has been reported already. */
  ghost predicate Tracks(env: seq<Scope>, scopes: seq<Scope>, path: seq<string>, reported: set<Report>) {
    && |env| == |scopes|
    && (scopes == [] ==> path == [])
    && (scopes != [] ==>
          && Top(env).isLoopBoundary == Top(scopes).isLoopBoundary
          && Top(scopes).defs <= Top(env).defs
          && (forall name | name in Top(env).defs && name !in Top(scopes).defs :: Masked(scopes, path, reported, name))
          && (Top(scopes).isLoopBoundary ==> path != [])
          && Tracks(Pop(env), Pop(scopes), if Top(scopes).isLoopBoundary then path[..|path| - 1] else path, reported))
  }

  predicate Masked(scopes: seq<Scope>, path: seq<string>, reported: set<Report>, name: string) {
    Bound(scopes, name) && (Crosses(scopes, name) ==> (name, path) in reported)
  }

  lemma {:induction false} TracksGrows(env: seq<Scope>, scopes: seq<Scope>, path: seq<string>, less: set<Report>,
                                       more: set<Report>)
    requires Tracks(env, scopes, path, less) && less <= more
    ensures Tracks(env, scopes, path, more)
    decreases |env|
  {
    if scopes != [] {
      TracksGrows(Pop(env), Pop(scopes), if Top(scopes).isLoopBoundary then path[..|path| - 1] else path, less, more);
    }
  }

  lemma {:induction false} BoundAlike(env: seq<Scope>, scopes: seq<Scope>, path: seq<string>, reported: set<Report>,
                                      name: string)
    requires Tracks(env, scopes, path, reported)
    ensures Bound(env, name) <==> Bound(scopes, name)
    ensures Crosses(scopes, name) ==> path != []
    decreases |env|
  {
    if scopes != [] {
      BoundAlike(Pop(env), Pop(scopes), if Top(scopes).isLoopBoundary then path[..|path| - 1] else path, reported,
                 name);
    }
  }

  /** A masked lookup misses only pairs that are reported already. */
  lemma {:induction false} LookupAlike(env: seq<Scope>, scopes: seq<Scope>, path: seq<string>, reported: set<Report>,
                                       name: string)
    requires Tracks(env, scopes, path, reported)
    ensures Crosses(env, name) ==> Crosses(scopes, name)
    ensures Crosses(scopes, name) && !Crosses(env, name) ==> (name, path) in reported
    decreases |env|
  {
    if scopes != [] {
      var outer := if Top(scopes).isLoopBoundary then path[..|path| - 1] else path;
      LookupAlike(Pop(env), Pop(scopes), outer, reported, name);
      BoundAlike(Pop(env), Pop(scopes), outer, reported, name);
    }
  }

  function SetOf(reports: seq<Report>): (all: set<Report>)
  {
    set r | r in reports
  }

  lemma DefineTop(scopes: seq<Scope>, name: string, other: string)
    requires scopes != []
    ensures Pop(Define(scopes, name)) == Pop(scopes)
    ensures Top(Define(scopes, name)) == Top(scopes).(defs := Top(scopes).defs + {name})
    ensures other != name ==> Bound(Define(scopes, name), other) == Bound(scopes, other)
    ensures other != name ==> Crosses(Define(scopes, name), other) == Crosses(scopes, other)
  {
  }

  lemma LetTracks(env: seq<Scope>, scopes: seq<Scope>, path: seq<string>, reported: set<Report>, name: string)
    requires Tracks(env, scopes, path, reported) && scopes != []
    ensures Tracks(Define(env, name), Define(scopes, name), path, reported)
  {
  }

  /** Assigning a bound name masks it, after its pair is accounted for. */
  lemma MaskTracks(env: seq<Scope>, scopes: seq<Scope>, path: seq<string>, reported: set<Report>, name: string)
    requires Tracks(env, scopes, path, reported) && scopes != []
    requires Masked(scopes, path, reported, name)
    ensures Tracks(Define(env, name), scopes, path, reported)
  {
    DefineTop(env, name, name);
  }

  lemma AssignTracks(env: seq<Scope>, scopes: seq<Scope>, path: seq<string>, reported: set<Report>, name: string)
    requires Tracks(env, scopes, path, reported) && scopes != []
    ensures
      var (env', reports) := WalkNode(Assign(name), env, path);
      var pairs := PairsOf(Assign(name), scopes, path);
      && Tracks(env', Declare(Assign(name), scopes), path, reported + SetOf(reports))
      && SetOf(reports) <= pairs <= reported + SetOf(reports)
  {
    assert |env| == |scopes|;
    hide Tracks;
    LookupAlike(env, scopes, path, reported, name);
    BoundAlike(env, scopes, path, reported, name);
    var reports := WalkNode(Assign(name), env, path).1;
    SingleReport(name, path);
    var now := reported + SetOf(reports);
    TracksGrows(env, scopes, path, reported, now);
    if Bound(scopes, name) {
      MaskTracks(env, scopes, path, now, name);
    } else {
      LetTracks(env, scopes, path, now, name);
    }
  }

  lemma SingleReport(name: string, path: seq<string>)
    ensures SetOf([(name, path)]) == {(name, path)}
    ensures SetOf([]) == {}
  {
  }

  lemma PushTracks(node: Node, env: seq<Scope>, scopes: seq<Scope>, path: seq<string>, reported: set<Report>)
    requires Tracks(env, scopes, path, reported)
    ensures Tracks(env + [BodyScope(node)], scopes + [BodyScope(node)], BodyPath(node, path), reported)
  {
  }

  lemma {:induction false} BodyTracks(node: Node, body: seq<Node>, env: seq<Scope>, scopes: seq<Scope>,
                                      path: seq<string>, reported: set<Report>)
    requires IsBody(node, body) && Tracks(env, scopes, path, reported) && scopes != []
    ensures
      var reports := WalkBody(node, body, env, path);
      SetOf(reports) <= PairsIn(node, body, scopes, path) <= reported + SetOf(reports)
    decreases node, 0
  {
    PushTracks(node, env, scopes, path, reported);
    WalkTracks(body, env + [BodyScope(node)], scopes + [BodyScope(node)], BodyPath(node, path), reported);
  }

  lemma {:induction false} NodeTracks(node: Node, env: seq<Scope>, scopes: seq<Scope>, path: seq<string>,
                                      reported: set<Report>)
    requires Tracks(env, scopes, path, reported) && scopes != []
    ensures
      var (env', reports) := WalkNode(node, env, path);
      && Tracks(env', Declare(node, scopes), path, reported + SetOf(reports))
      && SetOf(reports) <= PairsOf(node, scopes, path) <= reported + SetOf(reports)
    decreases node, 1
  {
    var (env', reports) := WalkNode(node, env, path);
    match node {
      case Let(name) =>
        LetTracks(env, scopes, path, reported, name);
        assert reported + SetOf(reports) == reported;
      case Assign(name) =>
        AssignTracks(env, scopes, path, reported, name);
      case If(whenTrue, otherwise) =>
        BodyTracks(node, whenTrue, env, scopes, path, reported);
        BodyTracks(node, otherwise, env, scopes, path, reported);
        assert SetOf(reports)
            == SetOf(WalkBody(node, whenTrue, env, path)) + SetOf(WalkBody(node, otherwise, env, path));
        TracksGrows(env, scopes, path, reported, reported + SetOf(reports));
      case Plain =>
        assert reported + SetOf(reports) == reported;
      case _ =>
        BodyTracks(node, BodyOf(node, false), env, scopes, path, reported);
        TracksGrows(env, scopes, path, reported, reported + SetOf(reports));
    }
  }

  lemma {:induction false} WalkTracks(nodes: seq<Node>, env: seq<Scope>, scopes: seq<Scope>, path: seq<string>,
                                      reported: set<Report>)
    requires Tracks(env, scopes, path, reported) && scopes != []
    ensures
      var reports := WalkNodes(nodes, env, path).1;
      SetOf(reports) <= Pairs(nodes, scopes, path) <= reported + SetOf(reports)
    decreases nodes, 2
  {
    if nodes != [] {
      var (env1, reports1) := WalkNode(nodes[0], env, path);
      var reports2 := WalkNodes(nodes[1..], env1, path).1;
      NodeTracks(nodes[0], env, scopes, path, reported);
      WalkTracks(nodes[1..], env1, Declare(nodes[0], scopes), path, reported + SetOf(reports1));
      assert SetOf(reports1 + reports2) == SetOf(reports1) + SetOf(reports2);
    }
  }
}
