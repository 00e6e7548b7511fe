/** The reports of the source walk one by one: which assignments they stand for, in
    which order. */
module WalkReports {
  import opened SourceWalker
  import opened Bindings
  import opened ScopeTracking
  import opened AssignScopes

  // ----- the walk's own scopes -----

  /** The walk enters every let and every assignment into the scope it stands in. */
  function Enter(node: Node, env: seq<Scope>): (after: seq<Scope>)
    requires env != []
    ensures after != []
  {
    match node
    case Let(name) => Define(env, name)
    case Assign(name) => Define(env, name)
    case _ => env
  }

  function EnterAll(nodes: seq<Node>, env: seq<Scope>): (after: seq<Scope>)
    requires env != []
    ensures after != []
  {
    if nodes == [] then env else EnterAll(nodes[1..], Enter(nodes[0], env))
  }

  function EnvAt(nodes: seq<Node>, env: seq<Scope>, place: Place): seq<Scope>
    requires IsPlace(nodes, place) && env != []
    decreases place
  {
    match place
    case Here(i) => EnterAll(nodes[..i], env)
    case Inside(i, o, rest) => EnvAt(BodyOf(nodes[i], o), EnterAll(nodes[..i], env) + [BodyScope(nodes[i])], rest)
  }

  lemma {:induction false} EnterAllMeans(nodes: seq<Node>, env: seq<Scope>, name: string)
    requires env != []
    ensures
      var after := EnterAll(nodes, env);
      && |after| == |env| && Pop(after) == Pop(env) && Top(after).isLoopBoundary == Top(env).isLoopBoundary
      && (name in Top(after).defs <==> name in Top(env).defs || Let(name) in nodes || Assign(name) in nodes)
  {
    if nodes != [] {
      EnterAllMeans(nodes[1..], Enter(nodes[0], env), name);
      assert nodes == [nodes[0]] + nodes[1..];
    }
  }

  lemma {:induction false} OuterEnvStays(nodes: seq<Node>, env: seq<Scope>, place: Place)
    requires IsPlace(nodes, place) && env != []
    ensures
      var at := EnvAt(nodes, env, place);
      && |at| == |env| + |Enclosing(nodes, place)|
      && (forall e: nat | e < |env| - 1 :: at[e] == env[e])
    decreases place
  {
    EnterAllMeans(nodes[..place.index], env, "");
    if place.Inside? {
      var node := nodes[place.index];
      var after := EnterAll(nodes[..place.index], env);
      var inner := after + [BodyScope(node)];
      OuterEnvStays(BodyOf(node, place.inOtherwise), inner, place.rest);
      forall e: nat | e < |env| - 1
        ensures inner[e] == env[e]
      {
        assert Pop(after)[e] == Pop(env)[e];
      }
    }
  }

  /** What is mentioned at level `d`, counted from the scopes a list of statements starts in. */
  predicate MentionsOver(env: seq<Scope>, nodes: seq<Node>, place: Place, d: nat, name: string)
    requires IsPlace(nodes, place) && env != [] && d < |Earlier(nodes, place)|
  {
    || (if d == 0 then name in Top(env).defs else LoopVariable(nodes, place, d, name))
    || Let(name) in Earlier(nodes, place)[d] || Assign(name) in Earlier(nodes, place)[d]
  }

  function InnerEnv(nodes: seq<Node>, env: seq<Scope>, place: Place): (inner: seq<Scope>)
    requires IsPlace(nodes, place) && place.Inside? && env != []
    ensures inner != []
  {
    EnterAll(nodes[..place.index], env) + [BodyScope(nodes[place.index])]
  }

  lemma EnvInside(nodes: seq<Node>, env: seq<Scope>, place: Place)
    requires IsPlace(nodes, place) && place.Inside? && env != []
    ensures
      var inner, body := InnerEnv(nodes, env, place), BodyAround(nodes, place);
      && IsPlace(body, place.rest) && |inner| == |env| + 1
      && EnvAt(nodes, env, place) == EnvAt(body, inner, place.rest)
      && |Earlier(nodes, place)| == |Earlier(body, place.rest)| + 1
      && Top(inner).isLoopBoundary == nodes[place.index].Loop?
  {
    EnterAllMeans(nodes[..place.index], env, "");
  }

  lemma StartingEnv(nodes: seq<Node>, env: seq<Scope>, place: Place, name: string)
    requires IsPlace(nodes, place) && env != []
    ensures
      var at := EnvAt(nodes, env, place);
      && |at| == |env| + |Enclosing(nodes, place)|
      && (name in at[|env| - 1].defs <==> MentionsOver(env, nodes, place, 0, name))
      && at[|env| - 1].isLoopBoundary == Top(env).isLoopBoundary
  {
    EnvStarts(nodes, env, place);
    EnterAllMeans(nodes[..place.index], env, name);
    assert Earlier(nodes, place)[0] == nodes[..place.index];
    hide EnvAt, EnterAll, Earlier, Enclosing, LoopVariable;
  }

  lemma EnvStarts(nodes: seq<Node>, env: seq<Scope>, place: Place)
    requires IsPlace(nodes, place) && env != []
    ensures
      var at := EnvAt(nodes, env, place);
      && |at| == |env| + |Enclosing(nodes, place)|
      && at[|env| - 1] == Top(EnterAll(nodes[..place.index], env))
  {
    OuterEnvStays(nodes, env, place);
    if place.Inside? {
      EnvInside(nodes, env, place);
      OuterEnvStays(BodyAround(nodes, place), InnerEnv(nodes, env, place), place.rest);
    } else {
      EnterAllMeans(nodes[..place.index], env, "");
    }
  }

  lemma {:induction false} EnvMentions(nodes: seq<Node>, env: seq<Scope>, place: Place, d: nat, name: string)
    requires IsPlace(nodes, place) && env != [] && d < |Earlier(nodes, place)|
    ensures
      var at := EnvAt(nodes, env, place);
      |env| - 1 + d < |at| && (name in at[|env| - 1 + d].defs <==> MentionsOver(env, nodes, place, d, name))
    decreases place
  {
    hide *;
    if d == 0 {
      StartingEnv(nodes, env, place, name);
    } else {
      MentionsInside(env, nodes, place, d - 1, name);
      EnvInside(nodes, env, place);
      EnvMentions(BodyAround(nodes, place), InnerEnv(nodes, env, place), place.rest, d - 1, name);
    }
  }

  lemma MentionsInside(env: seq<Scope>, nodes: seq<Node>, place: Place, d: nat, name: string)
    requires IsPlace(nodes, place) && env != [] && d + 1 < |Earlier(nodes, place)|
    ensures place.Inside? && d < |Earlier(BodyAround(nodes, place), place.rest)|
    ensures
      MentionsOver(env, nodes, place, d + 1, name) <==>
        MentionsOver(InnerEnv(nodes, env, place), BodyAround(nodes, place), place.rest, d, name)
  {
    LevelsInside(nodes, place, d, name);
    assert Top(InnerEnv(nodes, env, place)) == BodyScope(nodes[place.index]);
    hide Earlier, Enclosing, IsPlace, BodyAround, LoopVariable, InnerEnv;
  }

  lemma {:induction false} EnvIsLoop(nodes: seq<Node>, env: seq<Scope>, place: Place, d: nat)
    requires IsPlace(nodes, place) && env != [] && d < |Earlier(nodes, place)|
    ensures
      var at := EnvAt(nodes, env, place);
      && |env| - 1 + d < |at|
      && (at[|env| - 1 + d].isLoopBoundary <==> if d == 0 then Top(env).isLoopBoundary else LoopLevel(nodes, place, d))
    decreases place
  {
    hide *;
    if d == 0 {
      StartingEnv(nodes, env, place, "");
    } else {
      LevelsInside(nodes, place, d - 1, "");
      EnvInside(nodes, env, place);
      EnvIsLoop(BodyAround(nodes, place), InnerEnv(nodes, env, place), place.rest, d - 1);
    }
  }

  /** The walk's scopes at a place hold exactly the names mentioned at each level. */
  lemma EnvIsMentions(nodes: seq<Node>, place: Place, name: string)
    requires IsPlace(nodes, place)
    ensures DefLevels(EnvAt(nodes, Root, place), name) == MentioningLevels(nodes, place, name)
    ensures BoundaryLevels(EnvAt(nodes, Root, place)) == LoopLevels(nodes, place)
  {
    hide EnvAt;
    OuterEnvStays(nodes, Root, place);
    forall d: nat | d < |Earlier(nodes, place)|
      ensures name in EnvAt(nodes, Root, place)[d].defs <==> Mentions(nodes, place, d, name)
      ensures EnvAt(nodes, Root, place)[d].isLoopBoundary <==> LoopLevel(nodes, place, d)
    {
      EnvMentions(nodes, Root, place, d, name);
      EnvIsLoop(nodes, Root, place, d);
    }
  }

  // ----- the places of the reports -----

  /** Program order. */
  predicate PlaceBefore(a: Place, b: Place)
    decreases a
  {
    if a.index != b.index then a.index < b.index
    else if a.Here? then b.Inside?
    else
      && b.Inside?
      && ((!a.inOtherwise && b.inOtherwise) || (a.inOtherwise == b.inOtherwise && PlaceBefore(a.rest, b.rest)))
  }

  ghost predicate InProgramOrder(places: seq<Place>) {
    forall i, j | 0 <= i < j < |places| :: PlaceBefore(places[i], places[j])
  }

  function InBody(inOtherwise: bool, inner: seq<Place>): (places: seq<Place>)
    ensures |places| == |inner|
    ensures forall i | 0 <= i < |inner| :: places[i] == Inside(0, inOtherwise, inner[i])
  {
    seq(|inner|, i requires 0 <= i < |inner| => Inside(0, inOtherwise, inner[i]))
  }

  function OneLater(later: seq<Place>): (places: seq<Place>)
    ensures |places| == |later|
    ensures forall i | 0 <= i < |later| :: places[i] == later[i].(index := later[i].index + 1)
  {
    seq(|later|, i requires 0 <= i < |later| => later[i].(index := later[i].index + 1))
  }

  function BodyPlaces(node: Node, inOtherwise: bool, env: seq<Scope>, path: seq<string>): seq<Place>
    requires HasBody(node, inOtherwise)
    decreases node, 0
  {
    InBody(inOtherwise, ReportPlaces(BodyOf(node, inOtherwise), env + [BodyScope(node)], BodyPath(node, path)))
  }

  function NodePlaces(node: Node, env: seq<Scope>, path: seq<string>): seq<Place>
    requires env != []
    decreases node, 1
  {
    match node
    case Assign(name) => if path != [] && Crosses(env, name) then [Here(0)] else []
    case If(_, _) => BodyPlaces(node, false, env, path) + BodyPlaces(node, true, env, path)
    case _ => if HasBody(node, false) then BodyPlaces(node, false, env, path) else []
  }

  /** The places the walk reports, in the order of its reports. */
  function ReportPlaces(nodes: seq<Node>, env: seq<Scope>, path: seq<string>): seq<Place>
    requires env != []
    decreases nodes, 2
  {
    if nodes == [] then []
    else NodePlaces(nodes[0], env, path) + OneLater(ReportPlaces(nodes[1..], Enter(nodes[0], env), path))
  }

  /** A report tells the name assigned at its place and the loops around it. */
  ghost predicate Tells(nodes: seq<Node>, path: seq<string>, place: Place, report: Report) {
    && IsPlace(nodes, place) && NodeAt(nodes, place) == Assign(report.0)
    && report.1 == LoopsAt(nodes, path, place)
  }

  ghost predicate TellAll(nodes: seq<Node>, path: seq<string>, places: seq<Place>, reports: seq<Report>) {
    && |places| == |reports|
    && forall i | 0 <= i < |places| :: Tells(nodes, path, places[i], reports[i])
  }

  lemma TellBoth(nodes: seq<Node>, path: seq<string>, a: seq<Place>, b: seq<Place>, x: seq<Report>, y: seq<Report>)
    requires TellAll(nodes, path, a, x) && TellAll(nodes, path, b, y)
    ensures TellAll(nodes, path, a + b, x + y)
  {
    hide Tells;
  }

  lemma {:induction false} BodyTells(nodes: seq<Node>, inOtherwise: bool, env: seq<Scope>, path: seq<string>)
    requires nodes != [] && HasBody(nodes[0], inOtherwise)
    ensures TellAll(nodes, path, BodyPlaces(nodes[0], inOtherwise, env, path),
                    WalkBody(nodes[0], BodyOf(nodes[0], inOtherwise), env, path))
    decreases nodes[0], 0
  {
    var node, body := nodes[0], BodyOf(nodes[0], inOtherwise);
    var inner := ReportPlaces(body, env + [BodyScope(node)], BodyPath(node, path));
    ReportsTell(body, env + [BodyScope(node)], BodyPath(node, path));
    forall i | 0 <= i < |inner|
      ensures Tells(nodes, path, Inside(0, inOtherwise, inner[i]), WalkBody(node, body, env, path)[i])
    {
      assert Tells(body, BodyPath(node, path), inner[i], WalkBody(node, body, env, path)[i]);
    }
  }

  lemma {:induction false} NodeTells(nodes: seq<Node>, env: seq<Scope>, path: seq<string>)
    requires nodes != [] && env != []
    ensures TellAll(nodes, path, NodePlaces(nodes[0], env, path), WalkNode(nodes[0], env, path).1)
    decreases nodes[0], 1
  {
    var node := nodes[0];
    match node {
      case If(whenTrue, otherwise) =>
        BodyTells(nodes, false, env, path);
        BodyTells(nodes, true, env, path);
        hide BodyPlaces, WalkBody;
        TellBoth(nodes, path, BodyPlaces(node, false, env, path), BodyPlaces(node, true, env, path),
                 WalkBody(node, whenTrue, env, path), WalkBody(node, otherwise, env, path));
      case Assign(_) =>
      case Let(_) =>
      case Plain =>
      case _ =>
        BodyTells(nodes, false, env, path);
    }
  }

  lemma {:induction false} ReportsTell(nodes: seq<Node>, env: seq<Scope>, path: seq<string>)
    requires env != []
    ensures TellAll(nodes, path, ReportPlaces(nodes, env, path), WalkNodes(nodes, env, path).1)
    decreases nodes, 2
  {
    if nodes != [] {
      var node := nodes[0];
      assert WalkNode(node, env, path).0 == Enter(node, env);
      NodeTells(nodes, env, path);
      ReportsTell(nodes[1..], Enter(node, env), path);
      var rest := ReportPlaces(nodes[1..], Enter(node, env), path);
      var reports := WalkNodes(nodes[1..], Enter(node, env), path).1;
      hide NodePlaces, WalkNode, ReportPlaces, WalkNodes;
      forall i | 0 <= i < |rest|
        ensures Tells(nodes, path, OneLater(rest)[i], reports[i])
      {
        assert Tells(nodes[1..], path, rest[i], reports[i]);
        LaterPlace(nodes, path, rest[i]);
      }
      TellBoth(nodes, path, NodePlaces(node, env, path), OneLater(rest), WalkNode(node, env, path).1, reports);
    }
  }

  /** The same place with one more statement in front. */
  lemma LaterPlace(nodes: seq<Node>, path: seq<string>, place: Place)
    requires nodes != []
    ensures
      var later := place.(index := place.index + 1);
      && (IsPlace(nodes, later) <==> IsPlace(nodes[1..], place))
      && (IsPlace(nodes[1..], place) ==>
            && NodeAt(nodes, later) == NodeAt(nodes[1..], place)
            && LoopsAt(nodes, path, later) == LoopsAt(nodes[1..], path, place))
  {
  }

  // ----- program order -----

  lemma {:induction false} BodyInOrder(node: Node, inOtherwise: bool, env: seq<Scope>, path: seq<string>)
    requires HasBody(node, inOtherwise)
    ensures
      var places := BodyPlaces(node, inOtherwise, env, path);
      InProgramOrder(places) && forall p | p in places :: p.index == 0 && p.Inside? && p.inOtherwise == inOtherwise
    decreases node, 0
  {
    PlacesInOrder(BodyOf(node, inOtherwise), env + [BodyScope(node)], BodyPath(node, path));
  }

  lemma {:induction false} NodeInOrder(node: Node, env: seq<Scope>, path: seq<string>)
    requires env != []
    ensures InProgramOrder(NodePlaces(node, env, path)) && forall p | p in NodePlaces(node, env, path) :: p.index == 0
    decreases node, 1
  {
    if node.If? {
      BodyInOrder(node, true, env, path);
    }
    if HasBody(node, false) {
      BodyInOrder(node, false, env, path);
    }
    hide BodyPlaces;
  }

  lemma {:induction false} PlacesInOrder(nodes: seq<Node>, env: seq<Scope>, path: seq<string>)
    requires env != []
    ensures InProgramOrder(ReportPlaces(nodes, env, path))
    decreases nodes, 2
  {
    if nodes != [] {
      NodeInOrder(nodes[0], env, path);
      PlacesInOrder(nodes[1..], Enter(nodes[0], env), path);
      var here, rest := NodePlaces(nodes[0], env, path), ReportPlaces(nodes[1..], Enter(nodes[0], env), path);
      assert ReportPlaces(nodes, env, path) == here + OneLater(rest);
      hide NodePlaces, ReportPlaces;
      forall i, j | 0 <= i < j < |here| + |rest|
        ensures PlaceBefore((here + OneLater(rest))[i], (here + OneLater(rest))[j])
      {
        if j >= |here| {
          if i >= |here| {
            assert PlaceBefore(rest[i - |here|], rest[j - |here|]);
          } else {
            assert here[i] in here;
          }
        }
      }
    }
  }

  // ----- which places -----

  /** The walk stops at this place to report it. */
  predicate Stops(nodes: seq<Node>, env: seq<Scope>, path: seq<string>, place: Place)
    requires env != []
  {
    && IsPlace(nodes, place) && NodeAt(nodes, place).Assign?
    && LoopsAt(nodes, path, place) != [] && Crosses(EnvAt(nodes, env, place), NodeAt(nodes, place).name)
  }

  lemma {:induction false} BodyStops(nodes: seq<Node>, env: seq<Scope>, path: seq<string>, place: Place)
    requires nodes != [] && env != [] && place.Inside? && place.index == 0 && HasBody(nodes[0], place.inOtherwise)
    ensures place in BodyPlaces(nodes[0], place.inOtherwise, env, path) <==> Stops(nodes, env, path, place)
    decreases nodes[0], 0
  {
    var node, body := nodes[0], BodyOf(nodes[0], place.inOtherwise);
    var inner := env + [BodyScope(node)];
    PlacesStop(body, inner, BodyPath(node, path), place.rest);
    assert nodes[..0] == [] && EnterAll([], env) == env;
    var places := ReportPlaces(body, inner, BodyPath(node, path));
    assert place == Inside(0, place.inOtherwise, place.rest);
    assert Stops(nodes, env, path, place) <==> Stops(body, inner, BodyPath(node, path), place.rest);
    hide ReportPlaces, Stops;
    if place.rest in places {
      var i :| 0 <= i < |places| && places[i] == place.rest;
      assert InBody(place.inOtherwise, places)[i] == place;
    }
  }

  lemma {:induction false} NodeStops(nodes: seq<Node>, env: seq<Scope>, path: seq<string>, place: Place)
    requires nodes != [] && env != [] && place.index == 0
    ensures place in NodePlaces(nodes[0], env, path) <==> Stops(nodes, env, path, place)
    decreases nodes[0], 1
  {
    var node := nodes[0];
    assert nodes[..0] == [] && EnterAll([], env) == env;
    if place.Inside? && HasBody(node, place.inOtherwise) {
      BodyStops(nodes, env, path, place);
    }
    NodeInOrder(node, env, path);
    if HasBody(node, false) { BodyInOrder(node, false, env, path); }
    if node.If? { BodyInOrder(node, true, env, path); }
    hide BodyPlaces, InProgramOrder;
  }

  lemma {:induction false} PlacesStop(nodes: seq<Node>, env: seq<Scope>, path: seq<string>, place: Place)
    requires env != []
    ensures place in ReportPlaces(nodes, env, path) <==> Stops(nodes, env, path, place)
    decreases nodes, 2
  {
    if nodes != [] {
      var here, rest := NodePlaces(nodes[0], env, path), ReportPlaces(nodes[1..], Enter(nodes[0], env), path);
      assert ReportPlaces(nodes, env, path) == here + OneLater(rest);
      InOneLater(rest, place);
      if place.index == 0 {
        NodeStops(nodes, env, path, place);
      } else {
        var sooner := place.(index := place.index - 1);
        PlacesStop(nodes[1..], Enter(nodes[0], env), path, sooner);
        LaterStops(nodes, env, path, sooner);
        NodeInOrder(nodes[0], env, path);
        hide NodePlaces, ReportPlaces, Stops, InProgramOrder;
        assert place !in here && sooner.(index := sooner.index + 1) == place;
        assert place in ReportPlaces(nodes, env, path) <==> Stops(nodes, env, path, place);
      }
    }
  }

  lemma InOneLater(places: seq<Place>, place: Place)
    ensures place in OneLater(places) <==> place.index > 0 && place.(index := place.index - 1) in places
  {
    if place.index > 0 && place.(index := place.index - 1) in places {
      var i :| 0 <= i < |places| && places[i] == place.(index := place.index - 1);
      assert OneLater(places)[i] == place;
    }
  }

  lemma LaterStops(nodes: seq<Node>, env: seq<Scope>, path: seq<string>, place: Place)
    requires nodes != [] && env != []
    ensures
      Stops(nodes, env, path, place.(index := place.index + 1)) <==>
        Stops(nodes[1..], Enter(nodes[0], env), path, place)
  {
    var later := place.(index := place.index + 1);
    LaterPlace(nodes, path, place);
    if IsPlace(nodes, later) {
      assert nodes[..later.index][0] == nodes[0] && nodes[..later.index][1..] == nodes[1..][..place.index];
      assert EnterAll(nodes[..later.index], env) == EnterAll(nodes[1..][..place.index], Enter(nodes[0], env));
      assert EnvAt(nodes, env, later) == EnvAt(nodes[1..], Enter(nodes[0], env), place);
    }
  }

  // ----- main result -----

  lemma StopIsReported(program: seq<Node>, place: Place)
    ensures Stops(program, Root, [], place) <==> exists name, loops :: ReportedAt(program, place, name, loops)
    ensures
      Stops(program, Root, [], place) ==>
        ReportedAt(program, place, NodeAt(program, place).name, LoopsAt(program, [], place))
  {
    if IsPlace(program, place) && NodeAt(program, place).Assign? {
      var name := NodeAt(program, place).name;
      LoopsMean(program, [], place);
      assert [] + LoopVariables(Enclosing(program, place)) == LoopVariables(Enclosing(program, place));
      CrossesMeans(EnvAt(program, Root, place), name);
      EnvIsMentions(program, place, name);
      hide EnvAt, LoopsAt, DefLevels, BoundaryLevels, MentioningLevels, LoopLevels, CrossesLoop, Crosses;
      if Stops(program, Root, [], place) {
        assert ReportedAt(program, place, name, LoopsAt(program, [], place));
      }
    }
  }

  /** The reports stand one by one, in program order, for the assignments that cross a
      loop, each with its name and the loops around it. */
  ghost predicate Lists(program: seq<Node>, places: seq<Place>, reports: seq<Report>) {
    && InProgramOrder(places) && |places| == |reports|
    && (forall place :: place in places <==> exists name, loops :: ReportedAt(program, place, name, loops))
    && (forall i | 0 <= i < |places| :: ReportedAt(program, places[i], reports[i].0, reports[i].1))
  }

  lemma ReportsListAssignments(program: seq<Node>)
    ensures Lists(program, ReportPlaces(program, Root, []), WalkNodes(program, Root, []).1)
  {
    var places, reports := ReportPlaces(program, Root, []), WalkNodes(program, Root, []).1;
    PlacesInOrder(program, Root, []);
    ReportsTell(program, Root, []);
    hide InProgramOrder, ReportPlaces, WalkNodes, ReportedAt, Stops;
    forall place
      ensures place in places <==> exists name, loops :: ReportedAt(program, place, name, loops)
    {
      PlacesStop(program, Root, [], place);
      StopIsReported(program, place);
    }
    forall i | 0 <= i < |places|
      ensures ReportedAt(program, places[i], reports[i].0, reports[i].1)
    {
      assert places[i] in places && Tells(program, [], places[i], reports[i]);
      PlacesStop(program, Root, [], places[i]);
      StopIsReported(program, places[i]);
    }
  }

  /** The entry point: run the walk on a whole program. */
  method WalkSourceAssigns(program: seq<Node>) returns (reports: seq<Report>)
    ensures exists places :: Lists(program, places, reports)
    ensures forall name, loops :: (name, loops) in reports <==> exists place :: CarriesAt(program, place, name, loops)
  {
    var walker := new Walker();
    walker.Walk(program);
    reports := walker.reports;
    assert reports == WalkNodes(program, Root, []).1;
    ReportsListAssignments(program);
    forall name, loops
      ensures (name, loops) in reports <==> exists place :: CarriesAt(program, place, name, loops)
    {
      ReportsAreCarriedAssigns(program, name, loops);
    }
  }
}
