/** What is bound where in a source program, from its statements alone. A place has one
    level per enclosing body: level zero is the program, level d the body of the d-th
    enclosing statement. */
module Bindings {
  import opened SourceWalker

  /** A statement inside a program: an index into the statement list, or one into
      a body of the statement at an index. */
  datatype Place = Here(index: nat) | Inside(index: nat, inOtherwise: bool, rest: Place)

  predicate HasBody(node: Node, inOtherwise: bool) {
    if node.If? then true else !inOtherwise && (node.Block? || node.Loop? || node.Region?)
  }

  function BodyOf(node: Node, inOtherwise: bool): (body: seq<Node>)
    requires HasBody(node, inOtherwise)
    ensures IsBody(node, body)
  {
    match node
    case Block(stmts) => stmts
    case If(whenTrue, otherwise) => if inOtherwise then otherwise else whenTrue
    case Loop(_, body) => body
    case Region(body) => body
  }

  predicate IsPlace(nodes: seq<Node>, place: Place)
    decreases place
  {
    match place
    case Here(i) => i < |nodes|
    case Inside(i, o, rest) => i < |nodes| && HasBody(nodes[i], o) && IsPlace(BodyOf(nodes[i], o), rest)
  }

  function NodeAt(nodes: seq<Node>, place: Place): Node
    requires IsPlace(nodes, place)
    decreases place
  {
    match place
    case Here(i) => nodes[i]
    case Inside(i, o, rest) => NodeAt(BodyOf(nodes[i], o), rest)
  }

  /** The outermost body a place is in. */
  function BodyAround(nodes: seq<Node>, place: Place): (body: seq<Node>)
    requires IsPlace(nodes, place) && place.Inside?
    ensures IsPlace(body, place.rest)
  {
    BodyOf(nodes[place.index], place.inOtherwise)
  }

  /** The statements whose bodies a place is in, outermost first. */
  function Enclosing(nodes: seq<Node>, place: Place): seq<Node>
    requires IsPlace(nodes, place)
    decreases place
  {
    match place
    case Here(_) => []
    case Inside(i, o, rest) => [nodes[i]] + Enclosing(BodyOf(nodes[i], o), rest)
  }

  /** The statements before a place, level by level. */
  function Earlier(nodes: seq<Node>, place: Place): (levels: seq<seq<Node>>)
    requires IsPlace(nodes, place)
    ensures |levels| == |Enclosing(nodes, place)| + 1
    decreases place
  {
    match place
    case Here(i) => [nodes[..i]]
    case Inside(i, o, rest) => [nodes[..i]] + Earlier(BodyOf(nodes[i], o), rest)
  }

  /** Level `d` is the body of a loop. */
  predicate LoopLevel(nodes: seq<Node>, place: Place, d: nat)
    requires IsPlace(nodes, place)
  {
    0 < d <= |Enclosing(nodes, place)| && Enclosing(nodes, place)[d - 1].Loop?
  }

  /** Level `d` is the body of a loop over `name`. */
  predicate LoopVariable(nodes: seq<Node>, place: Place, d: nat, name: string)
    requires IsPlace(nodes, place)
  {
    LoopLevel(nodes, place, d) && Enclosing(nodes, place)[d - 1].loopVar == name
  }

  /** Inside a body every level is one further in. */
  lemma LevelsInside(nodes: seq<Node>, place: Place, d: nat, name: string)
    requires IsPlace(nodes, place) && d + 1 < |Earlier(nodes, place)|
    ensures place.Inside?
    ensures
      var body, node := BodyAround(nodes, place), nodes[place.index];
      && |Earlier(nodes, place)| == |Earlier(body, place.rest)| + 1
      && Earlier(nodes, place)[d + 1] == Earlier(body, place.rest)[d]
      && (LoopLevel(nodes, place, d + 1) <==> if d == 0 then node.Loop? else LoopLevel(body, place.rest, d))
      && (LoopVariable(nodes, place, d + 1, name) <==>
            if d == 0 then node.Loop? && node.loopVar == name else LoopVariable(body, place.rest, d, name))
  {
    var body := BodyAround(nodes, place);
    assert Earlier(nodes, place) == [nodes[..place.index]] + Earlier(body, place.rest);
    assert Enclosing(nodes, place) == [nodes[place.index]] + Enclosing(body, place.rest);
    hide Earlier, Enclosing, IsPlace, BodyAround;
    if d > 0 {
      assert Enclosing(nodes, place)[d] == Enclosing(body, place.rest)[d - 1];
    }
  }

  /** A let or a loop variable declares `name` at level `d`. */
  predicate Declares(nodes: seq<Node>, place: Place, d: nat, name: string)
    requires IsPlace(nodes, place)
  {
    && d < |Earlier(nodes, place)|
    && (LoopVariable(nodes, place, d, name) || Let(name) in Earlier(nodes, place)[d])
  }

  /** `name` is bound at level `d`: declared there, or assigned there before and bound
      at no level further out. */
  predicate Binds(nodes: seq<Node>, place: Place, d: nat, name: string)
    requires IsPlace(nodes, place)
    decreases d, 1
  {
    && d < |Earlier(nodes, place)|
    && (|| Declares(nodes, place, d, name)
        || (Assign(name) in Earlier(nodes, place)[d] && !BoundBelow(nodes, place, d, name)))
  }

  /** `name` is bound at one of the first `d` levels. */
  predicate BoundBelow(nodes: seq<Node>, place: Place, d: nat, name: string)
    requires IsPlace(nodes, place)
    decreases d, 0
  {
    d > 0 && (Binds(nodes, place, d - 1, name) || BoundBelow(nodes, place, d - 1, name))
  }

  lemma {:induction false} BoundOnceBelow(nodes: seq<Node>, place: Place, e: nat, d: nat, name: string)
    requires IsPlace(nodes, place) && e < d && Binds(nodes, place, e, name)
    ensures BoundBelow(nodes, place, d, name)
  {
    if e < d - 1 {
      BoundOnceBelow(nodes, place, e, d - 1, name);
    }
  }

  /** `name` is declared or assigned at level `d` before the place. */
  predicate Mentions(nodes: seq<Node>, place: Place, d: nat, name: string)
    requires IsPlace(nodes, place)
  {
    && d < |Earlier(nodes, place)|
    && (Declares(nodes, place, d, name) || Assign(name) in Earlier(nodes, place)[d])
  }

  function LoopLevels(nodes: seq<Node>, place: Place): set<nat>
    requires IsPlace(nodes, place)
  {
    set d: nat | d < |Earlier(nodes, place)| && LoopLevel(nodes, place, d)
  }

  function DeclaringLevels(nodes: seq<Node>, place: Place, name: string): set<nat>
    requires IsPlace(nodes, place)
  {
    set d: nat | d < |Earlier(nodes, place)| && Declares(nodes, place, d, name)
  }

  function BindingLevels(nodes: seq<Node>, place: Place, name: string): set<nat>
    requires IsPlace(nodes, place)
  {
    set d: nat | d < |Earlier(nodes, place)| && Binds(nodes, place, d, name)
  }

  function MentioningLevels(nodes: seq<Node>, place: Place, name: string): set<nat>
    requires IsPlace(nodes, place)
  {
    set d: nat | d < |Earlier(nodes, place)| && Mentions(nodes, place, d, name)
  }

  /** The innermost of these levels is a loop's own or outside a loop. */
  ghost predicate CrossesLoop(levels: set<nat>, loops: set<nat>) {
    exists d :: d in levels && (forall e | e in levels :: e <= d) && exists l :: l in loops && d <= l
  }

  /** The variables of the loops among these statements. */
  function LoopVariables(enclosing: seq<Node>): seq<string> {
    if enclosing == [] then []
    else (if enclosing[0].Loop? then [enclosing[0].loopVar] else []) + LoopVariables(enclosing[1..])
  }

  /** An assignment to `name` inside loops over these variables. */
  predicate AssignsIn(nodes: seq<Node>, place: Place, name: string, loops: seq<string>) {
    && IsPlace(nodes, place) && NodeAt(nodes, place) == Assign(name)
    && loops == LoopVariables(Enclosing(nodes, place)) != []
  }

  /** Its nearest binding is in the innermost loop's own scope or further out. */
  ghost predicate CarriesAt(nodes: seq<Node>, place: Place, name: string, loops: seq<string>) {
    && AssignsIn(nodes, place, name, loops)
    && CrossesLoop(BindingLevels(nodes, place, name), LoopLevels(nodes, place))
  }

  /** The same for lets and loop variables alone. */
  ghost predicate CarriesDeclaredAt(nodes: seq<Node>, place: Place, name: string, loops: seq<string>) {
    && AssignsIn(nodes, place, name, loops)
    && CrossesLoop(DeclaringLevels(nodes, place, name), LoopLevels(nodes, place))
  }

  /** The walk reports this very assignment: an earlier assignment to the name counts
      like a declaration of it. */
  ghost predicate ReportedAt(nodes: seq<Node>, place: Place, name: string, loops: seq<string>) {
    && AssignsIn(nodes, place, name, loops)
    && CrossesLoop(MentioningLevels(nodes, place, name), LoopLevels(nodes, place))
  }

  /** Every assigned name has an earlier visible let or loop variable. */
  ghost predicate WellScoped(nodes: seq<Node>) {
    forall place | IsPlace(nodes, place) && NodeAt(nodes, place).Assign? ::
      DeclaringLevels(nodes, place, NodeAt(nodes, place).name) != {}
  }

  // ----- in a well-scoped program only declarations bind -----

  /** The place of statement `j` at level `d` around a place. */
  function EarlierPlace(place: Place, d: nat, j: nat): Place
    decreases place
  {
    match place
    case Here(_) => Here(j)
    case Inside(i, o, rest) => if d == 0 then Here(j) else Inside(i, o, EarlierPlace(rest, d - 1, j))
  }

  lemma {:induction false} EarlierPlaceMeans(nodes: seq<Node>, place: Place, d: nat, j: nat)
    requires IsPlace(nodes, place) && d < |Earlier(nodes, place)| && j < |Earlier(nodes, place)[d]|
    ensures
      var earlier := EarlierPlace(place, d, j);
      && IsPlace(nodes, earlier) && NodeAt(nodes, earlier) == Earlier(nodes, place)[d][j]
      && Enclosing(nodes, earlier) == Enclosing(nodes, place)[..d]
      && Earlier(nodes, earlier) == Earlier(nodes, place)[..d] + [Earlier(nodes, place)[d][..j]]
    decreases place
  {
    match place {
      case Here(i) =>
        assert nodes[..i][..j] == nodes[..j];
      case Inside(i, o, rest) =>
        if d == 0 {
          assert nodes[..i][..j] == nodes[..j];
        } else {
          var body := BodyOf(nodes[i], o);
          EarlierPlaceMeans(body, rest, d - 1, j);
          var inner := EarlierPlace(rest, d - 1, j);
          assert Earlier(nodes, Inside(i, o, inner)) == [nodes[..i]] + Earlier(body, inner);
          assert Enclosing(nodes, Inside(i, o, inner)) == [nodes[i]] + Enclosing(body, inner);
          var levels := Earlier(body, rest);
          assert Earlier(nodes, place) == [nodes[..i]] + levels;
          hide Earlier, Enclosing, BodyOf, IsPlace, NodeAt;
          assert ([nodes[..i]] + levels)[..d] == [nodes[..i]] + levels[..d - 1];
          assert ([nodes[i]] + Enclosing(body, rest))[..d] == [nodes[i]] + Enclosing(body, rest)[..d - 1];
        }
    }
  }

  lemma WellScopedBinds(nodes: seq<Node>, place: Place, d: nat, name: string)
    requires WellScoped(nodes) && IsPlace(nodes, place) && Binds(nodes, place, d, name)
    ensures Declares(nodes, place, d, name)
  {
    if !Declares(nodes, place, d, name) {
      var j :| 0 <= j < |Earlier(nodes, place)[d]| && Earlier(nodes, place)[d][j] == Assign(name);
      var earlier := EarlierPlace(place, d, j);
      EarlierPlaceMeans(nodes, place, d, j);
      var e :| e in DeclaringLevels(nodes, earlier, name);
      DeclaredEarlier(nodes, place, earlier, d, j, e, name);
      if e < d { BoundOnceBelow(nodes, place, e, d, name); }
    }
  }

  lemma DeclaredEarlier(nodes: seq<Node>, place: Place, earlier: Place, d: nat, j: nat, e: nat, name: string)
    requires IsPlace(nodes, place) && d < |Earlier(nodes, place)| && j <= |Earlier(nodes, place)[d]|
    requires IsPlace(nodes, earlier) && Enclosing(nodes, earlier) == Enclosing(nodes, place)[..d]
    requires Earlier(nodes, earlier) == Earlier(nodes, place)[..d] + [Earlier(nodes, place)[d][..j]]
    requires Declares(nodes, earlier, e, name)
    ensures e <= d && Declares(nodes, place, e, name) && Binds(nodes, place, e, name)
  {
    hide Earlier, Enclosing;
  }

  lemma WellScopedCarries(nodes: seq<Node>, place: Place, name: string, loops: seq<string>)
    requires WellScoped(nodes)
    ensures CarriesAt(nodes, place, name, loops) <==> CarriesDeclaredAt(nodes, place, name, loops)
  {
    if IsPlace(nodes, place) {
      forall d: nat | d < |Earlier(nodes, place)|
        ensures Binds(nodes, place, d, name) <==> Declares(nodes, place, d, name)
      {
        if Binds(nodes, place, d, name) {
          WellScopedBinds(nodes, place, d, name);
        }
      }
      assert BindingLevels(nodes, place, name) == DeclaringLevels(nodes, place, name);
    }
  }

  /** An assignment to the innermost loop's own variable carries it, unless a let of that
      name stands in between. */
  lemma LoopVariableCarries(nodes: seq<Node>, place: Place, name: string, d: nat)
    requires IsPlace(nodes, place) && NodeAt(nodes, place) == Assign(name)
    requires LoopVariable(nodes, place, d, name)
    requires forall e | d < e < |Earlier(nodes, place)| :: Let(name) !in Earlier(nodes, place)[e]
    requires forall e | d < e < |Earlier(nodes, place)| :: !LoopLevel(nodes, place, e)
    ensures CarriesAt(nodes, place, name, LoopVariables(Enclosing(nodes, place)))
  {
    assert Declares(nodes, place, d, name) && Binds(nodes, place, d, name);
    forall e | e in BindingLevels(nodes, place, name)
      ensures e <= d
    {
      assert Binds(nodes, place, e, name);
      if e > d { BoundOnceBelow(nodes, place, d, e, name); }
    }
    assert d in BindingLevels(nodes, place, name) && d in LoopLevels(nodes, place);
    HasLoopVariable(Enclosing(nodes, place), d - 1);
  }

  lemma {:induction false} HasLoopVariable(enclosing: seq<Node>, i: nat)
    requires i < |enclosing| && enclosing[i].Loop?
    ensures LoopVariables(enclosing) != []
  {
    if i > 0 {
      HasLoopVariable(enclosing[1..], i - 1);
    }
  }
}
