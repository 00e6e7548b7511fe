/** The walk over a source program that reports the in-loop assignments it takes to
    carry a value across a loop boundary. */
module SourceWalker {

  /** A source statement; every statement without a body of its own that is
      neither a let nor an assignment is `Plain`. */
  datatype Node =
    | Let(name: string)
    | Assign(name: string)
    | Block(stmts: seq<Node>)
    | If(whenTrue: seq<Node>, otherwise: seq<Node>)
    | Loop(loopVar: string, loopBody: seq<Node>)
    | Region(regionBody: seq<Node>)
    | Plain

  datatype Scope = Scope(isLoopBoundary: bool, defs: set<string>)

  /** A reported assignment: the assigned name and the enclosing loop variables. */
  type Report = (string, seq<string>)

  const Root := [Scope(false, {})]

  function Top(env: seq<Scope>): Scope
    requires env != []
  {
    env[|env| - 1]
  }

  function Pop(env: seq<Scope>): seq<Scope>
    requires env != []
  {
    env[..|env| - 1]
  }

  /** Define a name in the innermost scope. */
  function Define(env: seq<Scope>, name: string): (defined: seq<Scope>)
    requires env != []
    ensures |defined| == |env|
  {
    Pop(env) + [Top(env).(defs := Top(env).defs + {name})]
  }

  predicate Bound(env: seq<Scope>, name: string) {
    env != [] && (name in Top(env).defs || Bound(Pop(env), name))
  }

  /** The nearest definition sits in a loop's own scope or outside a loop. */
  predicate Crosses(env: seq<Scope>, name: string) {
    && env != []
    && if name in Top(env).defs then Top(env).isLoopBoundary
       else if Top(env).isLoopBoundary then Bound(Pop(env), name)
       else Crosses(Pop(env), name)
  }

  predicate IsBody(node: Node, body: seq<Node>) {
    match node
    case Block(stmts) => body == stmts
    case If(whenTrue, otherwise) => body == whenTrue || body == otherwise
    case Loop(_, loopBody) => body == loopBody
    case Region(regionBody) => body == regionBody
    case _ => false
  }

  /** The scope a nested body starts with. */
  function BodyScope(node: Node): Scope {
    if node.Loop? then Scope(true, {node.loopVar}) else Scope(false, {})
  }

  function BodyPath(node: Node, path: seq<string>): seq<string> {
    if node.Loop? then path + [node.loopVar] else path
  }

  // ----- what the walk does -----

  function WalkBody(node: Node, body: seq<Node>, env: seq<Scope>, path: seq<string>): seq<Report>
    requires IsBody(node, body)
    decreases node, 0
  {
    WalkNodes(body, env + [BodyScope(node)], BodyPath(node, path)).1
  }

  function WalkNode(node: Node, env: seq<Scope>, path: seq<string>): (out: (seq<Scope>, seq<Report>))
    requires env != []
    ensures out.0 != []
    decreases node, 1
  {
    match node
    case Let(name) => (Define(env, name), [])
    case Assign(name) => (Define(env, name), if path != [] && Crosses(env, name) then [(name, path)] else [])
    case Block(stmts) => (env, WalkBody(node, stmts, env, path))
    case If(whenTrue, otherwise) => (env, WalkBody(node, whenTrue, env, path) + WalkBody(node, otherwise, env, path))
    case Loop(_, body) => (env, WalkBody(node, body, env, path))
    case Region(body) => (env, WalkBody(node, body, env, path))
    case Plain => (env, [])
  }

  function WalkNodes(nodes: seq<Node>, env: seq<Scope>, path: seq<string>): (out: (seq<Scope>, seq<Report>))
    requires env != []
    ensures out.0 != []
    decreases nodes, 2
  {
    if nodes == [] then (env, [])
    else
      var (env1, reports1) := WalkNode(nodes[0], env, path);
      var (env2, reports2) := WalkNodes(nodes[1..], env1, path);
      (env2, reports1 + reports2)
  }

  /** Only the innermost scope changes, and it only gains names. */
  lemma {:induction false} WalkKeepsOuterScopes(nodes: seq<Node>, env: seq<Scope>, path: seq<string>)
    requires env != []
    ensures
      var after := WalkNodes(nodes, env, path).0;
      && |after| == |env|
      && Pop(after) == Pop(env)
    decreases |nodes|
  {
    if nodes != [] {
      WalkKeepsOuterScopes(nodes[1..], WalkNode(nodes[0], env, path).0, path);
    }
  }

  class Walker {
    var env: seq<Scope>
    var loopPath: seq<string>
    var reports: seq<Report>

    constructor ()
      ensures env == Root && loopPath == [] && reports == []
    {
      env, loopPath, reports := Root, [], [];
    }

    method Insert(name: string)
      requires env != []
      modifies this`env
      ensures env == Define(old(env), name)
    {
      env := Define(env, name);
    }

    /** Scan the scopes from the innermost outwards, counting loop boundaries. */
    method DefinedOutsideLoop(name: string) returns (outside: bool)
      ensures outside <==> Crosses(env, name)
    {
      outside := false;
      var crossed := 0;
      var depth := |env|;
      assert env[..depth] == env;
      while depth > 0
        invariant 0 <= depth <= |env|
        invariant crossed == 0 ==> (Crosses(env, name) <==> Crosses(env[..depth], name))
        invariant crossed > 0 ==> (Crosses(env, name) <==> Bound(env[..depth], name))
        invariant crossed >= 0 && !outside
      {
        var scope := env[depth - 1];
        assert env[..depth] == env[..depth - 1] + [scope];
        assert Top(env[..depth]) == scope && Pop(env[..depth]) == env[..depth - 1];
        if scope.isLoopBoundary {
          crossed := crossed + 1;
        }
        if name in scope.defs {
          outside := crossed > 0;
          return;
        }
        depth := depth - 1;
      }
      assert env[..0] == [];
    }

    method WalkIn(node: Node, body: seq<Node>)
      requires env != [] && IsBody(node, body)
      modifies this
      ensures env == old(env) && loopPath == old(loopPath)
      ensures reports == old(reports) + WalkBody(node, body, old(env), old(loopPath))
      decreases node, 0
    {
      ghost var outer := env;
      if node.Loop? {
        loopPath := loopPath + [node.loopVar];
      }
      env := env + [Scope(node.Loop?, {})];
      if node.Loop? {
        Insert(node.loopVar);
        assert Top(env).defs == {node.loopVar};
      }
      assert env == outer + [BodyScope(node)];
      WalkKeepsOuterScopes(body, env, loopPath);
      Walk(body);
      env := env[..|env| - 1];
      assert env == outer;
      if node.Loop? {
        loopPath := loopPath[..|loopPath| - 1];
      }
    }

    /** One statement. */
    method WalkStep(node: Node)
      requires env != []
      modifies this
      ensures loopPath == old(loopPath)
      ensures env == WalkNode(node, old(env), old(loopPath)).0
      ensures reports == old(reports) + WalkNode(node, old(env), old(loopPath)).1
      decreases node, 1
    {
      hide Define, Crosses, WalkBody;
      match node {
        case Let(name) =>
          Insert(name);
        case Assign(name) =>
          if loopPath != [] {
            var outside := DefinedOutsideLoop(name);
            if outside {
              reports := reports + [(name, loopPath)];
            }
          }
          Insert(name);
        case Block(stmts) =>
          WalkIn(node, stmts);
        case If(whenTrue, otherwise) =>
          WalkIn(node, whenTrue);
          WalkIn(node, otherwise);
        case Loop(_, body) =>
          WalkIn(node, body);
        case Region(body) =>
          WalkIn(node, body);
        case Plain =>
      }
    }

    method Walk(nodes: seq<Node>)
      requires env != []
      modifies this
      ensures loopPath == old(loopPath)
      ensures (env, reports) == (WalkNodes(nodes, old(env), old(loopPath)).0,
                                 old(reports) + WalkNodes(nodes, old(env), old(loopPath)).1)
      decreases nodes, 1
    {
      hide WalkNode;
      var i := 0;
      while i < |nodes|
        invariant 0 <= i <= |nodes|
        invariant env != [] && loopPath == old(loopPath)
        invariant
          var rest := WalkNodes(nodes[i..], env, loopPath);
          var all := WalkNodes(nodes, old(env), old(loopPath));
          rest.0 == all.0 && reports + rest.1 == old(reports) + all.1
      {
        assert nodes[i..][0] == nodes[i] && nodes[i..][1..] == nodes[i + 1..];
        WalkStep(nodes[i]);
        i := i + 1;
      }
      assert nodes[i..] == [];
      assert WalkNodes(nodes[i..], env, loopPath) == (env, []);
      assert reports + [] == reports;
    }
  }
}
