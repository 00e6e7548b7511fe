/** Lowered kernel bodies: a flat op list with nested child bodies. */
module KernelIr {
  import opened Machine

  /** An op kind with its rendered text, payload included. Only the matrix op differs
      structurally: it defines four consecutive ids. */
  datatype OpKind = MatrixMma(text: string) | OtherKind(text: string)

  datatype Op = Op(kind: OpKind, operands: seq<u32>, result: Option<u32>)

  datatype KernelBody = KernelBody(ops: seq<Op>, children: seq<KernelBody>)

  /** Every id an op defines; ids beyond 32 bits are dropped. */
  function ResultIds(op: Op): seq<u32> {
    match op.result
    case None => []
    case Some(id) => if op.kind.MatrixMma? then IdsFrom(id, 4) else [id]
  }

  function IdsFrom(base: u32, count: nat): seq<u32> {
    if count == 0 then []
    else IdsFrom(base, count - 1) + if base + count - 1 <= U32_MAX then [base + count - 1] else []
  }

  lemma {:induction false} IdsFromMeans(base: u32, count: nat, id: u32)
    ensures id in IdsFrom(base, count) <==> base <= id < base + count
  {
    if count > 0 {
      IdsFromMeans(base, count - 1, id);
    }
  }

  /** An op defines its result, and the matrix op also the three ids after it, as
      far as they fit. */
  lemma ResultIdsMeans(op: Op, id: u32)
    ensures id in ResultIds(op) <==>
              op.result.Some? && op.result.value <= id < op.result.value + if op.kind.MatrixMma? then 4 else 1
  {
    if op.result.Some? {
      IdsFromMeans(op.result.value, 4, id);
    }
  }

  /** A body of the tree by the child indices leading to it. */
  type Path = seq<nat>

  predicate IsBodyPath(body: KernelBody, path: Path)
    decreases |path|
  {
    path == [] || (path[0] < |body.children| && IsBodyPath(body.children[path[0]], path[1..]))
  }

  function BodyAt(body: KernelBody, path: Path): KernelBody
    requires IsBodyPath(body, path)
    decreases |path|
  {
    if path == [] then body else BodyAt(body.children[path[0]], path[1..])
  }

  /** A place in the body tree: an op of a body, and one of its operands or results. */
  datatype Site = Site(path: Path, op: nat, slot: nat)

  /** Result `slot` of an op in the tree defines `id`. */
  predicate Produces(body: KernelBody, s: Site, id: u32) {
    && IsBodyPath(body, s.path)
    && s.op < |BodyAt(body, s.path).ops|
    && s.slot < |ResultIds(BodyAt(body, s.path).ops[s.op])|
    && ResultIds(BodyAt(body, s.path).ops[s.op])[s.slot] == id
  }

  /** Some op of the tree defines `id`. */
  ghost predicate ProducedIn(body: KernelBody, id: u32) {
    exists s :: Produces(body, s, id)
  }

  /** What a child produces, the body produces one level down. */
  lemma ProducesBelow(body: KernelBody, c: nat, s: Site, id: u32)
    requires c < |body.children|
    ensures Produces(body, s.(path := [c] + s.path), id) <==> Produces(body.children[c], s, id)
  {
    hide ResultIds;
    assert ([c] + s.path)[1..] == s.path;
  }
}
