/** Backend-neutral megakernel topology selection and device-memory planning.
    Floating-point telemetry is a real number or one of the non-finite values;
    rounding inside the float unit is not modelled. */
module Topology {
  import opened Machine

  datatype Float = Finite(value: real) | Infinite(negative: bool) | NotANumber

  datatype ExecutionTopology =
    | WarpSparseFrontier
    | SparseFrontier
    | BlockDenseFrontier
    | DenseFrontier
    | HybridFrontier
    | FusedWave

  datatype Sample = Sample(dispatchCostNs: Float, frontierDensity: Float, readbackBytes: u64)

  datatype GraphShape = GraphShape(nodeCount: u64, edgeCount: u64)

  datatype MemoryBudget = MemoryBudget(requiredBytes: u64, budgetBytes: u64)

  datatype Decision = Decision(topology: ExecutionTopology, memoryPressureBps: u32,
                               averageDegreeBps: u64, launchPressureBps: u32)

  datatype Sizes = Sizes(bytesPerNode: u64, bytesPerEdge: u64, frontierBytes: u64,
                         scratchBytes: u64, outputBytes: u64)

  datatype MemoryPlan = MemoryPlan(graphBytes: u64, frontierBytes: u64, scratchBytes: u64, outputBytes: u64,
                                   requiredBytes: u64, budgetBytes: u64, memoryPressureBps: u32)

  datatype MemoryError =
    | ByteCountOverflow
    | OverBudget(topology: ExecutionTopology, requiredBytes: u64, budgetBytes: u64, nodeCount: u64, edgeCount: u64)

  datatype ExecutionPlan = ExecutionPlan(topology: ExecutionTopology, memory: MemoryPlan, downgradedToSparse: bool)

  const MEMORY_RED_ZONE_BPS := 9000
  const MEMORY_HYSTERESIS_BPS := 250
  const FUSION_MEMORY_MARGIN_BPS := 500
  const LAUNCH_PRESSURE_BPS := 1500
  const LAUNCH_HYSTERESIS_BPS := 250
  const FUSION_READBACK_BYTES := 4096
  const DENSE_AVERAGE_DEGREE_BPS := 20000
  const WARP_SPARSE_AVERAGE_DEGREE_BPS := 80000
  const WARP_SPARSE_DENSITY := 0.03125
  const SPARSE_DENSITY := 0.125
  const DENSE_DENSITY := 0.70
  const BLOCK_DENSE_DENSITY := 0.85
  const FUSION_PRESSURE := 0.70
  const FUSION_PRESSURE_HYSTERESIS := 0.10
  const FRONTIER_HYSTERESIS := 0.025

  /** A float clamped to the unit interval; anything non-finite counts as zero. */
  function FiniteUnit(x: Float): real {
    match x
    case Finite(v) => if v < 0.0 then 0.0 else if v > 1.0 then 1.0 else v
    case _ => 0.0
  }

  function RatioBpsWide(numerator: u64, denominator: u64): u64 {
    if denominator == 0 then
      if numerator == 0 then 0 else U64_MAX
    else
      var value := numerator * 10000 / denominator;
      if value > U64_MAX then U64_MAX else value
  }

  function PressureBps(numerator: u64, denominator: u64): u32 {
    Min(RatioBpsWide(numerator, denominator), 10000)
  }

  /** Launch overhead over dispatch cost in rounded basis points. */
  function LaunchPressureBps(dispatchCostNs: Float, launchOverheadNs: Float): u32 {
    match dispatchCostNs
    case Finite(cost) =>
      if cost <= 0.0 then 0 else
        (match launchOverheadNs
         case Finite(overhead) =>
           if overhead <= 0.0 then 0 else
             var rounded := (overhead / cost * 10000.0 + 0.5).Floor;
             if rounded <= 0 then 0 else if rounded > U32_MAX then U32_MAX else rounded
         case Infinite(negative) => if negative then 0 else U32_MAX
         case NotANumber => 0)
    case _ => 0
  }

  function Select(sample: Sample, graph: GraphShape, memory: MemoryBudget, launchOverheadNs: Float,
                  fusionPressure: Float): Decision
  {
    var memoryBps := PressureBps(memory.requiredBytes, memory.budgetBytes);
    var degreeBps := RatioBpsWide(graph.edgeCount, graph.nodeCount);
    var launchBps := LaunchPressureBps(sample.dispatchCostNs, launchOverheadNs);
    var density := FiniteUnit(sample.frontierDensity);
    var fusion := FiniteUnit(fusionPressure);
    var topology :=
      if memoryBps >= MEMORY_RED_ZONE_BPS then
        SparseFrontier
      else if && fusion >= FUSION_PRESSURE
              && launchBps >= LAUNCH_PRESSURE_BPS
              && sample.readbackBytes >= FUSION_READBACK_BYTES
              && memoryBps <= MEMORY_RED_ZONE_BPS - FUSION_MEMORY_MARGIN_BPS then
        FusedWave
      else if density <= WARP_SPARSE_DENSITY && degreeBps <= WARP_SPARSE_AVERAGE_DEGREE_BPS then
        WarpSparseFrontier
      else if density <= SPARSE_DENSITY then
        SparseFrontier
      else if density >= BLOCK_DENSE_DENSITY && degreeBps >= DENSE_AVERAGE_DEGREE_BPS then
        BlockDenseFrontier
      else if density >= DENSE_DENSITY && degreeBps >= DENSE_AVERAGE_DEGREE_BPS then
        DenseFrontier
      else
        HybridFrontier;
    Decision(topology, memoryBps, degreeBps, launchBps)
  }

  /** The topology after hysteresis against the previous choice. */
  function Stabilize(decision: Decision, sample: Sample, fusionPressure: Float,
                     previous: ExecutionTopology): ExecutionTopology
  {
    var density := FiniteUnit(sample.frontierDensity);
    var fusion := FiniteUnit(fusionPressure);
    if decision.memoryPressureBps >= MEMORY_RED_ZONE_BPS then
      decision.topology
    else if && (previous.SparseFrontier? || previous.WarpSparseFrontier?)
            && decision.memoryPressureBps >= MEMORY_RED_ZONE_BPS - MEMORY_HYSTERESIS_BPS then
      SparseFrontier
    else
      match previous
      case WarpSparseFrontier =>
        if && density <= WARP_SPARSE_DENSITY + FRONTIER_HYSTERESIS
           && decision.averageDegreeBps <= WARP_SPARSE_AVERAGE_DEGREE_BPS then
          WarpSparseFrontier
        else decision.topology
      case SparseFrontier =>
        if density <= SPARSE_DENSITY + FRONTIER_HYSTERESIS then SparseFrontier else decision.topology
      case HybridFrontier =>
        if decision.topology.SparseFrontier? && density >= SPARSE_DENSITY - FRONTIER_HYSTERESIS then
          HybridFrontier
        else if && (decision.topology.DenseFrontier? || decision.topology.BlockDenseFrontier?)
                && density <= DENSE_DENSITY + FRONTIER_HYSTERESIS then
          HybridFrontier
        else decision.topology
      case DenseFrontier =>
        if && density >= DENSE_DENSITY - FRONTIER_HYSTERESIS
           && decision.averageDegreeBps >= DENSE_AVERAGE_DEGREE_BPS then
          DenseFrontier
        else decision.topology
      case BlockDenseFrontier =>
        if && density >= BLOCK_DENSE_DENSITY - FRONTIER_HYSTERESIS
           && decision.averageDegreeBps >= DENSE_AVERAGE_DEGREE_BPS then
          BlockDenseFrontier
        else decision.topology
      case FusedWave =>
        if && fusion >= FUSION_PRESSURE - FUSION_PRESSURE_HYSTERESIS
           && decision.launchPressureBps >= LAUNCH_PRESSURE_BPS - LAUNCH_HYSTERESIS_BPS
           && sample.readbackBytes >= FUSION_READBACK_BYTES
           && decision.memoryPressureBps <= MEMORY_RED_ZONE_BPS - MEMORY_HYSTERESIS_BPS then
          FusedWave
        else decision.topology
  }

  /** Selection with the previous topology, when there is one. */
  function SelectAfter(previous: Option<ExecutionTopology>, sample: Sample, graph: GraphShape, memory: MemoryBudget,
                       launchOverheadNs: Float, fusionPressure: Float): Decision
  {
    var decision := Select(sample, graph, memory, launchOverheadNs, fusionPressure);
    match previous
    case None => decision
    case Some(topology) => decision.(topology := Stabilize(decision, sample, fusionPressure, topology))
  }

  /** Under constant telemetry, feeding the choice back settles after at most one
      correction: the only unstable answer is a warp-sparse wave inside the memory
      hysteresis band, and it moves to sparse and stays there. */
  lemma HysteresisSettles(previous: ExecutionTopology, sample: Sample, graph: GraphShape, memory: MemoryBudget,
                          launchOverheadNs: Float, fusionPressure: Float)
    ensures
      var decision := Select(sample, graph, memory, launchOverheadNs, fusionPressure);
      var once := Stabilize(decision, sample, fusionPressure, previous);
      var twice := Stabilize(decision, sample, fusionPressure, once);
      && Stabilize(decision, sample, fusionPressure, twice) == twice
      && (twice != once <==>
            && once.WarpSparseFrontier?
            && MEMORY_RED_ZONE_BPS - MEMORY_HYSTERESIS_BPS <= decision.memoryPressureBps < MEMORY_RED_ZONE_BPS)
      && (twice != once ==> twice.SparseFrontier?)
  {
  }

  /** With no fusion pressure neither selector ever fuses, whatever came before. */
  lemma NoPressureNeverFuses(previous: Option<ExecutionTopology>, sample: Sample, graph: GraphShape,
                             memory: MemoryBudget, launchOverheadNs: Float)
    ensures !SelectAfter(previous, sample, graph, memory, launchOverheadNs, Finite(0.0)).topology.FusedWave?
  {
  }

  // ----- memory planning -----

  function Add(a: u64, b: u64): Result<u64, MemoryError> {
    match CheckedAdd(a, b)
    case Some(sum) => Ok(sum)
    case None => Err(ByteCountOverflow)
  }

  function Mul(a: u64, b: u64): Result<u64, MemoryError> {
    match CheckedMul(a, b)
    case Some(product) => Ok(product)
    case None => Err(ByteCountOverflow)
  }

  function ScratchBytes(topology: ExecutionTopology, base: u64): Result<u64, MemoryError> {
    match topology
    case WarpSparseFrontier => Ok(Max(base, 32))
    case SparseFrontier => Ok(base)
    case BlockDenseFrontier => Mul(Max(base, 1024), 2)
    case DenseFrontier => Mul(base, 2)
    case HybridFrontier => Mul(base, 3)
    case FusedWave => Mul(base, 4)
  }

  function PlanMemory(topology: ExecutionTopology, graph: GraphShape, sizes: Sizes,
                      budgetBytes: u64): Result<MemoryPlan, MemoryError>
  {
    var nodeBytes :- Mul(graph.nodeCount, sizes.bytesPerNode);
    var edgeBytes :- Mul(graph.edgeCount, sizes.bytesPerEdge);
    var graphBytes :- Add(nodeBytes, edgeBytes);
    var scratch :- ScratchBytes(topology, sizes.scratchBytes);
    var withFrontier :- Add(graphBytes, sizes.frontierBytes);
    var withScratch :- Add(withFrontier, scratch);
    var required :- Add(withScratch, sizes.outputBytes);
    if required > budgetBytes then
      Err(OverBudget(topology, required, budgetBytes, graph.nodeCount, graph.edgeCount))
    else
      Ok(MemoryPlan(graphBytes, sizes.frontierBytes, scratch, sizes.outputBytes, required, budgetBytes,
                    PressureBps(required, budgetBytes)))
  }

  /** Scratch and total footprint in unbounded arithmetic. */
  function ScratchFootprint(topology: ExecutionTopology, base: nat): nat {
    match topology
    case WarpSparseFrontier => Max(base, 32)
    case SparseFrontier => base
    case BlockDenseFrontier => Max(base, 1024) * 2
    case DenseFrontier => base * 2
    case HybridFrontier => base * 3
    case FusedWave => base * 4
  }

  function Footprint(topology: ExecutionTopology, graph: GraphShape, sizes: Sizes): int {
    graph.nodeCount * sizes.bytesPerNode + graph.edgeCount * sizes.bytesPerEdge
    + sizes.frontierBytes + ScratchFootprint(topology, sizes.scratchBytes) + sizes.outputBytes
  }

  /** The seven checked steps decide exactly on the unbounded footprint: no
      intermediate overflow rejects a plan whose total would have fitted. */
  lemma PlanMemoryIsExact(topology: ExecutionTopology, graph: GraphShape, sizes: Sizes, budgetBytes: u64)
    ensures
      var total := Footprint(topology, graph, sizes);
      var plan := PlanMemory(topology, graph, sizes, budgetBytes);
      && (plan.Ok? <==> total <= budgetBytes)
      && (plan.Ok? ==> plan.value.requiredBytes == total && plan.value.budgetBytes == budgetBytes
                       && plan.value.scratchBytes == ScratchFootprint(topology, sizes.scratchBytes))
      && (plan.Err? && plan.error.ByteCountOverflow? <==> total > U64_MAX)
      && (plan.Err? && !plan.error.ByteCountOverflow? ==>
            plan.error == OverBudget(topology, total, budgetBytes, graph.nodeCount, graph.edgeCount))
  {
    var nodeBytes := graph.nodeCount * sizes.bytesPerNode;
    var edgeBytes := graph.edgeCount * sizes.bytesPerEdge;
    assert nodeBytes >= 0 && edgeBytes >= 0;
    assert CheckedMul(graph.nodeCount, sizes.bytesPerNode) == if nodeBytes <= U64_MAX then Some(nodeBytes) else None;
    assert CheckedMul(graph.edgeCount, sizes.bytesPerEdge) == if edgeBytes <= U64_MAX then Some(edgeBytes) else None;
  }

  /** Sparse is the smallest footprint, so it fits whenever any topology fits. */
  lemma SparseIsTheLowerBound(topology: ExecutionTopology, graph: GraphShape, sizes: Sizes, budgetBytes: u64)
    ensures Footprint(SparseFrontier, graph, sizes) <= Footprint(topology, graph, sizes)
    ensures PlanMemory(topology, graph, sizes, budgetBytes).Ok? ==>
            PlanMemory(SparseFrontier, graph, sizes, budgetBytes).Ok?
  {
  }
}
