/** Which topology a request gets, in terms of its own quantities: the shares they
    form, the intervals of the density, and the wider intervals in which the previous
    topology is kept. */
module TopologyMeaning {
  import opened Machine
  import opened Topology

  /** `part` is at least `bps` basis points of `whole`; anything is of nothing. */
  predicate ShareAtLeast(part: u64, whole: u64, bps: nat) {
    bps == 0 || if whole == 0 then part > 0 else part * 10000 >= bps * whole
  }

  /** The overhead is, to the nearest basis point, at least `bps` of a positive cost. */
  predicate OverheadAtLeast(overhead: Float, cost: Float, bps: nat) {
    || bps == 0
    || (&& cost.Finite? && cost.value > 0.0
        && match overhead
           case Finite(v) => v * 10000.0 >= (bps as real - 0.5) * cost.value
           case Infinite(negative) => !negative
           case NotANumber => false)
  }

  function Distance(a: real, b: real): real {
    if a < b then b - a else a - b
  }

  /** A telemetry value is read as the nearest number between zero and one. */
  lemma UnitIsNearest(x: Float, w: real)
    requires 0.0 <= w <= 1.0
    ensures 0.0 <= FiniteUnit(x) <= 1.0
    ensures x.Finite? ==> Distance(x.value, FiniteUnit(x)) <= Distance(x.value, w)
    ensures !x.Finite? ==> FiniteUnit(x) == 0.0
  {
  }

  lemma RatioMeans(part: u64, whole: u64, bps: nat)
    requires bps <= U64_MAX
    ensures RatioBpsWide(part, whole) >= bps <==> ShareAtLeast(part, whole, bps)
  {
    if whole > 0 {
      QuotientAtLeast(part * 10000, whole, bps);
    }
  }

  lemma PressureMeans(part: u64, whole: u64, bps: nat)
    requires bps <= 10000
    ensures PressureBps(part, whole) >= bps <==> ShareAtLeast(part, whole, bps)
  {
    RatioMeans(part, whole, bps);
  }

  lemma RealShare(v: real, cost: real, k: real)
    requires cost > 0.0
    ensures v / cost * 10000.0 + 0.5 >= k <==> v * 10000.0 >= (k - 0.5) * cost
  {
    var q := v / cost;
    assert q * cost == v;
    assert v * 10000.0 == (q * 10000.0) * cost;
    RealScales(q * 10000.0, k - 0.5, cost);
  }

  lemma RealScales(a: real, b: real, d: real)
    requires d > 0.0
    ensures a * d >= b * d <==> a >= b
  {
    if a < b {
      assert (b - a) * d > 0.0;
    } else {
      assert (a - b) * d >= 0.0;
    }
  }

  lemma LaunchMeans(cost: Float, overhead: Float, bps: nat)
    requires bps <= U32_MAX
    ensures LaunchPressureBps(cost, overhead) >= bps <==> OverheadAtLeast(overhead, cost, bps)
  {
    if bps > 0 && cost.Finite? && cost.value > 0.0 && overhead.Finite? {
      RealShare(overhead.value, cost.value, bps as real);
      FloorAtLeast(overhead.value / cost.value * 10000.0 + 0.5, bps);
      if overhead.value <= 0.0 {
        RealScales(overhead.value * 10000.0, 0.0, 1.0);
        assert (bps as real - 0.5) * cost.value > 0.0;
      }
    }
  }

  lemma FloorAtLeast(r: real, k: nat)
    ensures r.Floor >= k <==> r >= k as real
  {
  }

  /** The request leaves at most a tenth of its memory budget free. */
  predicate RedZone(memory: MemoryBudget) {
    ShareAtLeast(memory.requiredBytes, memory.budgetBytes, 9000)
  }

  /** Fusion pays: pressure of seven tenths, launches costing 15 percent, a 4096 byte
      readback, and no more than 85 percent of the memory. */
  predicate FusionPays(sample: Sample, memory: MemoryBudget, launchOverheadNs: Float, fusionPressure: Float) {
    && FiniteUnit(fusionPressure) >= 0.7
    && OverheadAtLeast(launchOverheadNs, sample.dispatchCostNs, 1500)
    && sample.readbackBytes >= 4096
    && !ShareAtLeast(memory.requiredBytes, memory.budgetBytes, 8501)
  }

  /** On average more than eight edges a node; two edges a node. */
  predicate HighDegree(graph: GraphShape) {
    ShareAtLeast(graph.edgeCount, graph.nodeCount, 80001)
  }

  predicate TwoEdgesPerNode(graph: GraphShape) {
    ShareAtLeast(graph.edgeCount, graph.nodeCount, 20000)
  }

  /** The topology by density and degree, when neither memory nor fusion decides. */
  function ByDensity(density: real, graph: GraphShape): ExecutionTopology {
    if density > 0.125 then
      if density < 0.7 || !TwoEdgesPerNode(graph) then HybridFrontier
      else if density < 0.85 then DenseFrontier
      else BlockDenseFrontier
    else if density > 0.03125 || HighDegree(graph) then SparseFrontier
    else WarpSparseFrontier
  }

  /** The first selection, and the three pressures recorded with it. */
  lemma SelectMeans(sample: Sample, graph: GraphShape, memory: MemoryBudget, launchOverheadNs: Float,
                    fusionPressure: Float)
    ensures
      var decision := Select(sample, graph, memory, launchOverheadNs, fusionPressure);
      && decision.topology == (if RedZone(memory) then SparseFrontier
                               else if FusionPays(sample, memory, launchOverheadNs, fusionPressure) then FusedWave
                               else ByDensity(FiniteUnit(sample.frontierDensity), graph))
      && (forall k: nat | k <= 10000 ::
            decision.memoryPressureBps >= k <==> ShareAtLeast(memory.requiredBytes, memory.budgetBytes, k))
      && (forall k: nat | k <= U64_MAX ::
            decision.averageDegreeBps >= k <==> ShareAtLeast(graph.edgeCount, graph.nodeCount, k))
      && (forall k: nat | k <= U32_MAX ::
            decision.launchPressureBps >= k <==> OverheadAtLeast(launchOverheadNs, sample.dispatchCostNs, k))
  {
    PressuresMean(sample, graph, memory, launchOverheadNs);
    hide PressureBps, RatioBpsWide, LaunchPressureBps, ShareAtLeast, OverheadAtLeast, FiniteUnit;
  }

  lemma PressuresMean(sample: Sample, graph: GraphShape, memory: MemoryBudget, launchOverheadNs: Float)
    ensures forall k: nat | k <= 10000 ::
              PressureBps(memory.requiredBytes, memory.budgetBytes) >= k <==>
                ShareAtLeast(memory.requiredBytes, memory.budgetBytes, k)
    ensures forall k: nat | k <= U64_MAX ::
              RatioBpsWide(graph.edgeCount, graph.nodeCount) >= k <==> ShareAtLeast(graph.edgeCount, graph.nodeCount, k)
    ensures forall k: nat | k <= U32_MAX ::
              LaunchPressureBps(sample.dispatchCostNs, launchOverheadNs) >= k <==>
                OverheadAtLeast(launchOverheadNs, sample.dispatchCostNs, k)
  {
    hide PressureBps, RatioBpsWide, LaunchPressureBps, ShareAtLeast, OverheadAtLeast;
    forall k: nat | k <= 10000
      ensures PressureBps(memory.requiredBytes, memory.budgetBytes) >= k <==>
                ShareAtLeast(memory.requiredBytes, memory.budgetBytes, k)
    {
      PressureMeans(memory.requiredBytes, memory.budgetBytes, k);
    }
    forall k: nat | k <= U64_MAX
      ensures RatioBpsWide(graph.edgeCount, graph.nodeCount) >= k <==> ShareAtLeast(graph.edgeCount, graph.nodeCount, k)
    {
      RatioMeans(graph.edgeCount, graph.nodeCount, k);
    }
    forall k: nat | k <= U32_MAX
      ensures LaunchPressureBps(sample.dispatchCostNs, launchOverheadNs) >= k <==>
                OverheadAtLeast(launchOverheadNs, sample.dispatchCostNs, k)
    {
      LaunchMeans(sample.dispatchCostNs, launchOverheadNs, k);
    }
  }

  /** The previous topology still suits the request: its own interval widened by a
      fortieth of density, a tenth of fusion pressure and 2.5 percent elsewhere. */
  predicate StillSuits(previous: ExecutionTopology, first: ExecutionTopology, sample: Sample, graph: GraphShape,
                       memory: MemoryBudget, launchOverheadNs: Float, fusionPressure: Float)
  {
    var density := FiniteUnit(sample.frontierDensity);
    match previous
    case WarpSparseFrontier => density <= 0.05625 && !HighDegree(graph)
    case SparseFrontier => density <= 0.15
    case HybridFrontier =>
      || (first.SparseFrontier? && density >= 0.1)
      || ((first.DenseFrontier? || first.BlockDenseFrontier?) && density <= 0.725)
    case DenseFrontier => density >= 0.675 && TwoEdgesPerNode(graph)
    case BlockDenseFrontier => density >= 0.825 && TwoEdgesPerNode(graph)
    case FusedWave =>
      && FiniteUnit(fusionPressure) >= 0.6
      && OverheadAtLeast(launchOverheadNs, sample.dispatchCostNs, 1250)
      && sample.readbackBytes >= 4096
      && !ShareAtLeast(memory.requiredBytes, memory.budgetBytes, 8751)
  }

  /** Selection against the previous topology: the red zone overrides it, a sparse kind
      turns sparse from 87.5 percent of the memory on, and otherwise it is kept exactly
      while it still suits. */
  lemma SelectAfterMeans(previous: ExecutionTopology, sample: Sample, graph: GraphShape, memory: MemoryBudget,
                         launchOverheadNs: Float, fusionPressure: Float)
    ensures
      var first := Select(sample, graph, memory, launchOverheadNs, fusionPressure);
      var after := SelectAfter(Some(previous), sample, graph, memory, launchOverheadNs, fusionPressure);
      && after == first.(topology := after.topology)
      && after.topology ==
         if RedZone(memory) then SparseFrontier
         else if && (previous.SparseFrontier? || previous.WarpSparseFrontier?)
                 && ShareAtLeast(memory.requiredBytes, memory.budgetBytes, 8750) then SparseFrontier
         else if StillSuits(previous, first.topology, sample, graph, memory, launchOverheadNs, fusionPressure) then
           previous
         else first.topology
    ensures SelectAfter(None, sample, graph, memory, launchOverheadNs, fusionPressure)
         == Select(sample, graph, memory, launchOverheadNs, fusionPressure)
  {
    SelectMeans(sample, graph, memory, launchOverheadNs, fusionPressure);
    hide ShareAtLeast, OverheadAtLeast, FiniteUnit, Select;
  }

  // ----- memory plans -----

  /** What a plan consists of: its parts come from the request and add up to what is
      required, and its pressure is the required share of the budget. */
  lemma PlanPartsAddUp(topology: ExecutionTopology, graph: GraphShape, sizes: Sizes, budgetBytes: u64)
    requires PlanMemory(topology, graph, sizes, budgetBytes).Ok?
    ensures
      var plan := PlanMemory(topology, graph, sizes, budgetBytes).value;
      && plan.graphBytes == graph.nodeCount * sizes.bytesPerNode + graph.edgeCount * sizes.bytesPerEdge
      && plan.frontierBytes == sizes.frontierBytes && plan.outputBytes == sizes.outputBytes
      && plan.graphBytes + plan.frontierBytes + plan.scratchBytes + plan.outputBytes == plan.requiredBytes
      && plan.requiredBytes <= plan.budgetBytes == budgetBytes
      && (forall k: nat | k <= 10000 ::
            plan.memoryPressureBps >= k <==> ShareAtLeast(plan.requiredBytes, budgetBytes, k))
  {
    var plan := PlanMemory(topology, graph, sizes, budgetBytes).value;
    PlanMemoryIsExact(topology, graph, sizes, budgetBytes);
    assert plan.memoryPressureBps == PressureBps(plan.requiredBytes, budgetBytes);
    hide PlanMemory, PressureBps, ShareAtLeast;
    forall k: nat | k <= 10000
      ensures plan.memoryPressureBps >= k <==> ShareAtLeast(plan.requiredBytes, budgetBytes, k)
    {
      PressureMeans(plan.requiredBytes, budgetBytes, k);
    }
  }

  /** Dense, hybrid and fused waves each need one more scratch area than the kind before
      them; the two specialised kinds only have a floor. */
  lemma ScratchSteps(base: nat)
    ensures ScratchFootprint(SparseFrontier, base) == base
    ensures ScratchFootprint(DenseFrontier, base) == ScratchFootprint(SparseFrontier, base) + base
    ensures ScratchFootprint(HybridFrontier, base) == ScratchFootprint(DenseFrontier, base) + base
    ensures ScratchFootprint(FusedWave, base) == ScratchFootprint(HybridFrontier, base) + base
    ensures ScratchFootprint(WarpSparseFrontier, base) == if base >= 32 then base else 32
    ensures ScratchFootprint(BlockDenseFrontier, base) == if base >= 1024 then base + base else 2048
  {
  }
}
