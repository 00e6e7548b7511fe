/** What the megakernel plan cache promises, as a plain list: cached plans from
    the least to the most recently used, and three counters. No serials, no heap,
    no per-identity index. `PlanCache` is proved equal to this machine on every
    run; the theorems about runs are proved here. */
module RecencyModel {
  import opened Machine
  import opened Topology
  import opened Sequences

  datatype AnalysisKind =
    | Dataflow
    | Ifds
    | ReachingDefinitions
    | Liveness
    | PointsTo
    | ParserFrontend
    | Custom(tag: u64)

  datatype DeviceKey = DeviceKey(smMajor: u32, smMinor: u32, warpSize: u32, supportsGridSync: bool,
                                 supportsTensorCores: bool, maxWorkgroupSize: u32)

  /** Coarse pressure buckets of one query. */
  datatype Buckets = Buckets(density: u32, memory: u32, readback: u32, launch: u32, fusion: u32)

  /** The architectural identity of a plan. */
  datatype PlanIdentity = PlanIdentity(graphLayoutHash: u64, analysisKind: AnalysisKind, device: DeviceKey)

  /** A plan is cached per identity and pressure buckets. */
  datatype PlanKey = PlanKey(identity: PlanIdentity, buckets: Buckets)

  datatype CachedPlan = CachedPlan(topology: ExecutionTopology, decision: Decision)

  function PlanOf(decision: Decision): CachedPlan {
    CachedPlan(decision.topology, decision)
  }

  /** How telemetry is bucketed: sample, memory, launch overhead, fusion pressure. */
  type Bucketing = (Sample, MemoryBudget, Float, Float) -> Buckets

  /** The planning functions the cache calls; the cache is proved for any of them. */
  datatype Policy = Policy(
    bucketing: Bucketing,
    selectAfter: (Option<ExecutionTopology>, Sample, GraphShape, MemoryBudget, Float, Float) -> Decision,
    planMemory: (ExecutionTopology, GraphShape, Sizes, u64) -> Result<MemoryPlan, MemoryError>)

  /** The planner of this repository, with any bucketing. */
  function Standard(bucketing: Bucketing): Policy {
    Policy(bucketing, SelectAfter, PlanMemory)
  }

  datatype Request = Request(graphLayoutHash: u64, analysisKind: AnalysisKind, device: DeviceKey, sample: Sample,
                             graph: GraphShape, launchOverheadNs: Float, fusionPressure: Float)
  {
    function Identity(): PlanIdentity {
      PlanIdentity(graphLayoutHash, analysisKind, device)
    }

    /** Devices without grid sync are queried with no fusion pressure at all. */
    function EffectiveFusionPressure(): Float {
      if device.supportsGridSync then fusionPressure else Finite(0.0)
    }

    function Key(policy: Policy, memory: MemoryBudget): PlanKey {
      PlanKey(Identity(), policy.bucketing(sample, memory, launchOverheadNs, EffectiveFusionPressure()))
    }

    function Decide(policy: Policy, previous: Option<ExecutionTopology>, memory: MemoryBudget): Decision {
      policy.selectAfter(previous, sample, graph, memory, launchOverheadNs, EffectiveFusionPressure())
    }
  }

  datatype Call =
    | Insert(key: PlanKey, decision: Decision)
    | Choose(request: Request, memory: MemoryBudget)
    | Execute(request: Request, sizes: Sizes, budgetBytes: u64)
    | Clear

  datatype Answer =
    | Planned(plan: CachedPlan)
    | Executable(execution: ExecutionPlan)
    | Cleared
    | Failed(error: MemoryError)

  type Line = (PlanKey, CachedPlan)

  datatype Recency = Recency(list: seq<Line>, hits: u64, misses: u64, evictions: u64)

  // ----- one lookup -----

  /** Position of `key` in the list, or its length. */
  function IndexOf(list: seq<Line>, key: PlanKey): (i: nat)
    ensures i <= |list|
    ensures i < |list| ==> list[i].0 == key
    ensures forall j | 0 <= j < i :: list[j].0 != key
  {
    if list == [] || list[0].0 == key then 0 else 1 + IndexOf(list[1..], key)
  }

  /** Make room for one more line: drop the least recently used when full. */
  function Room(list: seq<Line>, capacity: u64): seq<Line> {
    if 0 < capacity <= |list| then list[1..] else list
  }

  function Lookup(s: Recency, capacity: u64, key: PlanKey, decision: Decision): (Recency, CachedPlan) {
    var i := IndexOf(s.list, key);
    if i < |s.list| then
      (s.(list := MoveToEnd(s.list, i), hits := PinnedIncrement(s.hits)), s.list[i].1)
    else
      var missed := s.(misses := PinnedIncrement(s.misses));
      var plan := PlanOf(decision);
      if capacity == 0 then
        (missed, plan)
      else
        (missed.(list := Room(s.list, capacity) + [(key, plan)],
                 evictions := if capacity <= |s.list| then PinnedIncrement(s.evictions) else s.evictions),
         plan)
  }

  /** Topology of the most recently used plan with this identity. */
  function LatestTopology(list: seq<Line>, identity: PlanIdentity): Option<ExecutionTopology> {
    if list == [] then None
    else if list[|list| - 1].0.identity == identity then Some(list[|list| - 1].1.topology)
    else LatestTopology(list[..|list| - 1], identity)
  }

  function ChooseTopology(s: Recency, capacity: u64, policy: Policy, request: Request,
                          memory: MemoryBudget): (Recency, CachedPlan)
  {
    var previous := LatestTopology(s.list, request.Identity());
    Lookup(s, capacity, request.Key(policy, memory), request.Decide(policy, previous, memory))
  }

  /** Validate the chosen topology against the real budget, falling back to sparse. */
  function Finish(policy: Policy, topology: ExecutionTopology, graph: GraphShape, sizes: Sizes,
                  budgetBytes: u64): Result<ExecutionPlan, MemoryError>
  {
    match policy.planMemory(topology, graph, sizes, budgetBytes)
    case Ok(memory) => Ok(ExecutionPlan(topology, memory, false))
    case Err(error) =>
      if error.OverBudget? && topology != SparseFrontier then
        var memory :- policy.planMemory(SparseFrontier, graph, sizes, budgetBytes);
        Ok(ExecutionPlan(SparseFrontier, memory, true))
      else
        Err(error)
  }

  function ToAnswer(outcome: Result<ExecutionPlan, MemoryError>): Answer {
    match outcome
    case Ok(execution) => Executable(execution)
    case Err(error) => Failed(error)
  }

  // ----- one call and whole runs -----

  /** The memory pressure used for policy is that of the sparse plan. */
  function SparsePressure(policy: Policy, call: Call): Result<MemoryBudget, MemoryError>
    requires call.Execute?
  {
    var sparse :- policy.planMemory(SparseFrontier, call.request.graph, call.sizes, U64_MAX);
    Ok(MemoryBudget(sparse.requiredBytes, call.budgetBytes))
  }

  /** Whether the call gets as far as asking the cache. */
  predicate ReachesCache(policy: Policy, call: Call) {
    match call
    case Clear => false
    case Execute(_, _, _) => SparsePressure(policy, call).Ok?
    case _ => true
  }

  function Step(s: Recency, capacity: u64, policy: Policy, call: Call): (Recency, Answer) {
    match call
    case Insert(key, decision) =>
      var (t, plan) := Lookup(s, capacity, key, decision);
      (t, Planned(plan))
    case Choose(request, memory) =>
      var (t, plan) := ChooseTopology(s, capacity, policy, request, memory);
      (t, Planned(plan))
    case Execute(request, sizes, budgetBytes) =>
      (match SparsePressure(policy, call)
       case Err(error) => (s, Failed(error))
       case Ok(memory) =>
         var (t, plan) := ChooseTopology(s, capacity, policy, request, memory);
         (t, ToAnswer(Finish(policy, plan.topology, request.graph, sizes, budgetBytes))))
    case Clear => (s.(list := []), Cleared)
  }

  /** A call whose serial reservation is refused leaves the machine as it was. */
  function GuardedStep(s: Recency, capacity: u64, policy: Policy, call: Call, refused: bool): (Recency, Answer) {
    if refused && ReachesCache(policy, call) then (s, Failed(ByteCountOverflow)) else Step(s, capacity, policy, call)
  }

  function Run(s: Recency, capacity: u64, policy: Policy, calls: seq<Call>,
               refused: seq<bool>): (Recency, seq<Answer>)
    requires |calls| == |refused|
  {
    if calls == [] then (s, [])
    else
      var last := |calls| - 1;
      var (t, answers) := Run(s, capacity, policy, calls[..last], refused[..last]);
      var (u, answer) := GuardedStep(t, capacity, policy, calls[last], refused[last]);
      (u, answers + [answer])
  }

  lemma RunNothing(s: Recency, capacity: u64, policy: Policy)
    ensures Run(s, capacity, policy, [], []) == (s, [])
  {
  }

  lemma RunExtends(s: Recency, capacity: u64, policy: Policy, calls: seq<Call>, refused: seq<bool>, call: Call,
                   blocked: bool)
    requires |calls| == |refused|
    ensures
      var (t, answers) := Run(s, capacity, policy, calls, refused);
      var (u, answer) := GuardedStep(t, capacity, policy, call, blocked);
      Run(s, capacity, policy, calls + [call], refused + [blocked]) == (u, answers + [answer])
  {
  }

  const Empty := Recency([], 0, 0, 0)

  // ----- the list stays a bounded cache -----

  predicate WellFormed(list: seq<Line>, capacity: u64) {
    && |list| <= capacity
    && (forall i, j | 0 <= i < j < |list| :: list[i].0 != list[j].0)
    && (forall i | 0 <= i < |list| :: list[i].1 == PlanOf(list[i].1.decision))
  }

  lemma LookupKeepsWellFormed(s: Recency, capacity: u64, key: PlanKey, decision: Decision)
    requires WellFormed(s.list, capacity)
    ensures WellFormed(Lookup(s, capacity, key, decision).0.list, capacity)
  {
  }

  lemma {:induction false} RunKeepsWellFormed(s: Recency, capacity: u64, policy: Policy, calls: seq<Call>,
                                              refused: seq<bool>)
    requires |calls| == |refused|
    requires WellFormed(s.list, capacity)
    ensures WellFormed(Run(s, capacity, policy, calls, refused).0.list, capacity)
    ensures |Run(s, capacity, policy, calls, refused).1| == |calls|
  {
    if calls != [] {
      var last := |calls| - 1;
      RunKeepsWellFormed(s, capacity, policy, calls[..last], refused[..last]);
      var t := Run(s, capacity, policy, calls[..last], refused[..last]).0;
      match calls[last] {
        case Insert(key, decision) =>
          LookupKeepsWellFormed(t, capacity, key, decision);
        case Choose(request, memory) =>
          LookupKeepsWellFormed(t, capacity, request.Key(policy, memory),
                                request.Decide(policy, LatestTopology(t.list, request.Identity()), memory));
        case Execute(request, _, _) =>
          if SparsePressure(policy, calls[last]).Ok? {
            var memory := SparsePressure(policy, calls[last]).value;
            LookupKeepsWellFormed(t, capacity, request.Key(policy, memory),
                                  request.Decide(policy, LatestTopology(t.list, request.Identity()), memory));
          }
        case Clear =>
      }
    }
  }

  // ----- no fused wave without grid sync -----

  predicate GridSafe(device: DeviceKey, topology: ExecutionTopology) {
    !device.supportsGridSync ==> !topology.FusedWave?
  }

  predicate ListGridSafe(list: seq<Line>) {
    forall i | 0 <= i < |list| :: GridSafe(list[i].0.identity.device, list[i].1.topology)
  }

  predicate AnswerGridSafe(call: Call, answer: Answer) {
    match (call, answer)
    case (Choose(request, _), Planned(plan)) => GridSafe(request.device, plan.topology)
    case (Execute(request, _, _), Executable(execution)) => GridSafe(request.device, execution.topology)
    case _ => true
  }

  /** Without fusion pressure a fused wave is never entered, only possibly kept. */
  ghost predicate EntersFusionOnlyUnderPressure(policy: Policy) {
    forall previous, sample, graph, memory, launchOverheadNs ::
      policy.selectAfter(previous, sample, graph, memory, launchOverheadNs, Finite(0.0)).topology.FusedWave? ==>
        previous == Some(FusedWave)
  }

  lemma StandardEntersFusionOnlyUnderPressure(bucketing: Bucketing)
    ensures EntersFusionOnlyUnderPressure(Standard(bucketing))
  {
  }

  /** The latest topology of an identity is one of the list's own. */
  lemma {:induction false} LatestIsGridSafe(list: seq<Line>, identity: PlanIdentity)
    requires ListGridSafe(list)
    ensures
      var latest := LatestTopology(list, identity);
      latest.Some? ==> GridSafe(identity.device, latest.value)
  {
    if list != [] && list[|list| - 1].0.identity != identity {
      LatestIsGridSafe(list[..|list| - 1], identity);
    }
  }

  lemma ChooseIsGridSafe(s: Recency, capacity: u64, policy: Policy, request: Request, memory: MemoryBudget)
    requires EntersFusionOnlyUnderPressure(policy)
    requires ListGridSafe(s.list)
    ensures
      var (t, plan) := ChooseTopology(s, capacity, policy, request, memory);
      ListGridSafe(t.list) && GridSafe(request.device, plan.topology)
  {
    LatestIsGridSafe(s.list, request.Identity());
  }

  lemma StepIsGridSafe(s: Recency, capacity: u64, policy: Policy, call: Call, blocked: bool)
    requires EntersFusionOnlyUnderPressure(policy)
    requires !call.Insert? && ListGridSafe(s.list)
    ensures
      var (t, answer) := GuardedStep(s, capacity, policy, call, blocked);
      ListGridSafe(t.list) && AnswerGridSafe(call, answer)
  {
    hide ChooseTopology;
    match call {
      case Insert(_, _) =>
      case Clear =>
      case Choose(request, memory) =>
        ChooseIsGridSafe(s, capacity, policy, request, memory);
      case Execute(request, sizes, budgetBytes) =>
        if SparsePressure(policy, call).Ok? {
          ChooseIsGridSafe(s, capacity, policy, request, SparsePressure(policy, call).value);
        }
    }
  }

  /** Over every run made of topology and execution requests, nothing cached and
      nothing answered for a device without grid sync is a fused wave. */
  lemma {:induction false} RunIsGridSafe(s: Recency, capacity: u64, policy: Policy, calls: seq<Call>,
                                         refused: seq<bool>)
    requires |calls| == |refused|
    requires EntersFusionOnlyUnderPressure(policy)
    requires forall i | 0 <= i < |calls| :: !calls[i].Insert?
    requires ListGridSafe(s.list)
    ensures
      var (t, answers) := Run(s, capacity, policy, calls, refused);
      && ListGridSafe(t.list)
      && |answers| == |calls|
      && (forall i | 0 <= i < |calls| :: AnswerGridSafe(calls[i], answers[i]))
  {
    hide GuardedStep, EntersFusionOnlyUnderPressure, AnswerGridSafe;
    if calls != [] {
      var last := |calls| - 1;
      RunIsGridSafe(s, capacity, policy, calls[..last], refused[..last]);
      var (t, before) := Run(s, capacity, policy, calls[..last], refused[..last]);
      StepIsGridSafe(t, capacity, policy, calls[last], refused[last]);
      var answers := Run(s, capacity, policy, calls, refused).1;
      forall i | 0 <= i < |calls|
        ensures AnswerGridSafe(calls[i], answers[i])
      {
        if i < last {
          assert answers[i] == before[i] && calls[..last][i] == calls[i];
        }
      }
    }
  }

  /** In particular with this repository's selectors, from the empty cache. */
  lemma StandardRunIsGridSafe(capacity: u64, bucketing: Bucketing, calls: seq<Call>, refused: seq<bool>)
    requires |calls| == |refused|
    requires forall i | 0 <= i < |calls| :: !calls[i].Insert?
    ensures
      var (t, answers) := Run(Empty, capacity, Standard(bucketing), calls, refused);
      && ListGridSafe(t.list)
      && |answers| == |calls|
      && (forall i | 0 <= i < |calls| :: AnswerGridSafe(calls[i], answers[i]))
  {
    StandardEntersFusionOnlyUnderPressure(bucketing);
    RunIsGridSafe(Empty, capacity, Standard(bucketing), calls, refused);
  }

  /** The raw insertion call is not covered: it caches whatever it is given. */
  lemma InsertCanFuseWithoutGridSync(policy: Policy, key: PlanKey, decision: Decision)
    requires !key.identity.device.supportsGridSync && decision.topology.FusedWave?
    ensures !ListGridSafe(Run(Empty, 1, policy, [Insert(key, decision)], [false]).0.list)
  {
    var calls := [Insert(key, decision)];
    assert calls[..0] == [] && [false][..0] == [];
    assert Run(Empty, 1, policy, calls[..0], [false][..0]) == (Empty, []);
    var list := Run(Empty, 1, policy, calls, [false]).0.list;
    assert list == [] + [(key, PlanOf(decision))];
    assert list[0] == (key, PlanOf(decision));
  }

  // ----- execution plans -----

  /** Exactly when a validated plan comes out, which one, and with what error
      otherwise. A topology whose footprint overflows 64 bits is an error even
      when the sparse plan fits: only an over-budget topology is downgraded. */
  lemma FinishIsExact(bucketing: Bucketing, topology: ExecutionTopology, graph: GraphShape, sizes: Sizes,
                      budgetBytes: u64)
    ensures
      var chosen := Footprint(topology, graph, sizes);
      var sparse := Footprint(SparseFrontier, graph, sizes);
      var outcome := Finish(Standard(bucketing), topology, graph, sizes, budgetBytes);
      && (outcome.Ok? <==> chosen <= U64_MAX && sparse <= budgetBytes)
      && (outcome.Ok? ==>
            && PlanMemory(outcome.value.topology, graph, sizes, budgetBytes) == Ok(outcome.value.memory)
            && outcome.value.memory.requiredBytes == Footprint(outcome.value.topology, graph, sizes) <= budgetBytes
            && (outcome.value.downgradedToSparse <==> chosen > budgetBytes)
            && outcome.value.topology == if chosen > budgetBytes then SparseFrontier else topology)
      && (outcome.Err? && outcome.error.OverBudget? <==> chosen <= U64_MAX && sparse > budgetBytes)
      && (outcome.Err? && outcome.error.OverBudget? ==>
            && outcome.error == OverBudget(SparseFrontier, sparse, budgetBytes, graph.nodeCount, graph.edgeCount)
            && forall other :: PlanMemory(other, graph, sizes, budgetBytes).Err?)
  {
    PlanMemoryIsExact(topology, graph, sizes, budgetBytes);
    PlanMemoryIsExact(SparseFrontier, graph, sizes, budgetBytes);
    forall other: ExecutionTopology
      ensures Footprint(SparseFrontier, graph, sizes) <= Footprint(other, graph, sizes)
      ensures PlanMemory(other, graph, sizes, budgetBytes).Ok? <==> Footprint(other, graph, sizes) <= budgetBytes
    {
      SparseIsTheLowerBound(other, graph, sizes, budgetBytes);
      PlanMemoryIsExact(other, graph, sizes, budgetBytes);
    }
  }

  /** What an execution request answers, in any state of the cache. When even the
      sparse footprint overflows, the request fails and the cache is not asked.
      Otherwise the cache moves as for a topology request, whatever the outcome, and
      the topology it gives decides: a plan comes out exactly when that topology's
      footprint fits 64 bits and the sparse one fits the budget. */
  lemma ExecuteIsExact(s: Recency, capacity: u64, bucketing: Bucketing, request: Request, sizes: Sizes,
                       budgetBytes: u64)
    ensures
      var policy := Standard(bucketing);
      var (t, answer) := Step(s, capacity, policy, Execute(request, sizes, budgetBytes));
      var sparse := Footprint(SparseFrontier, request.graph, sizes);
      if sparse > U64_MAX then
        t == s && answer == Failed(ByteCountOverflow)
      else
        var (u, plan) := ChooseTopology(s, capacity, policy, request, MemoryBudget(sparse, budgetBytes));
        var chosen := Footprint(plan.topology, request.graph, sizes);
        && t == u
        && (answer.Executable? <==> chosen <= U64_MAX && sparse <= budgetBytes)
        && (answer == Failed(ByteCountOverflow) <==> chosen > U64_MAX)
        && (answer.Executable? ==>
              && PlanMemory(answer.execution.topology, request.graph, sizes, budgetBytes) == Ok(answer.execution.memory)
              && (answer.execution.downgradedToSparse <==> chosen > budgetBytes)
              && answer.execution.topology == if chosen > budgetBytes then SparseFrontier else plan.topology)
        && (answer.Failed? && answer.error.OverBudget? ==>
              && answer.error
              == OverBudget(SparseFrontier, sparse, budgetBytes, request.graph.nodeCount, request.graph.edgeCount)
              && forall other :: PlanMemory(other, request.graph, sizes, budgetBytes).Err?)
  {
    hide PlanMemory, Footprint, ChooseTopology, Finish;
    var policy := Standard(bucketing);
    PlanMemoryIsExact(SparseFrontier, request.graph, sizes, U64_MAX);
    var sparse := Footprint(SparseFrontier, request.graph, sizes);
    if sparse <= U64_MAX {
      assert sparse >= 0 by { SparseIsNatural(request.graph, sizes); }
      var plan := ChooseTopology(s, capacity, policy, request, MemoryBudget(sparse, budgetBytes)).1;
      FinishIsExact(bucketing, plan.topology, request.graph, sizes, budgetBytes);
    }
  }

  /** After every run of calls the request is answered with a plan. */
  ghost predicate AlwaysServed(capacity: u64, bucketing: Bucketing, request: Request, sizes: Sizes, budgetBytes: u64) {
    forall calls, refused | |calls| == |refused| ::
      AnswerAfter(capacity, bucketing, calls, refused, request, sizes, budgetBytes).Executable?
  }

  function AnswerAfter(capacity: u64, bucketing: Bucketing, calls: seq<Call>, refused: seq<bool>, request: Request,
                       sizes: Sizes, budgetBytes: u64): Answer
    requires |calls| == |refused|
  {
    var s := Run(Empty, capacity, Standard(bucketing), calls, refused).0;
    Step(s, capacity, Standard(bucketing), Execute(request, sizes, budgetBytes)).1
  }

  /** The condition on the caller's own arguments: a request is served whatever came
      before exactly when the sparse footprint fits the budget and the two topologies
      with the largest scratch, fused and block-dense, fit 64 bits. */
  lemma AlwaysServedIff(capacity: u64, bucketing: Bucketing, request: Request, sizes: Sizes, budgetBytes: u64)
    requires capacity > 0
    ensures AlwaysServed(capacity, bucketing, request, sizes, budgetBytes) <==>
              && Footprint(SparseFrontier, request.graph, sizes) <= budgetBytes
              && Footprint(FusedWave, request.graph, sizes) <= U64_MAX
              && Footprint(BlockDenseFrontier, request.graph, sizes) <= U64_MAX
  {
    var fused, dense := Footprint(FusedWave, request.graph, sizes), Footprint(BlockDenseFrontier, request.graph, sizes);
    LargestFootprints(request.graph, sizes);
    hide Footprint, Step, Run;
    var sparse := Footprint(SparseFrontier, request.graph, sizes);
    if sparse <= budgetBytes && fused <= U64_MAX && dense <= U64_MAX {
      forall calls, refused | |calls| == |refused|
        ensures AnswerAfter(capacity, bucketing, calls, refused, request, sizes, budgetBytes).Executable?
      {
        var s := Run(Empty, capacity, Standard(bucketing), calls, refused).0;
        ExecuteIsExact(s, capacity, bucketing, request, sizes, budgetBytes);
      }
    }
    if AlwaysServed(capacity, bucketing, request, sizes, budgetBytes) {
      AnswerWithCached(capacity, bucketing, FusedWave, request, sizes, budgetBytes);
      AnswerWithCached(capacity, bucketing, BlockDenseFrontier, request, sizes, budgetBytes);
    }
  }

  lemma LargestFootprints(graph: GraphShape, sizes: Sizes)
    ensures forall t: ExecutionTopology ::
              || Footprint(t, graph, sizes) <= Footprint(FusedWave, graph, sizes)
              || Footprint(t, graph, sizes) <= Footprint(BlockDenseFrontier, graph, sizes)
  {
  }

  /** Caching a decision first lets any topology decide the request. */
  lemma AnswerWithCached(capacity: u64, bucketing: Bucketing, topology: ExecutionTopology, request: Request,
                         sizes: Sizes, budgetBytes: u64)
    requires capacity > 0
    requires AlwaysServed(capacity, bucketing, request, sizes, budgetBytes)
    ensures Footprint(SparseFrontier, request.graph, sizes) <= budgetBytes
    ensures Footprint(topology, request.graph, sizes) <= U64_MAX
  {
    hide Footprint, Step, Run;
    var policy := Standard(bucketing);
    var sparse := Footprint(SparseFrontier, request.graph, sizes);
    SparseIsNatural(request.graph, sizes);
    if sparse > U64_MAX {
      RunNothing(Empty, capacity, policy);
      assert AnswerAfter(capacity, bucketing, [], [], request, sizes, budgetBytes).Executable?;
      ExecuteIsExact(Empty, capacity, bucketing, request, sizes, budgetBytes);
    } else {
      var memory := MemoryBudget(sparse, budgetBytes);
      var key := request.Key(policy, memory);
      var decision := Decision(topology, 0, 0, 0);
      var s := Recency([(key, PlanOf(decision))], 0, 1, 0);
      assert Run(Empty, capacity, policy, [Insert(key, decision)], [false]).0 == s by {
        InsertIntoEmpty(capacity, policy, key, decision);
      }
      var calls := [Insert(key, decision)];
      assert AnswerAfter(capacity, bucketing, calls, [false], request, sizes, budgetBytes).Executable?;
      assert ChooseTopology(s, capacity, policy, request, memory).1.topology == topology;
      ExecuteIsExact(s, capacity, bucketing, request, sizes, budgetBytes);
    }
  }

  lemma InsertIntoEmpty(capacity: u64, policy: Policy, key: PlanKey, decision: Decision)
    requires capacity > 0
    ensures Run(Empty, capacity, policy, [Insert(key, decision)], [false]).0
         == Recency([(key, PlanOf(decision))], 0, 1, 0)
  {
    RunNothing(Empty, capacity, policy);
    RunExtends(Empty, capacity, policy, [], [], Insert(key, decision), false);
    assert [] + [Insert(key, decision)] == [Insert(key, decision)] && [] + [false] == [false];
  }

  lemma SparseIsNatural(graph: GraphShape, sizes: Sizes)
    ensures Footprint(SparseFrontier, graph, sizes) >= 0
  {
    assert graph.nodeCount * sizes.bytesPerNode >= 0 && graph.edgeCount * sizes.bytesPerEdge >= 0;
  }

  /** A device with grid sync under full launch and fusion pressure, whose fused wave
      needs four times 2^62 scratch bytes. */
  function FusingRequest(device: DeviceKey): Request {
    Request(0, Dataflow, device, Sample(Finite(1.0), Finite(0.0), FUSION_READBACK_BYTES), GraphShape(0, 0),
            Finite(1.0), Finite(1.0))
  }

  const LARGE_SCRATCH := Sizes(0, 0, 0, 0x4000_0000_0000_0000, 0)

  /** The first such request to an empty cache fails for overflow although the sparse
      plan fits its budget: only an over-budget topology is downgraded. */
  lemma OverflowIsNotDowngraded(bucketing: Bucketing, device: DeviceKey)
    requires device.supportsGridSync
    ensures Step(Empty, 1, Standard(bucketing), Execute(FusingRequest(device), LARGE_SCRATCH, U64_MAX)).1
         == Failed(ByteCountOverflow)
    ensures PlanMemory(SparseFrontier, GraphShape(0, 0), LARGE_SCRATCH, U64_MAX).Ok?
  {
    var policy, request := Standard(bucketing), FusingRequest(device);
    var memory := MemoryBudget(0x4000_0000_0000_0000, U64_MAX);
    assert Footprint(SparseFrontier, request.graph, LARGE_SCRATCH) == 0x4000_0000_0000_0000;
    assert Footprint(FusedWave, request.graph, LARGE_SCRATCH) > U64_MAX;
    assert request.Decide(policy, None, memory).topology == FusedWave;
    assert ChooseTopology(Empty, 1, policy, request, memory).1.topology == FusedWave;
    PlanMemoryIsExact(SparseFrontier, request.graph, LARGE_SCRATCH, U64_MAX);
    ExecuteIsExact(Empty, 1, bucketing, request, LARGE_SCRATCH, U64_MAX);
  }
}
