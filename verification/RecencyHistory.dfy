/** What the recency list does over whole runs, told from the history of calls alone:
    which keys are cached, what the counters say, and which plan every call is given. */
module RecencyHistory {
  import opened Machine
  import opened Topology
  import opened Sequences
  import opened RecencyModel

  function Keys<V>(list: seq<(PlanKey, V)>): (keys: seq<PlanKey>)
    ensures |keys| == |list|
    ensures forall i | 0 <= i < |list| :: keys[i] == list[i].0
  {
    seq(|list|, i requires 0 <= i < |list| => list[i].0)
  }

  function Without(keys: seq<PlanKey>, key: PlanKey): (rest: seq<PlanKey>)
    ensures forall k :: k in rest <==> k in keys && k != key
  {
    if keys == [] then [] else
      var init := Without(keys[..|keys| - 1], key);
      if keys[|keys| - 1] == key then init else init + [keys[|keys| - 1]]
  }

  /** Every key of a history once, ordered by its last use. */
  function ByLastUse(history: seq<PlanKey>): seq<PlanKey> {
    if history == [] then []
    else Without(ByLastUse(history[..|history| - 1]), history[|history| - 1]) + [history[|history| - 1]]
  }

  function Suffix(keys: seq<PlanKey>, n: nat): seq<PlanKey> {
    if |keys| <= n then keys else keys[|keys| - n..]
  }

  lemma {:induction false} WithoutKeepsDistinct(keys: seq<PlanKey>, key: PlanKey)
    requires Distinct(keys)
    ensures Distinct(Without(keys, key))
    ensures key !in keys ==> Without(keys, key) == keys
    ensures key in keys ==> |Without(keys, key)| == |keys| - 1
  {
    if keys != [] {
      var last := |keys| - 1;
      assert keys == keys[..last] + [keys[last]];
      assert keys[last] !in keys[..last];
      WithoutKeepsDistinct(keys[..last], key);
      assert keys[last] !in Without(keys[..last], key);
    }
  }

  lemma {:induction false} WithoutAt(keys: seq<PlanKey>, i: nat)
    requires Distinct(keys) && i < |keys|
    ensures Without(keys, keys[i]) == keys[..i] + keys[i + 1..]
  {
    var last := |keys| - 1;
    var init := keys[..last];
    if i == last {
      WithoutKeepsDistinct(init, keys[i]);
      assert keys[i] !in init;
      assert keys[i + 1..] == [];
    } else {
      WithoutAt(init, i);
      assert keys[..i] + keys[i + 1..] == init[..i] + init[i + 1..] + [keys[last]];
    }
  }

  lemma {:induction false} ByLastUseIsDistinct(history: seq<PlanKey>)
    ensures Distinct(ByLastUse(history))
    ensures forall k :: k in ByLastUse(history) <==> k in history
  {
    if history != [] {
      var last := |history| - 1;
      ByLastUseIsDistinct(history[..last]);
      WithoutKeepsDistinct(ByLastUse(history[..last]), history[last]);
      assert history == history[..last] + [history[last]];
    }
  }

  lemma SuffixOfConcat(front: seq<PlanKey>, back: seq<PlanKey>, n: nat)
    requires n <= |back|
    ensures Suffix(front + back, n) == back[|back| - n..]
  {
  }

  /** Using a key inside the recent suffix only reorders the suffix. */
  lemma SuffixHit(recent: seq<PlanKey>, n: nat, i: nat)
    requires Distinct(recent)
    requires i < |Suffix(recent, n)|
    ensures
      var suffix := Suffix(recent, n);
      Suffix(Without(recent, suffix[i]) + [suffix[i]], n) == suffix[..i] + suffix[i + 1..] + [suffix[i]]
  {
    hide Without, Distinct;
    var suffix := Suffix(recent, n);
    var front := recent[..|recent| - |suffix|];
    assert recent == front + suffix;
    var rest := suffix[..i] + suffix[i + 1..];
    WithoutInTail(front, suffix, i);
    assert front + rest + [suffix[i]] == front + (rest + [suffix[i]]);
    WholeSuffix(front, rest + [suffix[i]], n);
  }

  lemma WithoutInTail(front: seq<PlanKey>, tail: seq<PlanKey>, i: nat)
    requires Distinct(front + tail) && i < |tail|
    ensures Without(front + tail, tail[i]) == front + (tail[..i] + tail[i + 1..])
  {
    hide Without, Distinct;
    var keys := front + tail;
    WithoutAt(keys, |front| + i);
    assert keys[|front| + i] == tail[i];
    assert keys[..|front| + i] == front + tail[..i];
    assert keys[|front| + i + 1..] == tail[i + 1..];
    assert front + tail[..i] + tail[i + 1..] == front + (tail[..i] + tail[i + 1..]);
  }

  lemma WholeSuffix(front: seq<PlanKey>, back: seq<PlanKey>, n: nat)
    requires |back| == n || (front == [] && |back| <= n)
    ensures Suffix(front + back, n) == back
  {
  }

  /** Removing a key that is not in the tail leaves the tail alone. */
  lemma {:induction false} WithoutKeepsTail(front: seq<PlanKey>, tail: seq<PlanKey>, key: PlanKey)
    requires key !in tail
    ensures Without(front + tail, key) == Without(front, key) + tail
  {
    if tail == [] {
      assert front + tail == front;
    } else {
      var last := |tail| - 1;
      assert (front + tail)[..|front + tail| - 1] == front + tail[..last];
      WithoutKeepsTail(front, tail[..last], key);
      assert tail == tail[..last] + [tail[last]];
    }
  }

  /** Using a key outside it pushes the oldest one out when the suffix is full. */
  lemma SuffixMiss(recent: seq<PlanKey>, n: nat, key: PlanKey)
    requires n > 0
    requires key !in Suffix(recent, n)
    ensures
      var suffix := Suffix(recent, n);
      Suffix(Without(recent, key) + [key], n) == (if n <= |suffix| then suffix[1..] else suffix) + [key]
  {
    if |recent| < n {
      WithoutKeepsTail([], recent, key);
      assert [] + recent == recent;
    } else {
      var front, suffix := recent[..|recent| - n], recent[|recent| - n..];
      assert recent == front + suffix;
      WithoutKeepsTail(front, suffix, key);
      SuffixPushed(Without(front, key), suffix, key);
    }
  }

  lemma SuffixPushed(older: seq<PlanKey>, suffix: seq<PlanKey>, key: PlanKey)
    requires suffix != []
    ensures Suffix(older + suffix + [key], |suffix|) == suffix[1..] + [key]
  {
    assert older + suffix + [key] == older + (suffix + [key]);
    SuffixOfConcat(older, suffix + [key], |suffix|);
  }

  /** One access moves the suffix of recently used keys exactly as the list moves. */
  lemma SuffixStep(recent: seq<PlanKey>, s: Recency, capacity: u64, key: PlanKey, decision: Decision)
    requires Distinct(recent)
    requires Keys(s.list) == Suffix(recent, capacity)
    ensures Keys(Lookup(s, capacity, key, decision).0.list) == Suffix(Without(recent, key) + [key], capacity)
  {
    LookupKeys(s, capacity, key, decision);
    hide Lookup, Without, Distinct, IndexOf, Suffix;
    var suffix := Suffix(recent, capacity);
    var i := IndexOf(s.list, key);
    if i < |s.list| {
      SuffixHit(recent, capacity, i);
    } else if capacity > 0 {
      SuffixMiss(recent, capacity, key);
    } else {
      NoSuffix(recent);
      NoSuffix(Without(recent, key) + [key]);
    }
  }

  lemma NoSuffix(keys: seq<PlanKey>)
    ensures Suffix(keys, 0) == []
  {
  }

  /** How a lookup moves the keys of the list. */
  lemma LookupKeys(s: Recency, capacity: u64, key: PlanKey, decision: Decision)
    ensures
      var keys := Keys(s.list);
      var after := Keys(Lookup(s, capacity, key, decision).0.list);
      var i := IndexOf(s.list, key);
      if i < |s.list| then keys[i] == key && after == keys[..i] + keys[i + 1..] + [key]
      else
        && key !in keys
        && after == if capacity == 0 then keys else (if capacity <= |keys| then keys[1..] else keys) + [key]
  {
    var i := IndexOf(s.list, key);
    if i == |s.list| {
      forall j | 0 <= j < |s.list|
        ensures Keys(s.list)[j] != key
      {
      }
    }
  }

  /** Fusion pressure counts only on devices with grid sync. */
  function Pressure(request: Request): Float {
    if request.device.supportsGridSync then request.fusionPressure else Finite(0.0)
  }

  /** A request is cached per graph, analysis, device and buckets. */
  function AskedKey(policy: Policy, request: Request, memory: MemoryBudget): PlanKey {
    PlanKey(PlanIdentity(request.graphLayoutHash, request.analysisKind, request.device),
            policy.bucketing(request.sample, memory, request.launchOverheadNs, Pressure(request)))
  }

  /** An execution request asks with the sparse footprint against its own budget. */
  function AskedMemory(policy: Policy, request: Request, sizes: Sizes, budgetBytes: u64)
    : Result<MemoryBudget, MemoryError>
  {
    match policy.planMemory(SparseFrontier, request.graph, sizes, U64_MAX)
    case Ok(sparse) => Ok(MemoryBudget(sparse.requiredBytes, budgetBytes))
    case Err(error) => Err(error)
  }

  /** The call asks the cache for a plan. */
  predicate Asks(policy: Policy, call: Call) {
    && !call.Clear?
    && (call.Execute? ==> AskedMemory(policy, call.request, call.sizes, call.budgetBytes).Ok?)
  }

  predicate Served(policy: Policy, call: Call, refused: bool) {
    Asks(policy, call) && !refused
  }

  /** The key a served call looks up. */
  function KeyOf(policy: Policy, call: Call): PlanKey
    requires Asks(policy, call)
  {
    match call
    case Insert(key, _) => key
    case Choose(request, memory) => AskedKey(policy, request, memory)
    case Execute(request, sizes, budgetBytes) =>
      AskedKey(policy, request, AskedMemory(policy, request, sizes, budgetBytes).value)
  }

  /** The keys used since the last clear. */
  function UsedKeys(policy: Policy, calls: seq<Call>, refused: seq<bool>): seq<PlanKey>
    requires |calls| == |refused|
  {
    if calls == [] then [] else
      var last := |calls| - 1;
      if calls[last].Clear? then []
      else
        UsedKeys(policy, calls[..last], refused[..last])
        + if Served(policy, calls[last], refused[last]) then [KeyOf(policy, calls[last])] else []
  }

  /** The decision a served call makes for a key that is not cached. */
  function FreshDecision(policy: Policy, call: Call, previous: Option<ExecutionTopology>): Decision
    requires Asks(policy, call)
  {
    match call
    case Insert(_, decision) => decision
    case Choose(request, memory) =>
      policy.selectAfter(previous, request.sample, request.graph, memory, request.launchOverheadNs, Pressure(request))
    case Execute(request, sizes, budgetBytes) =>
      policy.selectAfter(previous, request.sample, request.graph,
                         AskedMemory(policy, request, sizes, budgetBytes).value, request.launchOverheadNs,
                         Pressure(request))
  }

  /** The state after a served call is that of one lookup, whatever kind of call it is. */
  lemma ServedCallLooksUp(s: Recency, capacity: u64, policy: Policy, call: Call)
    requires Asks(policy, call)
    ensures
      var key := KeyOf(policy, call);
      var (t, plan) := Lookup(s, capacity, key, FreshDecision(policy, call, LatestTopology(s.list, key.identity)));
      && ReachesCache(policy, call)
      && Step(s, capacity, policy, call) == (t, AnswerWith(policy, call, plan))
  {
    hide Lookup, LatestTopology, Finish;
  }

  /** The answer to a served call that is given a plan. */
  function AnswerWith(policy: Policy, call: Call, plan: CachedPlan): Answer {
    match call
    case Execute(request, sizes, budgetBytes) =>
      ToAnswer(Finish(policy, plan.topology, request.graph, sizes, budgetBytes))
    case _ => Planned(plan)
  }

  /** The answer to a call that is not served: a call the cache had no serial for, or one
      whose sparse footprint overflows. */
  function AnswerWithout(policy: Policy, call: Call): Answer {
    if call.Clear? then Cleared
    else if Asks(policy, call) || !call.Execute? then Failed(ByteCountOverflow)
    else Failed(AskedMemory(policy, call.request, call.sizes, call.budgetBytes).error)
  }

  /** Any other call leaves the list and the counters alone, except a clear. */
  lemma UnservedCallKeeps(s: Recency, capacity: u64, policy: Policy, call: Call, refused: bool)
    requires !Served(policy, call, refused)
    ensures GuardedStep(s, capacity, policy, call, refused)
         == (if call.Clear? then s.(list := []) else s, AnswerWithout(policy, call))
  {
  }

  /** The last call of a run, either way. */
  lemma LastCall(capacity: u64, policy: Policy, calls: seq<Call>, refused: seq<bool>)
    requires |calls| == |refused| && calls != []
    ensures
      var last := |calls| - 1;
      var call := calls[last];
      var (s, before) := Run(Empty, capacity, policy, calls[..last], refused[..last]);
      var (t, answers) := Run(Empty, capacity, policy, calls, refused);
      && |answers| == |before| + 1
      && if Served(policy, call, refused[last]) then
           var key := KeyOf(policy, call);
           var (u, plan) := Lookup(s, capacity, key, FreshDecision(policy, call, LatestTopology(s.list, key.identity)));
           t == u && answers[|before|] == AnswerWith(policy, call, plan)
         else
           && t == (if call.Clear? then s.(list := []) else s)
           && answers[|before|] == AnswerWithout(policy, call)
  {
    hide Run, Step, KeyOf, FreshDecision, AnswerWith, AnswerWithout, Lookup, LatestTopology, Asks;
    var last := |calls| - 1;
    var call := calls[last];
    var s := Run(Empty, capacity, policy, calls[..last], refused[..last]).0;
    RunExtends(Empty, capacity, policy, calls[..last], refused[..last], call, refused[last]);
    assert calls[..last] + [call] == calls && refused[..last] + [refused[last]] == refused;
    if Served(policy, call, refused[last]) {
      ServedCallLooksUp(s, capacity, policy, call);
    } else {
      hide GuardedStep;
      UnservedCallKeeps(s, capacity, policy, call, refused[last]);
    }
  }

  /** The cached keys after any run: the most recently used distinct keys since the last
      clear, up to the capacity, in order of last use. */
  function Recent(capacity: u64, policy: Policy, calls: seq<Call>, refused: seq<bool>): seq<PlanKey>
    requires |calls| == |refused|
  {
    Suffix(ByLastUse(UsedKeys(policy, calls, refused)), capacity)
  }

  lemma {:induction false} HoldsMostRecentlyUsed(capacity: u64, policy: Policy, calls: seq<Call>, refused: seq<bool>)
    requires |calls| == |refused|
    ensures Keys(Run(Empty, capacity, policy, calls, refused).0.list) == Recent(capacity, policy, calls, refused)
  {
    NothingUsed(capacity);
    if calls == [] {
      RunNothing(Empty, capacity, policy);
    } else {
      hide Run, Lookup, Suffix, KeyOf, Without, FreshDecision, AnswerWith, AnswerWithout, LatestTopology, Asks;
      var last := |calls| - 1;
      var call := calls[last];
      var before := UsedKeys(policy, calls[..last], refused[..last]);
      var s := Run(Empty, capacity, policy, calls[..last], refused[..last]).0;
      HoldsMostRecentlyUsed(capacity, policy, calls[..last], refused[..last]);
      LastCall(capacity, policy, calls, refused);
      assert before + [] == before;
      if Served(policy, call, refused[last]) {
        var key := KeyOf(policy, call);
        ByLastUseIsDistinct(before);
        SuffixStep(ByLastUse(before), s, capacity, key,
                   FreshDecision(policy, call, LatestTopology(s.list, key.identity)));
        assert (before + [key])[..|before|] == before;
      } else if call.Clear? {
        assert Asks(policy, call) ==> false by { ClearNeverAsks(policy); }
      }
    }
  }

  lemma ClearNeverAsks(policy: Policy)
    ensures !Asks(policy, Clear)
  {
  }

  lemma NothingUsed(capacity: u64)
    ensures Suffix(ByLastUse([]), capacity) == [] == Keys<CachedPlan>([])
  {
  }

  // ----- counters -----

  /** Over a run: served calls, those of them whose key was cached, those that made room
      by dropping the least recently used key, and keys dropped by clears. */
  datatype Tally = Tally(served: nat, hits: nat, evictions: nat, cleared: nat)

  function TallyOf(capacity: u64, policy: Policy, calls: seq<Call>, refused: seq<bool>): Tally
    requires |calls| == |refused|
  {
    if calls == [] then Tally(0, 0, 0, 0) else
      var last := |calls| - 1;
      var before := TallyOf(capacity, policy, calls[..last], refused[..last]);
      var recent := Recent(capacity, policy, calls[..last], refused[..last]);
      if calls[last].Clear? then before.(cleared := before.cleared + |recent|)
      else if !Served(policy, calls[last], refused[last]) then before
      else
        var hit := KeyOf(policy, calls[last]) in recent;
        Tally(before.served + 1,
              before.hits + (if hit then 1 else 0),
              before.evictions + (if !hit && 0 < capacity == |recent| then 1 else 0),
              before.cleared)
  }

  function Pinned(n: nat): u64 {
    if n < U64_MAX then n else U64_MAX
  }

  /** The counters over every run: hits, misses and evictions are counted each once, up
      to the largest counter, and every key that was missed is still cached, evicted or
      cleared. */
  lemma {:induction false} CountersAreExact(capacity: u64, policy: Policy, calls: seq<Call>, refused: seq<bool>)
    requires |calls| == |refused|
    ensures
      var s := Run(Empty, capacity, policy, calls, refused).0;
      var tally := TallyOf(capacity, policy, calls, refused);
      && tally.hits <= tally.served <= |calls|
      && s.hits == Pinned(tally.hits)
      && s.misses == Pinned(tally.served - tally.hits)
      && s.evictions == Pinned(tally.evictions)
      && (capacity > 0 ==> tally.served - tally.hits == |s.list| + tally.evictions + tally.cleared)
      && (capacity == 0 ==> tally.hits == tally.evictions == 0)
  {
    hide KeyOf, FreshDecision, AnswerWith, AnswerWithout, Run, Lookup, LatestTopology, Asks, Recent;
    if calls == [] {
      RunNothing(Empty, capacity, policy);
    } else {
      var last := |calls| - 1;
      var call := calls[last];
      var s := Run(Empty, capacity, policy, calls[..last], refused[..last]).0;
      CountersAreExact(capacity, policy, calls[..last], refused[..last]);
      HoldsMostRecentlyUsed(capacity, policy, calls[..last], refused[..last]);
      StaysWithin(capacity, policy, calls[..last], refused[..last]);
      LastCall(capacity, policy, calls, refused);
      ClearNeverAsks(policy);
      if Served(policy, call, refused[last]) {
        var key := KeyOf(policy, call);
        LookupCounts(s, capacity, key, FreshDecision(policy, call, LatestTopology(s.list, key.identity)));
      }
    }
  }

  lemma StaysWithin(capacity: u64, policy: Policy, calls: seq<Call>, refused: seq<bool>)
    requires |calls| == |refused|
    ensures |Run(Empty, capacity, policy, calls, refused).0.list| <= capacity
  {
    hide Run;
    RunKeepsWellFormed(Empty, capacity, policy, calls, refused);
  }

  /** One lookup counts a hit or a miss, and an eviction exactly when a missed key
      displaces another. */
  lemma LookupCounts(s: Recency, capacity: u64, key: PlanKey, decision: Decision)
    requires |s.list| <= capacity
    ensures
      var t := Lookup(s, capacity, key, decision).0;
      if key in Keys(s.list) then
        t == s.(list := t.list, hits := PinnedIncrement(s.hits)) && |t.list| == |s.list|
      else if 0 < capacity == |s.list| then
        && t == s.(list := t.list, misses := PinnedIncrement(s.misses), evictions := PinnedIncrement(s.evictions))
        && |t.list| == |s.list|
      else
        && t == s.(list := t.list, misses := PinnedIncrement(s.misses))
        && |t.list| == if capacity == 0 then |s.list| else |s.list| + 1
  {
    var i := IndexOf(s.list, key);
    if i < |s.list| {
      assert Keys(s.list)[i] == key;
    }
  }

  // ----- which plan a call is given -----

  /** A served call and the plan it was given. */
  datatype Use = Use(key: PlanKey, plan: CachedPlan)

  function KeysUsed(uses: seq<Use>): (keys: seq<PlanKey>)
    ensures |keys| == |uses|
    ensures forall i | 0 <= i < |uses| :: keys[i] == uses[i].key
  {
    seq(|uses|, i requires 0 <= i < |uses| => uses[i].key)
  }

  /** The plan a key was last given. */
  function LastPlan(uses: seq<Use>, key: PlanKey): Option<CachedPlan> {
    if uses == [] then None
    else if uses[|uses| - 1].key == key then Some(uses[|uses| - 1].plan)
    else LastPlan(uses[..|uses| - 1], key)
  }

  /** The last key used with an identity. */
  function LastKey(keys: seq<PlanKey>, identity: PlanIdentity): Option<PlanKey> {
    if keys == [] then None
    else if keys[|keys| - 1].identity == identity then Some(keys[|keys| - 1])
    else LastKey(keys[..|keys| - 1], identity)
  }

  predicate StillCached(uses: seq<Use>, capacity: u64, key: PlanKey) {
    key in Suffix(ByLastUse(KeysUsed(uses)), capacity)
  }

  /** The topology last given to the identity, while the key it was given to is among
      the most recently used ones. */
  function PreviousTopology(uses: seq<Use>, capacity: u64, identity: PlanIdentity): Option<ExecutionTopology> {
    match LastKey(KeysUsed(uses), identity)
    case None => None
    case Some(key) =>
      if StillCached(uses, capacity, key) && LastPlan(uses, key).Some? then Some(LastPlan(uses, key).value.topology)
      else None
  }

  /** The plan a served call is given after these uses: the cached one, or a new one that
      follows the identity's previous topology. */
  function PlanGiven(uses: seq<Use>, capacity: u64, policy: Policy, call: Call): CachedPlan
    requires Asks(policy, call)
  {
    var key := KeyOf(policy, call);
    if StillCached(uses, capacity, key) && LastPlan(uses, key).Some? then LastPlan(uses, key).value
    else
      var decision := FreshDecision(policy, call, PreviousTopology(uses, capacity, key.identity));
      CachedPlan(decision.topology, decision)
  }

  /** The served calls since the last clear, each with its plan. */
  function Uses(capacity: u64, policy: Policy, calls: seq<Call>, refused: seq<bool>): seq<Use>
    requires |calls| == |refused|
  {
    if calls == [] then [] else
      var last := |calls| - 1;
      var before := Uses(capacity, policy, calls[..last], refused[..last]);
      if calls[last].Clear? then []
      else if !Served(policy, calls[last], refused[last]) then before
      else before + [Use(KeyOf(policy, calls[last]), PlanGiven(before, capacity, policy, calls[last]))]
  }

  lemma {:induction false} UsesAreOfUsedKeys(capacity: u64, policy: Policy, calls: seq<Call>, refused: seq<bool>)
    requires |calls| == |refused|
    ensures KeysUsed(Uses(capacity, policy, calls, refused)) == UsedKeys(policy, calls, refused)
  {
    hide KeyOf, PlanGiven;
    if calls != [] {
      UsesAreOfUsedKeys(capacity, policy, calls[..|calls| - 1], refused[..|calls| - 1]);
    }
  }

  /** The list holds what the uses say: the recent keys, each with its last plan. */
  ghost predicate Reflects(list: seq<Line>, uses: seq<Use>, capacity: u64) {
    && Keys(list) == Suffix(ByLastUse(KeysUsed(uses)), capacity)
    && forall i | 0 <= i < |list| :: LastPlan(uses, list[i].0) == Some(list[i].1)
  }

  lemma {:induction false} OtherIdentity(keys: seq<PlanKey>, key: PlanKey, identity: PlanIdentity)
    requires key.identity != identity
    ensures LastKey(Without(keys, key), identity) == LastKey(keys, identity)
  {
    if keys != [] {
      var last := |keys| - 1;
      OtherIdentity(keys[..last], key, identity);
      var init := Without(keys[..last], key);
      assert (init + [keys[last]])[..|init|] == init;
    }
  }

  lemma AppendedKey(keys: seq<PlanKey>, key: PlanKey, identity: PlanIdentity)
    ensures LastKey(keys + [key], identity) == if key.identity == identity then Some(key) else LastKey(keys, identity)
  {
    assert (keys + [key])[..|keys|] == keys;
  }

  /** Ordering a history by last use keeps the last key of every identity. */
  lemma {:induction false} LastKeyByLastUse(history: seq<PlanKey>, identity: PlanIdentity)
    ensures LastKey(ByLastUse(history), identity) == LastKey(history, identity)
  {
    hide Without;
    if history != [] {
      var last := |history| - 1;
      var key := history[last];
      LastKeyByLastUse(history[..last], identity);
      AppendedKey(Without(ByLastUse(history[..last]), key), key, identity);
      if key.identity != identity {
        OtherIdentity(ByLastUse(history[..last]), key, identity);
      }
    }
  }

  lemma {:induction false} LastKeyListed(keys: seq<PlanKey>, identity: PlanIdentity)
    ensures LastKey(keys, identity).Some? ==> LastKey(keys, identity).value in keys
  {
    if keys != [] && keys[|keys| - 1].identity != identity {
      LastKeyListed(keys[..|keys| - 1], identity);
    }
  }

  lemma {:induction false} LastKeyOfBoth(front: seq<PlanKey>, back: seq<PlanKey>, identity: PlanIdentity)
    ensures LastKey(front + back, identity)
         == if LastKey(back, identity).Some? then LastKey(back, identity) else LastKey(front, identity)
  {
    if back == [] {
      assert front + back == front;
    } else {
      var last := |back| - 1;
      assert (front + back)[..|front + back| - 1] == front + back[..last];
      LastKeyOfBoth(front, back[..last], identity);
    }
  }

  /** Of a suffix it is the same key, unless that key has fallen out; then every key of
      the identity has. */
  lemma LastKeyOfSuffix(keys: seq<PlanKey>, n: nat, identity: PlanIdentity)
    requires Distinct(keys)
    ensures
      var all := LastKey(keys, identity);
      LastKey(Suffix(keys, n), identity) == if all.Some? && all.value in Suffix(keys, n) then all else None
  {
    var suffix := Suffix(keys, n);
    var front := keys[..|keys| - |suffix|];
    assert keys == front + suffix;
    hide LastKey, Suffix, Distinct;
    LastKeyOfBoth(front, suffix, identity);
    LastKeyListed(suffix, identity);
    LastKeyListed(front, identity);
    if LastKey(suffix, identity).None? && LastKey(front, identity).Some? {
      Apart(front, suffix, LastKey(front, identity).value);
    }
  }

  lemma Apart(front: seq<PlanKey>, back: seq<PlanKey>, key: PlanKey)
    requires Distinct(front + back) && key in front
    ensures key !in back
  {
    var i :| 0 <= i < |front| && front[i] == key;
    forall j | 0 <= j < |back|
      ensures back[j] != key
    {
      assert (front + back)[i] != (front + back)[|front| + j];
    }
  }

  /** Scanning the list finds the last key of the identity, with its plan. */
  lemma {:induction false} ScanFindsLastKey(list: seq<Line>, identity: PlanIdentity)
    ensures
      var key := LastKey(Keys(list), identity);
      match LatestTopology(list, identity)
      case None => key.None?
      case Some(topology) =>
        key.Some? && exists i :: 0 <= i < |list| && list[i].0 == key.value && list[i].1.topology == topology
  {
    if list != [] {
      var last := |list| - 1;
      assert Keys(list)[..last] == Keys(list[..last]);
      if list[last].0.identity != identity {
        ScanFindsLastKey(list[..last], identity);
        if LatestTopology(list, identity).Some? {
          var i :| && 0 <= i < last && list[..last][i].0 == LastKey(Keys(list), identity).value
                   && list[..last][i].1.topology == LatestTopology(list, identity).value;
          assert list[i].0 == LastKey(Keys(list), identity).value;
        }
      } else {
        assert list[last].0 == LastKey(Keys(list), identity).value;
      }
    }
  }

  /** The list's latest topology of an identity is the one the history names. */
  lemma LatestIsPrevious(list: seq<Line>, uses: seq<Use>, capacity: u64, identity: PlanIdentity)
    requires Reflects(list, uses, capacity)
    ensures LatestTopology(list, identity) == PreviousTopology(uses, capacity, identity)
  {
    var history := KeysUsed(uses);
    ByLastUseIsDistinct(history);
    LastKeyByLastUse(history, identity);
    LastKeyOfSuffix(ByLastUse(history), capacity, identity);
    ScanFindsLastKey(list, identity);
    hide LastKey, LatestTopology, LastPlan, ByLastUse, Suffix;
    var key := LastKey(history, identity);
    if key.Some? && StillCached(uses, capacity, key.value) {
      var i :| 0 <= i < |list| && Keys(list)[i] == key.value;
      assert LastPlan(uses, list[i].0) == Some(list[i].1);
      assert LatestTopology(list, identity).Some?;
      var j :| 0 <= j < |list| && list[j].0 == key.value && list[j].1.topology == LatestTopology(list, identity).value;
      assert LastPlan(uses, list[j].0) == Some(list[j].1);
    }
  }

  /** Looking a key up gives the plan the history names, and the list then reflects the
      history with this use. */
  lemma LookupFollows(s: Recency, uses: seq<Use>, capacity: u64, key: PlanKey, decision: Decision)
    requires Reflects(s.list, uses, capacity)
    ensures
      var (t, plan) := Lookup(s, capacity, key, decision);
      && plan == (if StillCached(uses, capacity, key) && LastPlan(uses, key).Some? then LastPlan(uses, key).value
                  else CachedPlan(decision.topology, decision))
      && Reflects(t.list, uses + [Use(key, plan)], capacity)
  {
    var (t, plan) := Lookup(s, capacity, key, decision);
    var after := uses + [Use(key, plan)];
    GivenPlan(s, uses, capacity, key, decision);
    ByLastUseIsDistinct(KeysUsed(uses));
    SuffixStep(ByLastUse(KeysUsed(uses)), s, capacity, key, decision);
    assert KeysUsed(after) == KeysUsed(uses) + [key] && KeysUsed(after)[..|uses|] == KeysUsed(uses);
    assert Keys(t.list) == Suffix(ByLastUse(KeysUsed(after)), capacity);
    hide ByLastUse, Suffix, Lookup, LastPlan;
    DistinctLines(s.list, uses, capacity);
    forall j | 0 <= j < |t.list|
      ensures LastPlan(after, t.list[j].0) == Some(t.list[j].1)
    {
      LookupLines(s, capacity, key, decision, j);
      LastPlanAfter(uses, Use(key, plan), t.list[j].0);
      if t.list[j].0 != key {
        var k :| 0 <= k < |s.list| && s.list[k] == t.list[j];
        assert LastPlan(uses, s.list[k].0) == Some(s.list[k].1);
      }
    }
  }

  lemma LastPlanAfter(uses: seq<Use>, use: Use, key: PlanKey)
    ensures LastPlan(uses + [use], key) == if use.key == key then Some(use.plan) else LastPlan(uses, key)
  {
    assert (uses + [use])[..|uses|] == uses;
  }

  lemma DistinctLines(list: seq<Line>, uses: seq<Use>, capacity: u64)
    requires Reflects(list, uses, capacity)
    ensures forall a, b | 0 <= a < b < |list| :: list[a].0 != list[b].0
  {
    ByLastUseIsDistinct(KeysUsed(uses));
    hide ByLastUse;
    forall a, b | 0 <= a < b < |list|
      ensures list[a].0 != list[b].0
    {
      assert Keys(list)[a] != Keys(list)[b];
    }
  }

  lemma GivenPlan(s: Recency, uses: seq<Use>, capacity: u64, key: PlanKey, decision: Decision)
    requires Reflects(s.list, uses, capacity)
    ensures Lookup(s, capacity, key, decision).1
         == if StillCached(uses, capacity, key) && LastPlan(uses, key).Some? then LastPlan(uses, key).value
            else CachedPlan(decision.topology, decision)
  {
    hide ByLastUse, Suffix, LastPlan;
    var i := IndexOf(s.list, key);
    if i < |s.list| {
      assert Keys(s.list)[i] == key;
      assert LastPlan(uses, s.list[i].0) == Some(s.list[i].1);
    }
  }

  /** A line of the list after a lookup is an old one, or the looked-up key with its plan. */
  lemma LookupLines(s: Recency, capacity: u64, key: PlanKey, decision: Decision, j: nat)
    requires j < |Lookup(s, capacity, key, decision).0.list|
    requires forall a, b | 0 <= a < b < |s.list| :: s.list[a].0 != s.list[b].0
    ensures
      var (t, plan) := Lookup(s, capacity, key, decision);
      && (t.list[j].0 == key ==> t.list[j].1 == plan)
      && (t.list[j].0 != key ==> exists k :: 0 <= k < |s.list| && s.list[k] == t.list[j])
  {
    var t := Lookup(s, capacity, key, decision).0;
    var i := IndexOf(s.list, key);
    if i < |s.list| {
      var k := if j < i then j else if j == |s.list| - 1 then i else j + 1;
      assert t.list[j] == s.list[k];
    } else if capacity > 0 && j < |t.list| - 1 {
      var k := if capacity <= |s.list| then j + 1 else j;
      assert t.list[j] == s.list[k];
    }
  }

  /** Every run follows its history: the list reflects it, and every served call is
      answered with the plan it names. In particular a request for a key that is not
      cached gets a decision made against the topology last given to its identity, if
      the key that was given it is still cached, and against none otherwise. */
  lemma {:induction false} RunFollowsHistory(capacity: u64, policy: Policy, calls: seq<Call>, refused: seq<bool>)
    requires |calls| == |refused|
    ensures
      var (s, answers) := Run(Empty, capacity, policy, calls, refused);
      && |answers| == |calls|
      && Reflects(s.list, Uses(capacity, policy, calls, refused), capacity)
      && (calls != [] && Served(policy, calls[|calls| - 1], refused[|calls| - 1]) ==>
            var before := Uses(capacity, policy, calls[..|calls| - 1], refused[..|calls| - 1]);
            answers[|calls| - 1]
            == AnswerWith(policy, calls[|calls| - 1], PlanGiven(before, capacity, policy, calls[|calls| - 1])))
      && (calls != [] && !Served(policy, calls[|calls| - 1], refused[|calls| - 1]) ==>
            answers[|calls| - 1] == AnswerWithout(policy, calls[|calls| - 1]))
  {
    if calls == [] {
      RunNothing(Empty, capacity, policy);
      NothingUsed(capacity);
    } else {
      hide Run, KeyOf, FreshDecision, AnswerWith, AnswerWithout, Reflects, Lookup, LastPlan, StillCached, Asks;
      hide LatestTopology, PreviousTopology;
      var last := |calls| - 1;
      var call := calls[last];
      RunFollowsHistory(capacity, policy, calls[..last], refused[..last]);
      LastCall(capacity, policy, calls, refused);
      ClearNeverAsks(policy);
      NothingReflected(capacity);
      var s := Run(Empty, capacity, policy, calls[..last], refused[..last]).0;
      var before := Uses(capacity, policy, calls[..last], refused[..last]);
      if Served(policy, call, refused[last]) {
        var key := KeyOf(policy, call);
        LatestIsPrevious(s.list, before, capacity, key.identity);
        LookupFollows(s, before, capacity, key, FreshDecision(policy, call, LatestTopology(s.list, key.identity)));
      }
    }
  }

  /** The same for every call of a run. */
  lemma {:induction false} AnswersFollowHistory(capacity: u64, policy: Policy, calls: seq<Call>, refused: seq<bool>,
                                                i: nat)
    requires |calls| == |refused| && i < |calls|
    ensures
      var answers := Run(Empty, capacity, policy, calls, refused).1;
      && |answers| == |calls|
      && answers[i] ==
         if Served(policy, calls[i], refused[i]) then
           AnswerWith(policy, calls[i],
                      PlanGiven(Uses(capacity, policy, calls[..i], refused[..i]), capacity, policy, calls[i]))
         else AnswerWithout(policy, calls[i])
  {
    hide GuardedStep, PlanGiven, AnswerWith, AnswerWithout, Uses, Reflects, Served;
    RunFollowsHistory(capacity, policy, calls, refused);
    var last := |calls| - 1;
    if i < last {
      AnswersFollowHistory(capacity, policy, calls[..last], refused[..last], i);
      assert calls[..last][..i] == calls[..i] && refused[..last][..i] == refused[..i];
    }
  }

  lemma NothingReflected(capacity: u64)
    ensures Reflects([], [], capacity)
  {
    NothingUsed(capacity);
  }
}
