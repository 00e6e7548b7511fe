/** The bounded CUDA megakernel plan cache: an entry map stamped by a serial
    clock, a lazy min-queue of (serial, key) records that keeps stale records (a
    set: `Enqueue` shows that it loses nothing against the heap's multiset), an
    index from identity to its latest topology, and pinned counters. Every
    operation is proved to act on `View()` exactly as `RecencyModel` says.

    `reserveOk` is the environment's answer to the scratch reservation that a
    serial rebase makes; it is ignored by calls that do not rebase. */
module PlanCache {
  import opened Machine
  import opened Topology
  import opened RecencyModel
  import opened PlanCacheIndex
  import opened Sequences
  import opened Ordering

  predicate SerialLeq(a: Record, b: Record) {
    a.serial <= b.serial
  }

  class Cache {
    var entries: Entries
    var latest: map<PlanIdentity, Latest>
    var queue: set<Record>
    var serial: u64
    var hits: u64
    var misses: u64
    var evictions: u64
    const maxEntries: u64
    const policy: Policy
    /** The cached keys by stamp; determined by `entries` (OrderIsUnique). */
    ghost var order: seq<PlanKey>

    ghost predicate Valid()
      reads this
    {
      Agree(entries, latest, queue, serial, order, maxEntries)
    }

    ghost function View(): Recency
      reads this
      requires Valid()
    {
      Recency(ListOf(entries, order), hits, misses, evictions)
    }

    /** The clock is at its end and a rebase cannot supply another serial. */
    ghost predicate Exhausted(reserveOk: bool)
      reads this
    {
      serial == U64_MAX && (!reserveOk || |entries| == U64_MAX)
    }

    /** The current serial is newer than every queued record. */
    ghost predicate SerialIsFresh()
      reads this
    {
      serial >= 1 && forall r | r in queue :: r.serial < serial
    }

    constructor (maxEntries: u64, policy: Policy)
      ensures Valid() && View() == Empty
      ensures this.maxEntries == maxEntries && this.policy == policy && serial == 0
      ensures entries == map[] && queue == {}
    {
      entries, latest, queue := map[], map[], {};
      serial, hits, misses, evictions := 0, 0, 0, 0;
      this.maxEntries := maxEntries;
      this.policy := policy;
      order := [];
    }

    method LatestTopologyForIdentity(identity: PlanIdentity) returns (topology: Option<ExecutionTopology>)
      requires Valid()
      ensures topology == LatestTopology(View().list, identity)
    {
      LookupMatchesScan(entries, order, latest, identity);
      topology := if identity in latest then Some(latest[identity].topology) else None;
    }

    /** Push a record. Its serial is new, so no record is ever queued twice. */
    method Enqueue(record: Record)
      requires forall r | r in queue :: r.serial < record.serial
      modifies this`queue
      ensures multiset(queue) == multiset(old(queue)) + multiset{record}
      ensures queue == old(queue) + {record} && |queue| == |old(queue)| + 1
    {
      queue := queue + {record};
    }

    method UpdateLatestIdentity(identity: PlanIdentity, stamp: nat, topology: ExecutionTopology)
      modifies this`latest
      ensures latest == if identity in old(latest) && old(latest)[identity].serial > stamp then old(latest)
                        else old(latest)[identity := Latest(stamp, topology)]
    {
      if identity in latest && latest[identity].serial > stamp {
      } else {
        latest := latest[identity := Latest(stamp, topology)];
      }
    }

    /** Rebuild one line of the index by scanning the entries. */
    method RecomputeLatestIdentity(identity: PlanIdentity)
      modifies this`latest
      ensures identity !in Identities(entries) ==> latest == old(latest) - {identity}
      ensures identity in Identities(entries) ==>
                && identity in latest
                && Newest(entries, identity, latest[identity])
                && latest == old(latest)[identity := latest[identity]]
    {
      var best: Option<PlanKey> := None;
      var todo := entries.Keys;
      while todo != {}
        invariant todo <= entries.Keys
        invariant best.None? ==> forall k | k in entries && k !in todo :: k.identity != identity
        invariant best.Some? ==> best.value in entries && best.value.identity == identity
        invariant best.Some? ==> forall k | k in entries && k !in todo && k.identity == identity ::
                                   entries[k].lastSeen <= entries[best.value].lastSeen
        decreases todo
      {
        var key :| key in todo;
        todo := todo - {key};
        if key.identity == identity {
          if best.None? || entries[best.value].lastSeen <= entries[key].lastSeen {
            best := Some(key);
          }
        }
      }
      if best.Some? {
        latest := latest[identity := Latest(entries[best.value].lastSeen, entries[best.value].plan.topology)];
      } else {
        latest := latest - {identity};
      }
    }

    /** Pop records until a live one is found and evict its entry, while full.
        When full this evicts exactly the least recently used entry; the
        queue never runs dry first. */
    method EvictUntilBelowLimit()
      requires Valid() && SerialIsFresh()
      requires maxEntries > 0
      modifies this`entries, this`latest, this`queue, this`evictions, this`order
      ensures Valid() && SerialIsFresh()
      ensures |entries| < maxEntries
      ensures entries.Keys <= old(entries.Keys)
      ensures |old(entries)| < maxEntries ==> entries == old(entries)
      ensures View().list == Room(old(View().list), maxEntries)
      ensures evictions == if maxEntries <= |old(order)| then PinnedIncrement(old(evictions)) else old(evictions)
      ensures queue <= old(queue)
      ensures |old(entries)| < maxEntries ==> queue == old(queue)
    {
      hide OrderOf, QueueTracks, LatestTracks, Coherent;
      OrderLength(entries, order);
      ghost var list := View().list;
      while |entries| >= maxEntries
        invariant Valid() && SerialIsFresh()
        invariant queue <= old(queue)
        invariant |old(entries)| < maxEntries ==> entries == old(entries) && queue == old(queue)
        invariant |entries| >= maxEntries ==> entries == old(entries) && order == old(order)
        invariant |entries| >= maxEntries ==> evictions == old(evictions)
        invariant |entries| < maxEntries ==> entries.Keys <= old(entries.Keys)
        invariant |entries| < maxEntries ==> View().list == Room(list, maxEntries)
        invariant |entries| < maxEntries ==>
                    evictions == if maxEntries <= |old(order)| then PinnedIncrement(old(evictions)) else old(evictions)
        decreases |queue|
      {
        var record := PeekSmallest();
        if record.key !in entries || entries[record.key].lastSeen != record.serial {
          StaleAgrees(entries, latest, queue, serial, order, maxEntries, record);
          queue := queue - {record};
        } else {
          EvictRecord(record);
        }
      }
    }

    /** The record the heap pops next. The empty-queue exit of the eviction loop
        cannot be taken: a full cache has live records. */
    method PeekSmallest() returns (record: Record)
      requires Valid() && |entries| > 0
      ensures record in queue && forall q | q in queue :: record.serial <= q.serial
    {
      QueueIsNotEmpty();
      ghost var smallest := SmallestRecord(queue);
      record :| record in queue && forall q | q in queue :: record.serial <= q.serial;
    }

    /** Evict the entry of a live smallest record. */
    method EvictRecord(record: Record)
      requires Valid()
      requires record in queue && Live(entries, record)
      requires forall q | q in queue :: record.serial <= q.serial
      modifies this`entries, this`latest, this`queue, this`evictions, this`order
      ensures Valid()
      ensures queue == old(queue) - {record}
      ensures entries == old(entries) - {record.key} && |entries| == |old(entries)| - 1
      ensures old(order) != [] && old(order)[0] == record.key
      ensures View().list == old(View().list)[1..]
      ensures evictions == PinnedIncrement(old(evictions))
    {
      hide OrderOf, QueueTracks, LatestTracks, Coherent, Newest, Identities;
      EvictAgrees(entries, latest, queue, serial, order, maxEntries, record);
      var identity := record.key.identity;
      var evictedTopology := entries[record.key].plan.topology;
      entries, queue, order := entries - {record.key}, queue - {record}, order[1..];
      if identity in latest && latest[identity] == Latest(record.serial, evictedTopology) {
        RecomputeLatestIdentity(identity);
      }
      evictions := PinnedIncrement(evictions);
    }

    lemma QueueIsNotEmpty()
      requires Valid()
      requires |entries| > 0
      ensures |queue| > 0
    {
    }

    /** One record per entry, in no particular order. */
    method CollectRecords() returns (records: seq<Record>)
      ensures Distinct(records)
      ensures forall i | 0 <= i < |records| :: Live(entries, records[i])
      ensures forall k | k in entries :: Listed(records, Record(entries[k].lastSeen, k))
    {
      records := [];
      var todo := entries.Keys;
      while todo != {}
        invariant todo <= entries.Keys
        invariant Distinct(records)
        invariant forall i | 0 <= i < |records| :: Live(entries, records[i]) && records[i].key !in todo
        invariant forall k | k in entries && k !in todo :: Listed(records, Record(entries[k].lastSeen, k))
        decreases todo
      {
        var key :| key in todo;
        var record := Record(entries[key].lastSeen, key);
        ghost var before := records;
        records := records + [record];
        forall k | k in entries && k !in todo - {key}
          ensures Listed(records, Record(entries[k].lastSeen, k))
        {
          if k == key {
            assert records[|before|] == record;
          } else {
            assert Listed(before, Record(entries[k].lastSeen, k));
            var i :| 0 <= i < |before| && before[i] == Record(entries[k].lastSeen, k);
            assert records[i] == before[i];
          }
        }
        todo := todo - {key};
      }
    }

    /** Renumber every entry 1..n in recency order, dropping all stale records. */
    method RebaseLruSerials(reserveOk: bool) returns (ok: bool)
      requires Valid()
      modifies this`entries, this`latest, this`queue, this`serial
      ensures ok == reserveOk
      ensures !ok ==> entries == old(entries) && latest == old(latest) && queue == old(queue) && serial == old(serial)
      ensures Valid() && View() == old(View())
      ensures ok ==> RebasedUpTo(old(entries), entries, order, |order|)
      ensures ok ==> serial == |entries| == |old(entries)|
      ensures ok ==> forall r | r in queue :: Live(entries, r)
    {
      hide OrderOf, QueueTracks, LatestTracks, Coherent, ListOf, Restamped, Requeued, Reindexed;
      if !reserveOk {
        return false;
      }
      var ordered := RecordsByRecency();
      RestampedEntries(entries, order);
      RebaseAgrees(entries, order, maxEntries);
      Renumber(ordered);
      return true;
    }

    /** One record per entry, from the least to the most recently used. */
    method RecordsByRecency() returns (ordered: seq<Record>)
      requires Valid()
      ensures |ordered| == |order|
      ensures forall i | 0 <= i < |ordered| :: ordered[i].key == order[i]
    {
      var records := CollectRecords();
      ordered := SortIfNeeded(SerialLeq, records);
      RearrangedAlike(records, ordered);
      forall i | 0 <= i < |ordered|
        ensures Live(entries, ordered[i])
      {
        assert Listed(ordered, ordered[i]);
        assert Listed(records, ordered[i]);
      }
      SortedRecordsFollowOrder(entries, order, ordered);
    }

    /** Give one entry a new stamp, with its record and its index line. */
    method Restamp(key: PlanKey, stamp: u64)
      requires key in entries && forall r | r in queue :: r.serial < stamp
      requires key.identity in latest ==> latest[key.identity].serial <= stamp
      modifies this`entries, this`latest, this`queue
      ensures entries == old(entries)[key := old(entries)[key].(lastSeen := stamp)]
      ensures queue == old(queue) + {Record(stamp, key)} && |queue| == |old(queue)| + 1
      ensures latest == old(latest)[key.identity := Latest(stamp, old(entries)[key].plan.topology)]
    {
      entries := entries[key := entries[key].(lastSeen := stamp)];
      Enqueue(Record(stamp, key));
      UpdateLatestIdentity(key.identity, stamp, entries[key].plan.topology);
    }

    /** Restamp the entries 1..n in the given order and rebuild queue and index. */
    method Renumber(ordered: seq<Record>)
      requires forall i | 0 <= i < |order| :: order[i] in entries
      requires |ordered| == |order| <= U64_MAX
      requires forall i | 0 <= i < |ordered| :: ordered[i].key == order[i]
      modifies this`entries, this`latest, this`queue, this`serial
      ensures entries == Restamped(old(entries), order, |order|)
      ensures queue == Requeued(order, |order|)
      ensures latest == Reindexed(old(entries), order, |order|)
      ensures serial == |order|
    {
      hide Restamped, Requeued, Reindexed;
      RebuildStart(entries, order);
      queue := {};
      latest := map[];
      var stamp: u64 := 0;
      for i := 0 to |ordered|
        invariant stamp == i
        invariant entries == Restamped(old(entries), order, i)
        invariant queue == Requeued(order, i)
        invariant latest == Reindexed(old(entries), order, i)
      {
        RebuildStep(old(entries), order, i);
        var next := CheckedAdd(stamp, 1);
        assert next.Some?;
        stamp := next.value;
        Restamp(ordered[i].key, stamp);
      }
      serial := stamp;
    }

    /** The next serial, rebasing first when the clock is exhausted. It fails only
        at the end of the clock, when the reservation fails or the cache already
        holds as many entries as there are serials. */
    method AdvanceSerial(reserveOk: bool) returns (ok: bool)
      requires Valid()
      modifies this`entries, this`latest, this`queue, this`serial
      ensures Valid() && View() == old(View()) && entries.Keys == old(entries.Keys)
      ensures ok <==> !old(Exhausted(reserveOk))
      ensures ok ==> SerialIsFresh()
      ensures ok ==> serial == if old(serial) < U64_MAX then old(serial) + 1 else |old(entries)| + 1
      ensures serial <= old(serial) + 1
      ensures old(serial) < U64_MAX ==> queue == old(queue) && entries == old(entries)
    {
      if serial == U64_MAX {
        var rebased := RebaseLruSerials(reserveOk);
        if !rebased || serial == U64_MAX {
          return false;
        }
      }
      Tick();
      return true;
    }

    method Tick()
      requires Valid() && serial < U64_MAX
      modifies this`serial
      ensures Valid() && SerialIsFresh() && serial == old(serial) + 1
    {
      TickAgrees(entries, latest, queue, serial, order, maxEntries);
      serial := serial + 1;
    }

    /** Every served lookup adds a record, so between evictions, rebases and clears the
        queue only grows; a cache that keeps nothing queues nothing. */
    method GetOrInsertWith(key: PlanKey, build: () -> Decision, reserveOk: bool)
      returns (plan: Result<CachedPlan, MemoryError>)
      requires Valid()
      modifies this
      ensures Valid()
      ensures serial <= old(serial) + 1
      ensures plan.Err? <==> old(Exhausted(reserveOk))
      ensures plan.Err? ==> View() == old(View()) && plan.error == ByteCountOverflow
      ensures plan.Ok? ==> (View(), plan.value) == Lookup(old(View()), maxEntries, key, build())
      ensures old(serial) < U64_MAX ==> serial == old(serial) + 1 && queue <= old(queue) + {Record(serial, key)}
      ensures old(serial) < U64_MAX && (key in old(entries) || |old(entries)| < maxEntries) ==>
                && queue == old(queue) + {Record(serial, key)} && |queue| == |old(queue)| + 1
                && key in entries && entries.Keys == old(entries.Keys) + {key}
      ensures old(serial) < U64_MAX && maxEntries == 0 ==> queue == old(queue)
    {
      hide OrderOf, QueueTracks, LatestTracks, Coherent;
      var advanced := AdvanceSerial(reserveOk);
      if !advanced {
        return Err(ByteCountOverflow);
      }
      if key in entries {
        var hit := Hit(key);
        return Ok(hit);
      }
      NotListed(entries, order, key);
      misses := PinnedIncrement(misses);
      if maxEntries == 0 {
        return Ok(PlanOf(build()));
      }
      EvictUntilBelowLimit();
      var plan' := PlanOf(build());
      Store(key, plan');
      return Ok(plan');
    }

    /** Restamp a cached key with the current serial. */
    method Hit(key: PlanKey) returns (plan: CachedPlan)
      requires Valid() && SerialIsFresh() && key in entries
      modifies this`entries, this`latest, this`queue, this`hits, this`order
      ensures Valid()
      ensures
        var was := old(View());
        var i := IndexOf(was.list, key);
        && i < |was.list| && plan == was.list[i].1
        && View() == was.(list := MoveToEnd(was.list, i), hits := PinnedIncrement(was.hits))
      ensures queue == old(queue) + {Record(serial, key)} && |queue| == |old(queue)| + 1
      ensures entries.Keys == old(entries.Keys) + {key}
    {
      hide OrderOf, QueueTracks, LatestTracks, Coherent, MoveToEnd, IndexOf, ListOf;
      ghost var i := PositionOf(entries, order, key);
      HitAgrees(entries, latest, queue, serial, order, maxEntries, i);
      hits := PinnedIncrement(hits);
      Restamp(key, serial);
      order := MoveToEnd(order, i);
      plan := entries[key].plan;
    }

    /** Insert a new key with the current serial. */
    method Store(key: PlanKey, plan: CachedPlan)
      requires Valid() && SerialIsFresh() && key !in entries
      requires |entries| < maxEntries && plan == PlanOf(plan.decision)
      modifies this`entries, this`latest, this`queue, this`order
      ensures Valid()
      ensures View() == old(View()).(list := old(View()).list + [(key, plan)])
      ensures queue == old(queue) + {Record(serial, key)} && |queue| == |old(queue)| + 1
      ensures entries.Keys == old(entries.Keys) + {key}
    {
      hide OrderOf, QueueTracks, LatestTracks, Coherent;
      InsertAgrees(entries, latest, queue, serial, order, maxEntries, key, plan);
      entries, order := entries[key := Entry(plan, serial)], order + [key];
      Enqueue(Record(serial, key));
      UpdateLatestIdentity(key.identity, serial, plan.topology);
    }

    method GetOrSelectTopology(request: Request, memory: MemoryBudget, reserveOk: bool)
      returns (plan: Result<CachedPlan, MemoryError>)
      requires Valid()
      modifies this
      ensures Valid()
      ensures serial <= old(serial) + 1
      ensures plan.Err? <==> old(Exhausted(reserveOk))
      ensures plan.Err? ==> View() == old(View()) && plan.error == ByteCountOverflow
      ensures plan.Ok? ==> (View(), plan.value) == ChooseTopology(old(View()), maxEntries, policy, request, memory)
    {
      var key := request.Key(policy, memory);
      var previous := LatestTopologyForIdentity(request.Identity());
      plan := GetOrInsertWith(key, () => request.Decide(policy, previous, memory), reserveOk);
    }

    method GetOrPlanExecution(request: Request, sizes: Sizes, budgetBytes: u64, reserveOk: bool)
      returns (outcome: Result<ExecutionPlan, MemoryError>, refused: bool)
      requires Valid()
      modifies this
      ensures Valid()
      ensures serial <= old(serial) + 1
      ensures refused <==> old(Exhausted(reserveOk)) && ReachesCache(policy, Execute(request, sizes, budgetBytes))
      ensures (View(), ToAnswer(outcome))
           == GuardedStep(old(View()), maxEntries, policy, Execute(request, sizes, budgetBytes), refused)
    {
      var pressure := SparsePressure(policy, Execute(request, sizes, budgetBytes));
      if pressure.Err? {
        return Err(pressure.error), false;
      }
      var cached := GetOrSelectTopology(request, pressure.value, reserveOk);
      if cached.Err? {
        return Err(cached.error), true;
      }
      return Finish(policy, cached.value.topology, request.graph, sizes, budgetBytes), false;
    }

    method ClearAll()
      requires Valid()
      modifies this`entries, this`latest, this`queue, this`order
      ensures Valid() && View() == old(View()).(list := [])
    {
      entries, latest, queue := map[], map[], {};
      order := [];
    }

    /** Whatever happens, the queue holds at most one record per serial. */
    lemma QueueWithinClock()
      requires Valid()
      ensures |queue| <= serial
    {
      QueueIsBounded(queue, serial);
    }

    method Stats() returns (hitCount: u64, missCount: u64, evictionCount: u64, entryCount: nat)
      requires Valid()
      ensures View() == Recency(View().list, hitCount, missCount, evictionCount) && entryCount == |View().list|
    {
      OrderLength(entries, order);
      return hits, misses, evictions, |entries|;
    }
  }

  /** Serve a whole run of calls. The answers and the final state are those of the
      recency list; a call is refused only when the clock is exhausted and the
      rebase cannot get its scratch or any further serial, so none is refused before
      as many calls as there are serials left. */
  method Serve(cache: Cache, calls: seq<Call>, reserveOk: seq<bool>) returns (answers: seq<Answer>, refused: seq<bool>)
    requires cache.Valid()
    requires |reserveOk| == |calls|
    modifies cache
    ensures cache.Valid()
    ensures |refused| == |calls|
    ensures (cache.View(), answers) == Run(old(cache.View()), cache.maxEntries, cache.policy, calls, refused)
    ensures forall i | 0 <= i < |calls| && refused[i] ::
              && old(cache.serial) + i >= U64_MAX
              && (!reserveOk[i] || cache.maxEntries == U64_MAX)
  {
    hide Run, GuardedStep, Agree;
    RunNothing(cache.View(), cache.maxEntries, cache.policy);
    answers, refused := [], [];
    for i := 0 to |calls|
      invariant cache.Valid()
      invariant |refused| == i
      invariant (cache.View(), answers) == Run(old(cache.View()), cache.maxEntries, cache.policy, calls[..i], refused)
      invariant cache.serial <= old(cache.serial) + i
      invariant forall j | 0 <= j < i && refused[j] ::
                  && old(cache.serial) + j >= U64_MAX
                  && (!reserveOk[j] || cache.maxEntries == U64_MAX)
    {
      var answer, blocked := ServeOne(cache, calls[i], reserveOk[i]);
      RunExtends(old(cache.View()), cache.maxEntries, cache.policy, calls[..i], refused, calls[i], blocked);
      assert calls[..i + 1] == calls[..i] + [calls[i]];
      answers := answers + [answer];
      refused := refused + [blocked];
    }
    assert calls[..|calls|] == calls;
  }

  method ServeOne(cache: Cache, call: Call, reserveOk: bool) returns (answer: Answer, blocked: bool)
    requires cache.Valid()
    modifies cache
    ensures cache.Valid()
    ensures (cache.View(), answer) == GuardedStep(old(cache.View()), cache.maxEntries, cache.policy, call, blocked)
    ensures cache.serial <= old(cache.serial) + 1
    ensures blocked <==> old(cache.Exhausted(reserveOk)) && ReachesCache(cache.policy, call)
    ensures blocked ==> old(cache.serial) == U64_MAX && (!reserveOk || cache.maxEntries == U64_MAX)
  {
    hide Lookup, ChooseTopology, Finish, OrderOf, QueueTracks, LatestTracks, Coherent;
    blocked := false;
    match call {
      case Insert(key, decision) =>
        var plan := cache.GetOrInsertWith(key, () => decision, reserveOk);
        blocked := plan.Err?;
        answer := match plan case Ok(p) => Planned(p) case Err(e) => Failed(e);
      case Choose(request, memory) =>
        var plan := cache.GetOrSelectTopology(request, memory, reserveOk);
        blocked := plan.Err?;
        answer := match plan case Ok(p) => Planned(p) case Err(e) => Failed(e);
      case Execute(request, sizes, budgetBytes) =>
        var outcome, wasRefused := cache.GetOrPlanExecution(request, sizes, budgetBytes, reserveOk);
        blocked := wasRefused;
        answer := ToAnswer(outcome);
      case Clear =>
        cache.ClearAll();
        answer := Cleared;
    }
  }

  /** The queue of a cache is not bounded by its capacity: on a new cache, `n` lookups
      of one key leave one entry and `n` records, up to the end of the clock. */
  method QueueOutgrowsCache(maxEntries: u64, policy: Policy, key: PlanKey, decision: Decision, n: u64)
    returns (cache: Cache)
    requires maxEntries > 0 && n > 0
    ensures cache.Valid() && cache.maxEntries == maxEntries
    ensures cache.entries.Keys == {key} && |cache.queue| == n == cache.serial
  {
    hide Agree, Lookup;
    cache := new Cache(maxEntries, policy);
    for i := 0 to n
      invariant cache.Valid() && cache.maxEntries == maxEntries && fresh(cache)
      invariant cache.serial == i == |cache.queue|
      invariant cache.entries.Keys == if i == 0 then {} else {key}
    {
      assert key in cache.entries || |cache.entries| < maxEntries;
      var plan := cache.GetOrInsertWith(key, () => decision, true);
    }
  }
}
