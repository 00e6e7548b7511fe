/** The three structures behind the plan cache - the entry map, the lazy eviction
    queue with its stale records, and the latest-topology index - and what has to
    hold between them. */
module PlanCacheIndex {
  import opened Machine
  import opened Topology
  import opened RecencyModel
  import opened Sequences

  datatype Entry = Entry(plan: CachedPlan, lastSeen: nat)

  datatype Record = Record(serial: nat, key: PlanKey)

  datatype Latest = Latest(serial: nat, topology: ExecutionTopology)

  type Entries = map<PlanKey, Entry>

  /** `order` lists the cached keys from the oldest to the newest stamp. */
  ghost predicate OrderOf(entries: Entries, order: seq<PlanKey>) {
    && (forall i | 0 <= i < |order| :: order[i] in entries)
    && (forall k | k in entries :: Listed(order, k))
    && (forall i, j | 0 <= i < j < |order| :: entries[order[i]].lastSeen < entries[order[j]].lastSeen)
  }

  /** A record is live when it carries its entry's current stamp, stale otherwise. */
  predicate Live(entries: Entries, r: Record) {
    r.key in entries && entries[r.key].lastSeen == r.serial
  }

  /** Every entry has its live record, and no two records share a serial. */
  ghost predicate QueueTracks(entries: Entries, queue: set<Record>, serial: nat) {
    && (forall k | k in entries :: Record(entries[k].lastSeen, k) in queue)
    && (forall r | r in queue :: 1 <= r.serial <= serial)
    && (forall r, q | r in queue && q in queue && r.serial == q.serial :: r == q)
  }

  ghost function Identities(entries: Entries): set<PlanIdentity> {
    set k | k in entries :: k.identity
  }

  /** The index holds, for exactly the identities that are cached, the stamp and
      topology of their most recently used entry. */
  ghost predicate LatestTracks(entries: Entries, latest: map<PlanIdentity, Latest>) {
    && latest.Keys == Identities(entries)
    && (forall id | id in latest :: Newest(entries, id, latest[id]))
  }

  ghost predicate Newest(entries: Entries, id: PlanIdentity, line: Latest) {
    && (exists k :: k in entries && k.identity == id
                    && line.serial == entries[k].lastSeen && line.topology == entries[k].plan.topology)
    && (forall k | k in entries && k.identity == id :: entries[k].lastSeen <= line.serial)
  }

  lemma NewestWitness(entries: Entries, id: PlanIdentity, line: Latest) returns (k: PlanKey)
    requires Newest(entries, id, line)
    ensures k in entries && k.identity == id
    ensures line.serial == entries[k].lastSeen && line.topology == entries[k].plan.topology
  {
    k :| k in entries && k.identity == id
         && line.serial == entries[k].lastSeen && line.topology == entries[k].plan.topology;
  }

  ghost predicate Coherent(entries: Entries) {
    forall k | k in entries :: entries[k].plan == PlanOf(entries[k].plan.decision)
  }

  /** All structures agree. */
  ghost predicate Agree(entries: Entries, latest: map<PlanIdentity, Latest>, queue: set<Record>, serial: nat,
                        order: seq<PlanKey>, maxEntries: u64)
  {
    && OrderOf(entries, order)
    && QueueTracks(entries, queue, serial)
    && LatestTracks(entries, latest)
    && Coherent(entries)
    && |entries| <= maxEntries
  }

  lemma TickAgrees(entries: Entries, latest: map<PlanIdentity, Latest>, queue: set<Record>, serial: nat,
                   order: seq<PlanKey>, maxEntries: u64)
    requires Agree(entries, latest, queue, serial, order, maxEntries)
    ensures Agree(entries, latest, queue, serial + 1, order, maxEntries)
    ensures forall r | r in queue :: r.serial < serial + 1
    ensures forall k | k in entries :: entries[k].lastSeen < serial + 1
  {
  }

  function ListOf(entries: Entries, order: seq<PlanKey>): (list: seq<Line>)
    requires forall i | 0 <= i < |order| :: order[i] in entries
    ensures |list| == |order|
    ensures forall i | 0 <= i < |order| :: list[i] == (order[i], entries[order[i]].plan)
  {
    seq(|order|, i requires 0 <= i < |order| => (order[i], entries[order[i]].plan))
  }

  // ----- the order -----

  lemma OrderLength(entries: Entries, order: seq<PlanKey>)
    requires OrderOf(entries, order)
    ensures Distinct(order)
    ensures |order| == |entries|
  {
    DistinctCount(order, entries.Keys);
  }

  /** Position of a cached key in the order. */
  lemma PositionOf(entries: Entries, order: seq<PlanKey>, key: PlanKey) returns (i: nat)
    requires OrderOf(entries, order) && key in entries
    ensures i < |order| && order[i] == key
  {
    assert Listed(order, key);
    i :| 0 <= i < |order| && order[i] == key;
  }

  lemma StampsDiffer(entries: Entries, order: seq<PlanKey>, a: PlanKey, b: PlanKey)
    requires OrderOf(entries, order) && a in entries && b in entries
    requires entries[a].lastSeen == entries[b].lastSeen
    ensures a == b
  {
  }

  /** The ends of the order are the oldest and the newest entry. */
  lemma EndsOfOrder(entries: Entries, order: seq<PlanKey>, key: PlanKey)
    requires OrderOf(entries, order) && key in entries
    ensures order != []
    ensures entries[order[0]].lastSeen <= entries[key].lastSeen <= entries[order[|order| - 1]].lastSeen
  {
  }

  lemma DropOldest(entries: Entries, order: seq<PlanKey>)
    requires OrderOf(entries, order) && order != []
    ensures OrderOf(entries - {order[0]}, order[1..])
    ensures ListOf(entries - {order[0]}, order[1..]) == ListOf(entries, order)[1..]
  {
    var rest := entries - {order[0]};
    forall k | k in rest
      ensures Listed(order[1..], k)
    {
      var i := PositionOf(entries, order, k);
      assert order[1..][i - 1] == k;
    }
  }

  /** A key's position is the number of entries older than it. */
  lemma RankIsPosition(entries: Entries, order: seq<PlanKey>, i: nat)
    requires OrderOf(entries, order) && i < |order|
    ensures |set k | k in entries && entries[k].lastSeen < entries[order[i]].lastSeen| == i
  {
    var older := set k | k in entries && entries[k].lastSeen < entries[order[i]].lastSeen;
    forall k | k in older
      ensures Listed(order[..i], k)
    {
      var j := PositionOf(entries, order, k);
      assert j < i;
      assert order[..i][j] == k;
    }
    DistinctCount(order[..i], older);
  }

  /** The stamps determine the order: any two listings by stamp coincide. */
  lemma OrderIsUnique(entries: Entries, a: seq<PlanKey>, b: seq<PlanKey>)
    requires OrderOf(entries, a) && OrderOf(entries, b)
    ensures a == b
  {
    OrderLength(entries, a);
    OrderLength(entries, b);
    forall i | 0 <= i < |a|
      ensures a[i] == b[i]
    {
      var j := PositionOf(entries, b, a[i]);
      RankIsPosition(entries, a, i);
      RankIsPosition(entries, b, j);
    }
  }

  /** Stamping a cached key with a fresh serial moves it to the end. */
  lemma TouchOrder(entries: Entries, order: seq<PlanKey>, i: nat, serial: nat)
    requires OrderOf(entries, order)
    requires i < |order|
    requires forall k | k in entries :: entries[k].lastSeen < serial
    ensures
      var key := order[i];
      var touched := entries[key := entries[key].(lastSeen := serial)];
      OrderOf(touched, MoveToEnd(order, i))
  {
    var key := order[i];
    OrderLength(entries, order);
    var touched := entries[key := entries[key].(lastSeen := serial)];
    var moved := MoveToEnd(order, i);
    forall k | k in touched
      ensures Listed(moved, k)
    {
      var j := PositionOf(entries, order, k);
      assert moved[if j < i then j else if j == i then |order| - 1 else j - 1] == k;
    }
  }

  lemma TouchList(entries: Entries, order: seq<PlanKey>, i: nat, serial: nat)
    requires OrderOf(entries, order)
    requires i < |order|
    ensures
      var key := order[i];
      var touched := entries[key := entries[key].(lastSeen := serial)];
      && IndexOf(ListOf(entries, order), key) == i
      && ListOf(touched, MoveToEnd(order, i)) == MoveToEnd(ListOf(entries, order), i)
  {
  }

  /** A new key with a fresh serial goes to the end. */
  lemma AppendOrder(entries: Entries, order: seq<PlanKey>, key: PlanKey, entry: Entry)
    requires OrderOf(entries, order)
    requires key !in entries
    requires forall k | k in entries :: entries[k].lastSeen < entry.lastSeen
    ensures OrderOf(entries[key := entry], order + [key])
    ensures ListOf(entries[key := entry], order + [key]) == ListOf(entries, order) + [(key, entry.plan)]
  {
    var appended := order + [key];
    forall k | k in entries[key := entry]
      ensures Listed(appended, k)
    {
      if k == key {
        assert appended[|order|] == k;
      } else {
        var i := PositionOf(entries, order, k);
        assert appended[i] == k;
      }
    }
  }

  lemma NotListed(entries: Entries, order: seq<PlanKey>, key: PlanKey)
    requires OrderOf(entries, order)
    requires key !in entries
    ensures IndexOf(ListOf(entries, order), key) == |order|
  {
  }

  // ----- the queue -----

  /** Among the queued records exactly one is live for each cached key. */
  lemma OneLiveRecordPerKey(entries: Entries, queue: set<Record>, serial: nat, key: PlanKey)
    requires QueueTracks(entries, queue, serial)
    ensures key in entries <==> exists r :: r in queue && r.key == key && Live(entries, r)
    ensures forall r, q | && r in queue && q in queue && r.key == key && q.key == key
                          && Live(entries, r) && Live(entries, q) ::
              r == q
  {
  }

  /** Each serial is in the queue at most once, so the clock bounds its length. */
  lemma {:induction false} QueueIsBounded(queue: set<Record>, serial: nat)
    requires forall r | r in queue :: 1 <= r.serial <= serial
    requires forall r, q | r in queue && q in queue && r.serial == q.serial :: r == q
    ensures |queue| <= serial
  {
    if serial == 0 {
      assert queue == {};
    } else if r :| r in queue && r.serial == serial {
      QueueIsBounded(queue - {r}, serial - 1);
    } else {
      QueueIsBounded(queue, serial - 1);
    }
  }

  /** The record with the smallest serial, when live, is the oldest entry's. */
  lemma SmallestLiveIsOldest(entries: Entries, order: seq<PlanKey>, queue: set<Record>, serial: nat, r: Record)
    requires OrderOf(entries, order) && QueueTracks(entries, queue, serial)
    requires r in queue && Live(entries, r)
    requires forall q | q in queue :: r.serial <= q.serial
    ensures order != [] && r == Record(entries[order[0]].lastSeen, order[0])
  {
  }

  lemma {:induction false} SmallestRecord(queue: set<Record>) returns (r: Record)
    requires |queue| > 0
    ensures r in queue && forall q | q in queue :: r.serial <= q.serial
  {
    r :| r in queue;
    var rest := queue - {r};
    if |rest| > 0 {
      var s := SmallestRecord(rest);
      assert forall q | q in queue :: q == r || q in rest;
      if s.serial < r.serial { r := s; }
    }
  }

  lemma DropLiveRecord(entries: Entries, queue: set<Record>, serial: nat, r: Record)
    requires QueueTracks(entries, queue, serial)
    requires r in queue
    ensures QueueTracks(entries - {r.key}, queue - {r}, serial)
  {
  }

  /** Stamping or inserting a key with a fresh serial and queueing its record. */
  lemma PushRecord(entries: Entries, queue: set<Record>, key: PlanKey, entry: Entry)
    requires QueueTracks(entries, queue, entry.lastSeen)
    requires entry.lastSeen >= 1 && forall r | r in queue :: r.serial < entry.lastSeen
    ensures QueueTracks(entries[key := entry], queue + {Record(entry.lastSeen, key)}, entry.lastSeen)
    ensures Record(entry.lastSeen, key) !in queue
  {
  }

  // ----- the index -----

  lemma {:induction false} ScanFinds(list: seq<Line>, identity: PlanIdentity)
    ensures LatestTopology(list, identity).None? ==> forall i | 0 <= i < |list| :: list[i].0.identity != identity
    ensures LatestTopology(list, identity).Some? ==>
              exists i :: 0 <= i < |list| && list[i].0.identity == identity
                          && LatestTopology(list, identity) == Some(list[i].1.topology)
                          && (forall j | i < j < |list| :: list[j].0.identity != identity)
  {
    if list != [] {
      var last := |list| - 1;
      ScanFinds(list[..last], identity);
      if list[last].0.identity == identity {
        assert LatestTopology(list, identity) == Some(list[last].1.topology);
      } else if LatestTopology(list[..last], identity).Some? {
        var i :| 0 <= i < last && list[..last][i].0.identity == identity
                 && LatestTopology(list[..last], identity) == Some(list[..last][i].1.topology)
                 && (forall j | i < j < last :: list[..last][j].0.identity != identity);
        assert list[i] == list[..last][i];
        forall j | i < j < |list|
          ensures list[j].0.identity != identity
        {
          if j < last { assert list[j] == list[..last][j]; }
        }
      }
    }
  }

  /** One index lookup answers the same as scanning the whole recency list. */
  lemma LookupMatchesScan(entries: Entries, order: seq<PlanKey>, latest: map<PlanIdentity, Latest>,
                          identity: PlanIdentity)
    requires OrderOf(entries, order) && LatestTracks(entries, latest)
    ensures LatestTopology(ListOf(entries, order), identity)
         == if identity in latest then Some(latest[identity].topology) else None
  {
    var list := ListOf(entries, order);
    ScanFinds(list, identity);
    if identity in latest {
      var k := NewestWitness(entries, identity, latest[identity]);
      var a := PositionOf(entries, order, k);
      assert list[a].0.identity == identity;
      var b :| 0 <= b < |list| && list[b].0.identity == identity
               && LatestTopology(list, identity) == Some(list[b].1.topology)
               && (forall j | b < j < |list| :: list[j].0.identity != identity);
      assert order[b] in entries;
      assert a == b;
    } else {
      forall i | 0 <= i < |list|
        ensures list[i].0.identity != identity
      {
        assert order[i].identity in Identities(entries);
      }
    }
  }

  /** Stamping or inserting a key with a fresh serial makes it its identity's latest. */
  lemma StampLatest(entries: Entries, latest: map<PlanIdentity, Latest>, key: PlanKey, entry: Entry)
    requires LatestTracks(entries, latest)
    requires forall k | k in entries :: entries[k].lastSeen < entry.lastSeen
    requires key in entries ==> entries[key].plan == entry.plan
    ensures LatestTracks(entries[key := entry], latest[key.identity := Latest(entry.lastSeen, entry.plan.topology)])
    ensures key.identity in latest ==> latest[key.identity].serial < entry.lastSeen
  {
  }

  /** Dropping an entry keeps the line of every identity it is not the newest of. */
  lemma NewestSurvives(entries: Entries, id: PlanIdentity, line: Latest, victim: PlanKey)
    requires Newest(entries, id, line) && victim in entries
    requires id != victim.identity || line != Latest(entries[victim].lastSeen, entries[victim].plan.topology)
    ensures Newest(entries - {victim}, id, line)
    ensures id in Identities(entries - {victim})
  {
  }

  /** Evicting the oldest entry leaves its identity's index line untouched unless
      that line is the victim's own - and then the victim was the only entry of
      its identity, so recomputing the line removes it. */
  lemma EvictLatest(entries: Entries, order: seq<PlanKey>, latest: map<PlanIdentity, Latest>)
    requires OrderOf(entries, order) && LatestTracks(entries, latest) && order != []
    ensures
      var victim := order[0];
      var id := victim.identity;
      var rest := entries - {victim};
      && id in latest
      && (latest[id] == Latest(entries[victim].lastSeen, entries[victim].plan.topology) ==>
            && id !in Identities(rest)
            && LatestTracks(rest, latest - {id}))
      && (latest[id] != Latest(entries[victim].lastSeen, entries[victim].plan.topology) ==>
            LatestTracks(rest, latest))
  {
    var victim := order[0];
    var id := victim.identity;
    var rest := entries - {victim};
    assert victim in entries;
    assert id in Identities(entries);
    assert Identities(rest) <= Identities(entries);
    var own := Latest(entries[victim].lastSeen, entries[victim].plan.topology);
    forall other | other in latest && (other != id || latest[id] != own)
      ensures Newest(rest, other, latest[other]) && other in Identities(rest)
    {
      NewestSurvives(entries, other, latest[other], victim);
    }
    if latest[id] == Latest(entries[victim].lastSeen, entries[victim].plan.topology) {
      forall k | k in rest
        ensures k.identity != id
      {
        EndsOfOrder(entries, order, k);
        if k.identity == id { StampsDiffer(entries, order, victim, k); }
      }
      assert id !in Identities(rest);
      assert (latest - {id}).Keys == Identities(rest);
    } else {
      assert latest.Keys == Identities(rest);
    }
  }

  // ----- whole transitions -----

  /** A hit: restamp the key with the fresh serial and move it to the end. */
  lemma HitAgrees(entries: Entries, latest: map<PlanIdentity, Latest>, queue: set<Record>, serial: nat,
                  order: seq<PlanKey>, maxEntries: u64, i: nat)
    requires Agree(entries, latest, queue, serial, order, maxEntries)
    requires i < |order|
    requires serial >= 1 && forall r | r in queue :: r.serial < serial
    ensures
      var key := order[i];
      var entry := entries[key].(lastSeen := serial);
      && (key.identity in latest ==> latest[key.identity].serial <= serial)
      && Record(serial, key) !in queue
      && Agree(entries[key := entry], latest[key.identity := Latest(serial, entry.plan.topology)],
               queue + {Record(serial, key)}, serial, MoveToEnd(order, i), maxEntries)
      && IndexOf(ListOf(entries, order), key) == i
      && ListOf(entries[key := entry], MoveToEnd(order, i)) == MoveToEnd(ListOf(entries, order), i)
  {
    hide QueueTracks, LatestTracks;
    var key := order[i];
    var entry := entries[key].(lastSeen := serial);
    StampsBelow(entries, queue, serial);
    TouchOrder(entries, order, i, serial);
    TouchList(entries, order, i, serial);
    PushRecord(entries, queue, key, entry);
    StampLatest(entries, latest, key, entry);
    RestampSize(entries, key, entry);
  }

  lemma StampsBelow(entries: Entries, queue: set<Record>, serial: nat)
    requires QueueTracks(entries, queue, serial)
    requires forall r | r in queue :: r.serial < serial
    ensures forall k | k in entries :: entries[k].lastSeen < serial
  {
  }

  /** A miss with room: the new key goes to the end. */
  lemma InsertAgrees(entries: Entries, latest: map<PlanIdentity, Latest>, queue: set<Record>, serial: nat,
                     order: seq<PlanKey>, maxEntries: u64, key: PlanKey, plan: CachedPlan)
    requires Agree(entries, latest, queue, serial, order, maxEntries)
    requires key !in entries && |entries| < maxEntries && plan == PlanOf(plan.decision)
    requires serial >= 1 && forall r | r in queue :: r.serial < serial
    ensures
      var entry := Entry(plan, serial);
      && (key.identity in latest ==> latest[key.identity].serial <= serial)
      && Record(serial, key) !in queue
      && Agree(entries[key := entry], latest[key.identity := Latest(serial, plan.topology)],
               queue + {Record(serial, key)}, serial, order + [key], maxEntries)
      && ListOf(entries[key := entry], order + [key]) == ListOf(entries, order) + [(key, plan)]
  {
    hide QueueTracks, LatestTracks;
    var entry := Entry(plan, serial);
    StampsBelow(entries, queue, serial);
    AppendOrder(entries, order, key, entry);
    PushRecord(entries, queue, key, entry);
    StampLatest(entries, latest, key, entry);
    RestampSize(entries, key, entry);
  }

  /** Evicting on the smallest live record removes the least recently used entry. */
  lemma EvictAgrees(entries: Entries, latest: map<PlanIdentity, Latest>, queue: set<Record>, serial: nat,
                    order: seq<PlanKey>, maxEntries: u64, r: Record)
    requires Agree(entries, latest, queue, serial, order, maxEntries)
    requires r in queue && Live(entries, r)
    requires forall q | q in queue :: r.serial <= q.serial
    ensures
      var id := r.key.identity;
      var own := id in latest && latest[id].serial == r.serial && latest[id].topology == entries[r.key].plan.topology;
      && order != [] && order[0] == r.key
      && (own ==> id !in Identities(entries - {r.key}))
      && Agree(entries - {r.key}, if own then latest - {id} else latest, queue - {r}, serial, order[1..], maxEntries)
      && ListOf(entries - {r.key}, order[1..]) == ListOf(entries, order)[1..]
      && |entries - {r.key}| == |entries| - 1
  {
    hide QueueTracks, LatestTracks;
    SmallestLiveIsOldest(entries, order, queue, serial, r);
    DropLiveRecord(entries, queue, serial, r);
    EvictLatest(entries, order, latest);
    DropOldest(entries, order);
    RemoveSize(entries, r.key);
  }

  lemma StaleAgrees(entries: Entries, latest: map<PlanIdentity, Latest>, queue: set<Record>, serial: nat,
                    order: seq<PlanKey>, maxEntries: u64, r: Record)
    requires Agree(entries, latest, queue, serial, order, maxEntries)
    requires r in queue && !Live(entries, r)
    ensures Agree(entries, latest, queue - {r}, serial, order, maxEntries)
  {
  }

  // ----- rebasing -----

  /** The entries with the first `n` keys of the order restamped 1..n. */
  function Restamped(entries: Entries, order: seq<PlanKey>, n: nat): (after: Entries)
    requires n <= |order|
    requires forall i | 0 <= i < |order| :: order[i] in entries
    ensures after.Keys == entries.Keys
    ensures forall k | k in entries :: after[k].plan == entries[k].plan
  {
    if n == 0 then entries else
      var before := Restamped(entries, order, n - 1);
      before[order[n - 1] := before[order[n - 1]].(lastSeen := n)]
  }

  /** Their records. */
  function Requeued(order: seq<PlanKey>, n: nat): (queue: set<Record>)
    requires n <= |order|
    ensures forall r | r in queue :: 1 <= r.serial <= n
  {
    if n == 0 then {} else Requeued(order, n - 1) + {Record(n, order[n - 1])}
  }

  lemma {:induction false} RequeuedMeans(order: seq<PlanKey>, n: nat, r: Record)
    requires n <= |order|
    ensures r in Requeued(order, n) <==> 1 <= r.serial <= n && r.key == order[r.serial - 1]
  {
    if n > 0 {
      RequeuedMeans(order, n - 1, r);
    }
  }

  /** Their index. */
  function Reindexed(entries: Entries, order: seq<PlanKey>, n: nat): (index: map<PlanIdentity, Latest>)
    requires n <= |order|
    requires forall i | 0 <= i < |order| :: order[i] in entries
    ensures forall id | id in index :: index[id].serial <= n
  {
    if n == 0 then map[] else
      Reindexed(entries, order, n - 1)[order[n - 1].identity := Latest(n, entries[order[n - 1]].plan.topology)]
  }

  lemma RebuildStart(entries: Entries, order: seq<PlanKey>)
    requires forall i | 0 <= i < |order| :: order[i] in entries
    ensures Restamped(entries, order, 0) == entries
    ensures Requeued(order, 0) == {}
    ensures Reindexed(entries, order, 0) == map[]
  {
  }

  lemma RebuildStep(entries: Entries, order: seq<PlanKey>, n: nat)
    requires n < |order|
    requires forall i | 0 <= i < |order| :: order[i] in entries
    ensures
      var key := order[n];
      var restamped := Restamped(entries, order, n);
      var index := Reindexed(entries, order, n);
      && key in restamped && restamped[key].plan == entries[key].plan
      && Restamped(entries, order, n + 1) == restamped[key := restamped[key].(lastSeen := n + 1)]
      && Record(n + 1, key) !in Requeued(order, n)
      && Requeued(order, n + 1) == Requeued(order, n) + {Record(n + 1, key)}
      && (key.identity in index ==> index[key.identity].serial <= n)
      && Reindexed(entries, order, n + 1) == index[key.identity := Latest(n + 1, entries[key].plan.topology)]
  {
  }

  /** `after` is `before` with the first `n` keys of the order stamped 1..n. */
  ghost predicate RebasedUpTo(before: Entries, after: Entries, order: seq<PlanKey>, n: nat)
    requires n <= |order|
  {
    && after.Keys == before.Keys
    && (forall k | k in before :: after[k].plan == before[k].plan)
    && (forall i | 0 <= i < n :: order[i] in after && after[order[i]].lastSeen == i + 1)
  }

  lemma {:induction false} RestampedIsRebased(entries: Entries, order: seq<PlanKey>, n: nat)
    requires n <= |order| && Distinct(order)
    requires forall i | 0 <= i < |order| :: order[i] in entries
    ensures RebasedUpTo(entries, Restamped(entries, order, n), order, n)
  {
    if n > 0 {
      RestampedIsRebased(entries, order, n - 1);
    }
  }

  /** Each line of the rebuilt index is that of the last key of its identity. */
  lemma {:induction false} ReindexedLine(entries: Entries, order: seq<PlanKey>, n: nat, id: PlanIdentity)
    requires n <= |order|
    requires forall i | 0 <= i < |order| :: order[i] in entries
    ensures
      var index := Reindexed(entries, order, n);
      && (id !in index ==> forall j | 0 <= j < n :: order[j].identity != id)
      && (id in index ==>
            exists i :: 0 <= i < n && order[i].identity == id
                        && index[id] == Latest(i + 1, entries[order[i]].plan.topology)
                        && (forall j | i < j < n :: order[j].identity != id))
  {
    if n > 0 {
      ReindexedLine(entries, order, n - 1, id);
      var index := Reindexed(entries, order, n);
      if order[n - 1].identity == id {
        assert index[id] == Latest(n - 1 + 1, entries[order[n - 1]].plan.topology);
      } else if id in index {
        var i :| 0 <= i < n - 1 && order[i].identity == id
                 && index[id] == Latest(i + 1, entries[order[i]].plan.topology)
                 && (forall j | i < j < n - 1 :: order[j].identity != id);
      }
    }
  }

  /** Replacing stamps by 1..n in the old order keeps the order: of any two
      entries the same one stays the more recent. */
  lemma RebaseIsOrderIsomorphism(before: Entries, after: Entries, order: seq<PlanKey>)
    requires OrderOf(before, order)
    requires RebasedUpTo(before, after, order, |order|)
    ensures OrderOf(after, order)
    ensures ListOf(after, order) == ListOf(before, order)
    ensures forall a, b | a in before && b in before ::
              && a in after && b in after
              && (before[a].lastSeen < before[b].lastSeen <==> after[a].lastSeen < after[b].lastSeen)
  {
    forall a, b | a in before && b in before
      ensures before[a].lastSeen < before[b].lastSeen <==> after[a].lastSeen < after[b].lastSeen
    {
      var i := PositionOf(before, order, a);
      var j := PositionOf(before, order, b);
      if i < j {
      } else if j < i {
      }
    }
  }

  lemma ReindexedTracksLine(before: Entries, after: Entries, order: seq<PlanKey>, id: PlanIdentity)
    requires OrderOf(before, order) && OrderOf(after, order)
    requires RebasedUpTo(before, after, order, |order|)
    ensures
      var index := Reindexed(before, order, |order|);
      && (id in index <==> id in Identities(after))
      && (id in index ==> Newest(after, id, index[id]))
  {
    var index := Reindexed(before, order, |order|);
    ReindexedLine(before, order, |order|, id);
    if id in index {
      var i :| 0 <= i < |order| && order[i].identity == id
               && index[id] == Latest(i + 1, before[order[i]].plan.topology)
               && (forall j | i < j < |order| :: order[j].identity != id);
      assert order[i] in after;
      forall k | k in after && k.identity == id
        ensures after[k].lastSeen <= index[id].serial
      {
        var j := PositionOf(after, order, k);
      }
    } else if id in Identities(after) {
      var k :| k in after && k.identity == id;
      var j := PositionOf(after, order, k);
    }
  }

  lemma RequeuedTracks(after: Entries, order: seq<PlanKey>)
    requires OrderOf(after, order)
    requires forall i | 0 <= i < |order| :: after[order[i]].lastSeen == i + 1
    ensures QueueTracks(after, Requeued(order, |order|), |order|)
    ensures forall r | r in Requeued(order, |order|) :: Live(after, r)
  {
    hide Requeued;
    var queue := Requeued(order, |order|);
    forall r | r in queue
      ensures Live(after, r)
    {
      RequeuedMeans(order, |order|, r);
    }
    forall k | k in after
      ensures Record(after[k].lastSeen, k) in queue
    {
      var i := PositionOf(after, order, k);
      RequeuedMeans(order, |order|, Record(i + 1, k));
    }
    hide OrderOf;
    LiveSerialsDiffer(after, order, queue);
  }

  lemma LiveSerialsDiffer(entries: Entries, order: seq<PlanKey>, queue: set<Record>)
    requires OrderOf(entries, order)
    requires forall r | r in queue :: Live(entries, r)
    ensures forall r, q | r in queue && q in queue && r.serial == q.serial :: r == q
  {
  }

  lemma ReindexedTracks(before: Entries, after: Entries, order: seq<PlanKey>)
    requires OrderOf(before, order) && OrderOf(after, order)
    requires RebasedUpTo(before, after, order, |order|)
    ensures LatestTracks(after, Reindexed(before, order, |order|))
  {
    var index := Reindexed(before, order, |order|);
    forall id: PlanIdentity
      ensures id in index <==> id in Identities(after)
      ensures id in index ==> Newest(after, id, index[id])
    {
      ReindexedTracksLine(before, after, order, id);
    }
  }

  lemma RestampedEntries(before: Entries, order: seq<PlanKey>)
    requires OrderOf(before, order) && Coherent(before)
    ensures
      var after := Restamped(before, order, |order|);
      && RebasedUpTo(before, after, order, |order|)
      && OrderOf(after, order) && Coherent(after)
      && ListOf(after, order) == ListOf(before, order)
      && |order| == |after| == |before|
  {
    var after := Restamped(before, order, |order|);
    OrderLength(before, order);
    RestampedIsRebased(before, order, |order|);
    RebaseIsOrderIsomorphism(before, after, order);
    OrderLength(after, order);
  }

  /** After renumbering everything agrees again and only live records remain. */
  lemma RebaseAgrees(before: Entries, order: seq<PlanKey>, maxEntries: u64)
    requires OrderOf(before, order) && Coherent(before) && |before| <= maxEntries
    ensures
      var after := Restamped(before, order, |order|);
      && RebasedUpTo(before, after, order, |order|)
      && Agree(after, Reindexed(before, order, |order|), Requeued(order, |order|), |order|, order, maxEntries)
      && (forall r | r in Requeued(order, |order|) :: Live(after, r))
  {
    hide QueueTracks, LatestTracks, Coherent;
    var after := Restamped(before, order, |order|);
    RestampedEntries(before, order);
    assert forall i | 0 <= i < |order| :: after[order[i]].lastSeen == i + 1;
    RequeuedTracks(after, order);
    ReindexedTracks(before, after, order);
  }

  /** Listing one live record per entry by serial yields the recency order. */
  lemma SortedRecordsFollowOrder(entries: Entries, order: seq<PlanKey>, records: seq<Record>)
    requires OrderOf(entries, order)
    requires Distinct(records)
    requires forall i, j | 0 <= i < j < |records| :: records[i].serial <= records[j].serial
    requires forall i | 0 <= i < |records| :: Live(entries, records[i])
    requires forall k | k in entries :: Listed(records, Record(entries[k].lastSeen, k))
    ensures |records| == |order|
    ensures forall i | 0 <= i < |records| :: records[i].key == order[i]
  {
    var keys := seq(|records|, i requires 0 <= i < |records| => records[i].key);
    SerialsRise(entries, order, records);
    RecordsCover(entries, records, keys);
    OrderIsUnique(entries, keys, order);
  }

  lemma SerialsRise(entries: Entries, order: seq<PlanKey>, records: seq<Record>)
    requires OrderOf(entries, order)
    requires Distinct(records)
    requires forall i, j | 0 <= i < j < |records| :: records[i].serial <= records[j].serial
    requires forall i | 0 <= i < |records| :: Live(entries, records[i])
    ensures forall i, j | 0 <= i < j < |records| :: records[i].serial < records[j].serial
  {
  }

  lemma RecordsCover(entries: Entries, records: seq<Record>, keys: seq<PlanKey>)
    requires |keys| == |records| && forall i | 0 <= i < |records| :: keys[i] == records[i].key
    requires forall i | 0 <= i < |records| :: Live(entries, records[i])
    requires forall i, j | 0 <= i < j < |records| :: records[i].serial < records[j].serial
    requires forall k | k in entries :: Listed(records, Record(entries[k].lastSeen, k))
    ensures OrderOf(entries, keys)
  {
  }
}
