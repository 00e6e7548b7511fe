/** The optimizer memo cache: a host and a device shard behind one lock, used by any
    number of threads whose lookups and stores are separate critical sections. */
module OptimizeCache {
  import opened Machine
  import opened WorkgroupPolicy
  import opened WorkgroupMeaning
  import opened DeviceKey
  import opened ProgramShard

  /** The optimizer, the tuner's view of a program, the hash functions and the
      profiles in use. A program is bounded when a buffer can guard its width. */
  datatype Compiler<!P> = Compiler(fingerprint: P -> Key, digest: seq<u8> -> Key, opt: P -> P,
                                   workgroup: P -> Dims, problemSize: P -> Option<u32>, bounded: P -> bool,
                                   rebuild: (P, u32) -> P, served: Profile -> bool)

  /** Only one-dimensional programs with a guarding buffer are tuned. */
  predicate Tunable<P>(c: Compiler<P>, p: P) {
    c.workgroup(p).y == 1 && c.workgroup(p).z == 1 && c.bounded(p)
  }

  /** The width selected for a program on a device. */
  function Width<P>(c: Compiler<P>, p: P, d: Profile): nat {
    Select(c.workgroup(p).x, c.problemSize(p), AdapterCaps(d))
  }

  function WithWidth<P>(c: Compiler<P>, p: P, x: u32): P {
    if x == c.workgroup(p).x then p else c.rebuild(p, x)
  }

  /** Tuning for a device. */
  function Tune<P>(c: Compiler<P>, p: P, d: Profile): P {
    if Tunable(c, p) then WithWidth(c, p, Width(c, p, d)) else p
  }

  function KeyFor<P>(c: Compiler<P>, p: P, d: Profile): Key {
    c.digest(Encode(c.fingerprint(p), d))
  }

  datatype Call<P> = Optimize(p: P) | OptimizeForDevice(p: P, d: Profile)

  function Expected<P>(c: Compiler<P>, call: Call<P>): P {
    match call
    case Optimize(p) => c.opt(p)
    case OptimizeForDevice(p, d) => c.opt(Tune(c, p, d))
  }

  /** Where a call stands between two critical sections. `outer` is the device call
      that a host call serves, if any. */
  datatype Phase<P> =
    | LookDevice(p: P, d: Profile)
    | LookHost(p: P, outer: Option<Call<P>>)
    | StoreHost(p: P, result: P, outer: Option<Call<P>>)
    | StoreDevice(p: P, d: Profile, result: P)
    | Finished(call: Call<P>, result: P)

  datatype State<P> = State(host: Shard<P>, device: Shard<P>, poisoned: bool, threads: map<nat, Phase<P>>)

  /** A thread begins a call, performs its next critical section, or panics inside
      one. A panic poisons the lock and may leave the shards in any state. */
  datatype Action<P> =
    | Begin(thread: nat, call: Call<P>)
    | Advance(thread: nat)
    | Panic(thread: nat, host: Shard<P>, device: Shard<P>)

  function Initial<P>(): State<P> {
    State(Shard(map[], []), Shard(map[], []), false, map[])
  }

  predicate Busy<P>(s: State<P>, thread: nat) {
    thread in s.threads && !s.threads[thread].Finished?
  }

  function AfterHost<P>(p: P, result: P, outer: Option<Call<P>>): Phase<P> {
    match outer
    case Some(OptimizeForDevice(p0, d)) => StoreDevice(p0, d, result)
    case _ => Finished(Optimize(p), result)
  }

  function At<P>(s: State<P>, thread: nat, phase: Phase<P>): State<P> {
    s.(threads := s.threads[thread := phase])
  }

  function Do<P>(c: Compiler<P>, s: State<P>, a: Action<P>): State<P> {
    match a
    case Begin(t, call) =>
      if Busy(s, t) then s
      else (match call
            case Optimize(p) => At(s, t, LookHost(p, None))
            case OptimizeForDevice(p, d) => if c.served(d) then At(s, t, LookDevice(p, d)) else s)
    case Advance(t) => if Busy(s, t) then Section(c, s, t) else s
    case Panic(t, host, device) =>
      if Busy(s, t) && !s.poisoned then State(host, device, true, s.threads - {t}) else s
  }

  /** One critical section. A poisoned lock reads as a miss and drops the store. */
  function Section<P>(c: Compiler<P>, s: State<P>, t: nat): State<P>
    requires Busy(s, t)
  {
    match s.threads[t]
    case LookDevice(p, d) =>
      if !s.poisoned && KeyFor(c, p, d) in s.device.entries then
        At(s, t, Finished(OptimizeForDevice(p, d), s.device.entries[KeyFor(c, p, d)]))
      else
        At(s, t, LookHost(Tune(c, p, d), Some(OptimizeForDevice(p, d))))
    case LookHost(p, outer) =>
      if !s.poisoned && c.fingerprint(p) in s.host.entries then
        At(s, t, AfterHost(p, s.host.entries[c.fingerprint(p)], outer))
      else
        At(s, t, StoreHost(p, c.opt(p), outer))
    case StoreHost(p, result, outer) =>
      At(if s.poisoned then s else s.(host := Insert(s.host, c.fingerprint(p), result)), t, AfterHost(p, result, outer))
    case StoreDevice(p, d, result) =>
      At(if s.poisoned then s else s.(device := Insert(s.device, KeyFor(c, p, d), result)), t,
         Finished(OptimizeForDevice(p, d), result))
  }

  /** The state after any interleaving of actions. */
  function Reach<P>(c: Compiler<P>, actions: seq<Action<P>>): State<P> {
    if actions == [] then Initial() else Do(c, Reach(c, actions[..|actions| - 1]), actions[|actions| - 1])
  }

  // ----- correctness of every run -----

  ghost predicate Right<P>(c: Compiler<P>, s: State<P>) {
    forall t | t in s.threads && s.threads[t].Finished? :: s.threads[t].result == Expected(c, s.threads[t].call)
  }

  ghost predicate AllRunsRight<P(!new)>(c: Compiler<P>) {
    forall actions :: Right(c, Reach(c, actions))
  }

  /** Equal keys mean equal results, for both caches. */
  ghost predicate HostKeysDecide<P(!new)>(c: Compiler<P>) {
    forall p, q :: c.fingerprint(p) == c.fingerprint(q) ==> c.opt(p) == c.opt(q)
  }

  ghost predicate DeviceKeysDecide<P(!new)>(c: Compiler<P>) {
    forall p, d, q, e | c.served(d) && c.served(e) && KeyFor(c, p, d) == KeyFor(c, q, e) ::
      c.opt(Tune(c, p, d)) == c.opt(Tune(c, q, e))
  }

  /** Every stored result is right for every program that would find it. */
  ghost predicate HostSound<P(!new)>(c: Compiler<P>, s: Shard<P>) {
    forall p | c.fingerprint(p) in s.entries :: s.entries[c.fingerprint(p)] == c.opt(p)
  }

  ghost predicate DeviceSound<P(!new)>(c: Compiler<P>, s: Shard<P>) {
    forall p, d | c.served(d) && KeyFor(c, p, d) in s.entries :: s.entries[KeyFor(c, p, d)] == c.opt(Tune(c, p, d))
  }

  ghost predicate Serves<P>(c: Compiler<P>, p: P, outer: Option<Call<P>>) {
    && (outer.None? || outer.value.OptimizeForDevice?)
    && (outer.Some? ==> c.served(outer.value.d) && p == Tune(c, outer.value.p, outer.value.d))
  }

  ghost predicate PhaseSound<P>(c: Compiler<P>, phase: Phase<P>) {
    match phase
    case LookDevice(_, d) => c.served(d)
    case LookHost(p, outer) => Serves(c, p, outer)
    case StoreHost(p, result, outer) => Serves(c, p, outer) && result == c.opt(p)
    case StoreDevice(p, d, result) => c.served(d) && result == c.opt(Tune(c, p, d))
    case Finished(call, result) => result == Expected(c, call)
  }

  ghost predicate Sound<P(!new)>(c: Compiler<P>, s: State<P>) {
    && (!s.poisoned ==> HostSound(c, s.host) && DeviceSound(c, s.device))
    && (!s.poisoned ==> WellFormed(s.host) && WellFormed(s.device))
    && forall t | t in s.threads :: PhaseSound(c, s.threads[t])
  }

  /** Storing a right result keeps a shard right, because every program that finds the
      key expects the same result. */
  lemma HostInsertSound<P(!new)>(c: Compiler<P>, s: Shard<P>, p: P)
    requires HostKeysDecide(c) && HostSound(c, s) && WellFormed(s)
    ensures HostSound(c, Insert(s, c.fingerprint(p), c.opt(p))) && WellFormed(Insert(s, c.fingerprint(p), c.opt(p)))
  {
    hide WellFormed;
    InsertKeepsShape(s, c.fingerprint(p), c.opt(p));
    var t := Insert(s, c.fingerprint(p), c.opt(p));
    forall q | c.fingerprint(q) in t.entries
      ensures t.entries[c.fingerprint(q)] == c.opt(q)
    {
      if c.fingerprint(q) in s.entries {
        assert s.entries[c.fingerprint(q)] == c.opt(q);
      } else {
        assert c.fingerprint(q) == c.fingerprint(p);
      }
    }
  }

  lemma DeviceInsertSound<P(!new)>(c: Compiler<P>, s: Shard<P>, p: P, d: Profile)
    requires DeviceKeysDecide(c) && DeviceSound(c, s) && WellFormed(s) && c.served(d)
    ensures
      var t := Insert(s, KeyFor(c, p, d), c.opt(Tune(c, p, d)));
      DeviceSound(c, t) && WellFormed(t)
  {
    hide WellFormed, KeyFor, Tune;
    InsertKeepsShape(s, KeyFor(c, p, d), c.opt(Tune(c, p, d)));
    var t := Insert(s, KeyFor(c, p, d), c.opt(Tune(c, p, d)));
    forall q, e | c.served(e) && KeyFor(c, q, e) in t.entries
      ensures t.entries[KeyFor(c, q, e)] == c.opt(Tune(c, q, e))
    {
      if KeyFor(c, q, e) in s.entries {
        assert s.entries[KeyFor(c, q, e)] == c.opt(Tune(c, q, e));
      } else {
        assert KeyFor(c, q, e) == KeyFor(c, p, d);
      }
    }
  }

  lemma SectionSound<P(!new)>(c: Compiler<P>, s: State<P>, t: nat)
    requires HostKeysDecide(c) && DeviceKeysDecide(c) && Sound(c, s) && Busy(s, t)
    ensures Sound(c, Section(c, s, t))
  {
    hide WellFormed, KeyFor, Tune, HostKeysDecide, DeviceKeysDecide, Insert;
    assert PhaseSound(c, s.threads[t]);
    match s.threads[t] {
      case LookDevice(p, d) =>
      case LookHost(p, outer) =>
      case StoreHost(p, result, outer) =>
        if !s.poisoned { HostInsertSound(c, s.host, p); }
      case StoreDevice(p, d, result) =>
        if !s.poisoned { DeviceInsertSound(c, s.device, p, d); }
    }
  }

  lemma {:induction false} ReachSound<P(!new)>(c: Compiler<P>, actions: seq<Action<P>>)
    requires HostKeysDecide(c) && DeviceKeysDecide(c)
    ensures Sound(c, Reach(c, actions))
  {
    hide KeyFor, Tune, HostKeysDecide, DeviceKeysDecide, Section;
    if actions != [] {
      var before := Reach(c, actions[..|actions| - 1]);
      ReachSound(c, actions[..|actions| - 1]);
      var last := actions[|actions| - 1];
      if last.Advance? && Busy(before, last.thread) {
        SectionSound(c, before, last.thread);
      }
    }
  }

  // ----- wrong runs from colliding keys -----

  lemma ReachStep<P>(c: Compiler<P>, actions: seq<Action<P>>, a: Action<P>)
    ensures Reach(c, actions + [a]) == Do(c, Reach(c, actions), a)
  {
    assert (actions + [a])[..|actions|] == actions;
  }

  function WrongHostRun<P>(p: P, q: P): seq<Action<P>> {
    [Begin(0, Optimize(p)), Advance(0), Advance(0), Begin(1, Optimize(q)), Advance(1)]
  }

  function WrongDeviceRun<P>(p: P, d: Profile, q: P, e: Profile): seq<Action<P>> {
    [Begin(0, OptimizeForDevice(p, d)), Advance(0), Advance(0), Advance(0), Advance(0),
     Begin(1, OptimizeForDevice(q, e)), Advance(1)]
  }

  /** A second program with the same fingerprint is handed the first one's result. */
  lemma HostCollisionIsServed<P>(c: Compiler<P>, p: P, q: P)
    requires c.fingerprint(p) == c.fingerprint(q)
    ensures 1 in Reach(c, WrongHostRun(p, q)).threads
    ensures Reach(c, WrongHostRun(p, q)).threads[1] == Finished(Optimize(q), c.opt(p))
  {
    var run := WrongHostRun(p, q);
    assert run[..0] + [run[0]] == run[..1] && run[..1] + [run[1]] == run[..2] && run[..2] + [run[2]] == run[..3];
    assert run[..3] + [run[3]] == run[..4] && run[..4] + [run[4]] == run;
    ReachStep(c, run[..0], run[0]);
    ReachStep(c, run[..1], run[1]);
    ReachStep(c, run[..2], run[2]);
    var s := Reach(c, run[..3]);
    assert c.fingerprint(p) in s.host.entries && s.host.entries[c.fingerprint(p)] == c.opt(p) && !s.poisoned;
    ReachStep(c, run[..3], run[3]);
    ReachStep(c, run[..4], run[4]);
  }

  /** A device call alone on an empty cache stores its result. */
  lemma FirstDeviceCall<P>(c: Compiler<P>, p: P, d: Profile, run: seq<Action<P>>)
    requires c.served(d)
    requires |run| == 5 && run[0] == Begin(0, OptimizeForDevice(p, d))
    requires run[1] == run[2] == run[3] == run[4] == Advance(0)
    ensures
      var s := Reach(c, run);
      && !s.poisoned && 1 !in s.threads
      && KeyFor(c, p, d) in s.device.entries && s.device.entries[KeyFor(c, p, d)] == c.opt(Tune(c, p, d))
  {
    hide KeyFor, Tune;
    assert run[..3] + [run[3]] == run[..4] && run[..4] + [run[4]] == run;
    FirstLookups(c, p, d, run[..3]);
    ReachStep(c, run[..3], run[3]);
    ReachStep(c, run[..4], run[4]);
  }

  lemma FirstLookups<P>(c: Compiler<P>, p: P, d: Profile, run: seq<Action<P>>)
    requires c.served(d)
    requires run == [Begin(0, OptimizeForDevice(p, d)), Advance(0), Advance(0)]
    ensures
      var tuned := Tune(c, p, d);
      Reach(c, run) == At(Initial(), 0, StoreHost(tuned, c.opt(tuned), Some(OptimizeForDevice(p, d))))
  {
    hide KeyFor, Tune;
    assert run[..0] + [run[0]] == run[..1] && run[..1] + [run[1]] == run[..2] && run[..2] + [run[2]] == run;
    ReachStep(c, run[..0], run[0]);
    ReachStep(c, run[..1], run[1]);
    ReachStep(c, run[..2], run[2]);
    var tuned := Tune(c, p, d);
    assert Reach(c, run[..2]) == At(Initial(), 0, LookHost(tuned, Some(OptimizeForDevice(p, d))));
  }

  /** The same for the device cache. */
  lemma DeviceCollisionIsServed<P>(c: Compiler<P>, p: P, d: Profile, q: P, e: Profile)
    requires c.served(d) && c.served(e) && KeyFor(c, p, d) == KeyFor(c, q, e)
    ensures 1 in Reach(c, WrongDeviceRun(p, d, q, e)).threads
    ensures Reach(c, WrongDeviceRun(p, d, q, e)).threads[1] == Finished(OptimizeForDevice(q, e), c.opt(Tune(c, p, d)))
  {
    hide KeyFor, Tune;
    var run := WrongDeviceRun(p, d, q, e);
    assert run[..5] + [run[5]] == run[..6] && run[..6] + [run[6]] == run;
    FirstDeviceCall(c, p, d, run[..5]);
    ReachStep(c, run[..5], run[5]);
    ReachStep(c, run[..6], run[6]);
  }

  /** Every call of every run returns the right program exactly when equal keys mean
      equal results in both caches. */
  lemma RunsAreRightIff<P(!new)>(c: Compiler<P>)
    ensures AllRunsRight(c) <==> HostKeysDecide(c) && DeviceKeysDecide(c)
  {
    hide KeyFor, Tune;
    if HostKeysDecide(c) && DeviceKeysDecide(c) {
      forall actions
        ensures Right(c, Reach(c, actions))
      {
        SoundIsRight(c, actions);
      }
    }
    if AllRunsRight(c) {
      forall p, q | c.fingerprint(p) == c.fingerprint(q)
        ensures c.opt(p) == c.opt(q)
      {
        assert Right(c, Reach(c, WrongHostRun(p, q)));
        HostCollisionIsServed(c, p, q);
      }
      forall p, d, q, e | c.served(d) && c.served(e) && KeyFor(c, p, d) == KeyFor(c, q, e)
        ensures c.opt(Tune(c, p, d)) == c.opt(Tune(c, q, e))
      {
        assert Right(c, Reach(c, WrongDeviceRun(p, d, q, e)));
        DeviceCollisionIsServed(c, p, d, q, e);
      }
    }
  }

  lemma SoundIsRight<P(!new)>(c: Compiler<P>, actions: seq<Action<P>>)
    requires HostKeysDecide(c) && DeviceKeysDecide(c)
    ensures Right(c, Reach(c, actions))
  {
    hide KeyFor, Tune, Reach;
    ReachSound(c, actions);
    var s := Reach(c, actions);
    forall t | t in s.threads && s.threads[t].Finished?
      ensures s.threads[t].result == Expected(c, s.threads[t].call)
    {
      assert PhaseSound(c, s.threads[t]);
    }
  }

  // ----- the shards over a run -----

  /** The insertion a critical section makes into the host or the device shard. */
  function HostPut<P>(c: Compiler<P>, s: State<P>, a: Action<P>): (puts: seq<Insertion<P>>)
    ensures |puts| <= 1
  {
    if a.Advance? && Busy(s, a.thread) && s.threads[a.thread].StoreHost? && !s.poisoned then
      [Insertion(c.fingerprint(s.threads[a.thread].p), s.threads[a.thread].result)]
    else []
  }

  function DevicePut<P>(c: Compiler<P>, s: State<P>, a: Action<P>): (puts: seq<Insertion<P>>)
    ensures |puts| <= 1
  {
    if a.Advance? && Busy(s, a.thread) && s.threads[a.thread].StoreDevice? && !s.poisoned then
      [Insertion(KeyFor(c, s.threads[a.thread].p, s.threads[a.thread].d), s.threads[a.thread].result)]
    else []
  }

  function HostPuts<P>(c: Compiler<P>, actions: seq<Action<P>>): seq<Insertion<P>> {
    if actions == [] then [] else
      HostPuts(c, actions[..|actions| - 1]) + HostPut(c, Reach(c, actions[..|actions| - 1]), actions[|actions| - 1])
  }

  function DevicePuts<P>(c: Compiler<P>, actions: seq<Action<P>>): seq<Insertion<P>> {
    if actions == [] then [] else
      DevicePuts(c, actions[..|actions| - 1]) + DevicePut(c, Reach(c, actions[..|actions| - 1]), actions[|actions| - 1])
  }

  function Put<P>(s: Shard<P>, puts: seq<Insertion<P>>): Shard<P>
    requires |puts| <= 1
  {
    if puts == [] then s else Insert(s, puts[0].key, puts[0].program)
  }

  /** One action changes the shards by the insertions it makes and by nothing else. */
  lemma StepPuts<P>(c: Compiler<P>, s: State<P>, a: Action<P>)
    requires !Do(c, s, a).poisoned
    ensures !s.poisoned
    ensures Do(c, s, a).host == Put(s.host, HostPut(c, s, a))
    ensures Do(c, s, a).device == Put(s.device, DevicePut(c, s, a))
  {
    hide KeyFor, Tune, Insert;
  }

  /** While the lock is not poisoned, the shards hold the insertions made so far. */
  lemma {:induction false} ShardsFollowPuts<P>(c: Compiler<P>, actions: seq<Action<P>>)
    requires !Reach(c, actions).poisoned
    ensures Reach(c, actions).host == InsertAll(HostPuts(c, actions))
    ensures Reach(c, actions).device == InsertAll(DevicePuts(c, actions))
  {
    hide Do, HostPut, DevicePut, Put;
    if actions != [] {
      var before, last := actions[..|actions| - 1], actions[|actions| - 1];
      StepPuts(c, Reach(c, before), last);
      ShardsFollowPuts(c, before);
      OneMorePut(HostPuts(c, before), HostPut(c, Reach(c, before), last));
      OneMorePut(DevicePuts(c, before), DevicePut(c, Reach(c, before), last));
    }
  }

  lemma OneMorePut<P>(puts: seq<Insertion<P>>, more: seq<Insertion<P>>)
    requires |more| <= 1
    ensures InsertAll(puts + more) == Put(InsertAll(puts), more)
  {
    if more == [] {
      assert puts + more == puts;
    } else {
      assert (puts + more)[..|puts|] == puts;
    }
  }

  /** In every run, whatever the keys, each shard's queue lists exactly the live keys,
      each once, and is the longest fitting suffix of the insertions made. */
  lemma QueuesInEveryRun<P>(c: Compiler<P>, actions: seq<Action<P>>)
    requires !Reach(c, actions).poisoned
    ensures HoldsLatest(Reach(c, actions).host, Log(HostPuts(c, actions)))
    ensures HoldsLatest(Reach(c, actions).device, Log(DevicePuts(c, actions)))
  {
    hide HoldsLatest, Reach, HostPuts, DevicePuts, InsertAll, Log;
    ShardsFollowPuts(c, actions);
    QueueIsLatestInsertions(HostPuts(c, actions));
    QueueIsLatestInsertions(DevicePuts(c, actions));
  }

  /** A call that finishes under a sound lock leaves its key cached, whether it found the
      result, or stored it, or lost the race to store it. */
  lemma FinishedIsCached<P>(c: Compiler<P>, s: State<P>, t: nat)
    requires Busy(s, t) && !s.poisoned && Section(c, s, t).threads[t].Finished?
    ensures
      var after := Section(c, s, t);
      match after.threads[t].call
      case Optimize(p) => c.fingerprint(p) in after.host.entries
      case OptimizeForDevice(p, d) => KeyFor(c, p, d) in after.device.entries
  {
    hide KeyFor, Tune;
  }

  // ----- what the device key forgets -----

  /** Hashes without collisions. */
  ghost predicate CollisionFree<P(!new)>(c: Compiler<P>) {
    && (forall a, b :: c.digest(a) == c.digest(b) ==> a == b)
    && (forall p, q :: c.fingerprint(p) == c.fingerprint(q) ==> p == q)
    && (forall p :: |c.fingerprint(p)| == FINGERPRINT_BYTES)
  }

  /** With collision-free hashes, every run is right exactly when profiles in use that
      agree on the hashed fields always lead to the same optimized program. */
  lemma RightIffHashedFieldsDecide<P(!new)>(c: Compiler<P>)
    requires CollisionFree(c)
    ensures AllRunsRight(c) <==>
              forall p, d, e | c.served(d) && c.served(e) && Hashed(d) == Hashed(e) ::
                c.opt(Tune(c, p, d)) == c.opt(Tune(c, p, e))
  {
    hide Tune, Encode, AllRunsRight, Hashed;
    RunsAreRightIff(c);
    forall p, d, q, e
      ensures KeyFor(c, p, d) == KeyFor(c, q, e) <==> p == q && Hashed(d) == Hashed(e)
    {
      EncodeInjective(c.fingerprint(p), d, c.fingerprint(q), e);
    }
  }

  /** The optimizer keeps a program's variants of different widths different. */
  ghost predicate KeepsWidthsApart<P(!new)>(c: Compiler<P>) {
    forall p, x, y | Tunable(c, p) && 1 <= x < y <= MAX_PORTABLE_WORKGROUP_X ::
      c.opt(WithWidth(c, p, x)) != c.opt(WithWidth(c, p, y))
  }

  /** Profiles in use that agree on the hashed fields get the same width for every
      program that is tuned. */
  ghost predicate HashedFieldsFixWidth<P(!new)>(c: Compiler<P>) {
    forall p, d, e | Tunable(c, p) && c.served(d) && c.served(e) && Hashed(d) == Hashed(e) ::
      Width(c, p, d) == Width(c, p, e)
  }

  /** The exact condition in terms of widths, which a caller can compute from the
      profiles and the program's declared width and problem size. */
  lemma RightIffHashedFieldsFixWidth<P(!new)>(c: Compiler<P>)
    requires CollisionFree(c)
    ensures HashedFieldsFixWidth(c) ==> AllRunsRight(c)
    ensures KeepsWidthsApart(c) ==> (AllRunsRight(c) <==> HashedFieldsFixWidth(c))
  {
    hide AllRunsRight, CollisionFree, Hashed, Select, WithWidth, Tunable;
    RightIffHashedFieldsDecide(c);
    if KeepsWidthsApart(c) && AllRunsRight(c) {
      forall p, d, e | Tunable(c, p) && c.served(d) && c.served(e) && Hashed(d) == Hashed(e)
        ensures Width(c, p, d) == Width(c, p, e)
      {
        assert c.opt(Tune(c, p, d)) == c.opt(Tune(c, p, e));
        WidthIsLegal(c, p, d);
        WidthIsLegal(c, p, e);
      }
    }
    if HashedFieldsFixWidth(c) {
      forall p, d, e | c.served(d) && c.served(e) && Hashed(d) == Hashed(e)
        ensures c.opt(Tune(c, p, d)) == c.opt(Tune(c, p, e))
      {
        assert Tunable(c, p) ==> Width(c, p, d) == Width(c, p, e);
      }
    }
  }

  lemma WidthIsLegal<P>(c: Compiler<P>, p: P, d: Profile)
    ensures 1 <= Width(c, p, d) <= MAX_PORTABLE_WORKGROUP_X
  {
    hide Select, LegalCeiling;
  }

  /** Tuning leaves a program alone when it is not one-dimensional or has no guarding
      buffer, and otherwise gives it the best width that is legal on this very device. */
  lemma TuneMeans<P>(c: Compiler<P>, p: P, d: Profile) returns (w: u32)
    ensures
      if c.workgroup(p).y != 1 || c.workgroup(p).z != 1 || !c.bounded(p) then Tune(c, p, d) == p
      else
        var caps := Caps(d.maxWorkgroup, d.maxInvocations, d.subgroupSize, d.idealTile, d.specialization);
        && IsChosen(c.workgroup(p).x, c.problemSize(p), caps, w)
        && Tune(c, p, d) == if w == c.workgroup(p).x then p else c.rebuild(p, w)
  {
    hide Select, IsChosen;
    w := Width(c, p, d);
    SelectIsChosen(c.workgroup(p).x, c.problemSize(p), AdapterCaps(d));
  }

  /** The tile is the only unhashed field the width can depend on: profiles in use that
      share hashed fields and tile are served rightly. */
  lemma RightWhenTileFollowsHashedFields<P(!new)>(c: Compiler<P>)
    requires CollisionFree(c)
    requires forall d, e | c.served(d) && c.served(e) && Hashed(d) == Hashed(e) :: d.idealTile == e.idealTile
    ensures AllRunsRight(c)
  {
    forall p, d, e | Tunable(c, p) && c.served(d) && c.served(e) && Hashed(d) == Hashed(e)
      ensures Width(c, p, d) == Width(c, p, e)
    {
      hide Select;
      SelectIgnoresSpecialization(c.workgroup(p).x, c.problemSize(p), AdapterCaps(d), AdapterCaps(e));
    }
    hide Width, Hashed, CollisionFree, AllRunsRight, KeepsWidthsApart;
    RightIffHashedFieldsFixWidth(c);
  }

  /** Two devices that differ only in their preferred tile. */
  const COMPACT_DEVICE := Profile([], false, false, false, false, false, COMPACT.maxWorkgroup,
                                  COMPACT.maxInvocations, 0, COMPACT.subgroupSize, 0, 0, 0, COMPACT.idealTile, false)
  const WIDE_DEVICE := COMPACT_DEVICE.(idealTile := WIDE.idealTile)

  /** The property fails of the code: a program tuned for the compact device is served
      to the wide one, whatever the hash functions, as soon as the optimizer keeps the
      two widths apart. */
  lemma TileIsForgotten<P(!new)>(c: Compiler<P>, p: P)
    requires c.served(COMPACT_DEVICE) && c.served(WIDE_DEVICE)
    requires Tunable(c, p) && c.workgroup(p).x == 1 && c.problemSize(p) == Some(4096)
    requires c.opt(c.rebuild(p, 64)) != c.opt(c.rebuild(p, 256))
    ensures !AllRunsRight(c)
  {
    hide Select, AllRunsRight;
    TileChangesWidth();
    assert AdapterCaps(COMPACT_DEVICE) == COMPACT && AdapterCaps(WIDE_DEVICE) == WIDE;
    assert Tune(c, p, COMPACT_DEVICE) == c.rebuild(p, 64) && Tune(c, p, WIDE_DEVICE) == c.rebuild(p, 256);
    hide Tune;
    HashedDecides(COMPACT_DEVICE, WIDE_DEVICE);
    assert KeyFor(c, p, COMPACT_DEVICE) == KeyFor(c, p, WIDE_DEVICE);
    RunsAreRightIff(c);
  }
}
