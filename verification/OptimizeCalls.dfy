/** The optimizer entry points as sequential code over the locked cache, and their
    agreement with the step system when no other thread runs. */
module OptimizeCalls {
  import opened Machine
  import opened DeviceKey
  import opened ProgramShard
  import opened OptimizeCache

  /** How many critical sections a call can still have ahead of it. */
  function SectionsLeft<P>(phase: Phase<P>): nat {
    match phase
    case LookDevice(_, _) => 4
    case LookHost(_, _) => 3
    case StoreHost(_, _, _) => 2
    case StoreDevice(_, _, _) => 1
    case Finished(_, _) => 0
  }

  /** Let one thread run its call to the end. */
  function Complete<P>(c: Compiler<P>, s: State<P>, t: nat): (done: State<P>)
    requires t in s.threads
    ensures t in done.threads && done.threads[t].Finished?
    ensures done.poisoned == s.poisoned
    decreases SectionsLeft(s.threads[t])
  {
    if s.threads[t].Finished? then s else Complete(c, Section(c, s, t), t)
  }

  /** Completing a call is a run of the step system. */
  lemma {:induction false} CompleteIsRun<P>(c: Compiler<P>, actions: seq<Action<P>>,
                                            t: nat) returns (more: seq<Action<P>>)
    requires t in Reach(c, actions).threads
    ensures Reach(c, actions + more) == Complete(c, Reach(c, actions), t)
    ensures forall i | 0 <= i < |more| :: more[i] == Advance(t)
    decreases SectionsLeft(Reach(c, actions).threads[t])
  {
    hide KeyFor, Tune, Insert;
    var s := Reach(c, actions);
    if s.threads[t].Finished? {
      more := [];
      assert actions + more == actions;
    } else {
      ReachStep(c, actions, Advance(t));
      var rest := CompleteIsRun(c, actions + [Advance(t)], t);
      more := [Advance(t)] + rest;
      assert actions + [Advance(t)] + rest == actions + more;
    }
  }

  /** One thread, in this phase. */
  function With<P>(s: State<P>, phase: Phase<P>): State<P> {
    s.(threads := map[0 := phase])
  }

  function HostResult<P>(c: Compiler<P>, s: State<P>, p: P): P {
    if !s.poisoned && c.fingerprint(p) in s.host.entries then s.host.entries[c.fingerprint(p)] else c.opt(p)
  }

  function HostAfter<P>(c: Compiler<P>, s: State<P>, p: P): Shard<P> {
    if s.poisoned || c.fingerprint(p) in s.host.entries then s.host else Insert(s.host, c.fingerprint(p), c.opt(p))
  }

  /** What a host call does, whichever call it serves. */
  lemma HostCall<P>(c: Compiler<P>, s: State<P>, p: P, outer: Option<Call<P>>)
    ensures Complete(c, With(s, LookHost(p, outer)), 0)
         == Complete(c, With(s.(host := HostAfter(c, s, p)), AfterHost(p, HostResult(c, s, p), outer)), 0)
  {
    hide Insert, KeyFor, Tune;
    var look := With(s, LookHost(p, outer));
    var done := With(s.(host := HostAfter(c, s, p)), AfterHost(p, HostResult(c, s, p), outer));
    if !s.poisoned && c.fingerprint(p) in s.host.entries {
      assert Section(c, look, 0) == done;
    } else {
      var store := With(s, StoreHost(p, c.opt(p), outer));
      assert Section(c, look, 0) == store;
      assert Section(c, store, 0) == done;
    }
  }

  lemma DeviceStored<P>(c: Compiler<P>, s: State<P>, p: P, d: Profile, result: P)
    ensures
      var device := if s.poisoned then s.device else Insert(s.device, KeyFor(c, p, d), result);
      Complete(c, With(s, StoreDevice(p, d, result)), 0)
      == With(s.(device := device), Finished(Call.OptimizeForDevice(p, d), result))
  {
  }

  class Cache<P> {
    const host: ProgramCacheShard<P>
    const device: ProgramCacheShard<P>
    var poisoned: bool

    ghost predicate Valid() {
      host != device
    }

    function Alone(phase: Phase<P>): State<P>
      reads this, host, device
    {
      State(host.View(), device.View(), poisoned, map[0 := phase])
    }

    constructor ()
      ensures Valid() && fresh(host) && fresh(device)
      ensures !poisoned && host.View() == Shard(map[], []) && device.View() == Shard(map[], [])
    {
      host := new ProgramCacheShard();
      device := new ProgramCacheShard();
      poisoned := false;
    }

    method GetFrom(shard: ProgramCacheShard<P>, key: Key) returns (r: Option<P>)
      ensures r == if !poisoned && key in shard.entries then Some(shard.entries[key]) else None
    {
      if poisoned {
        return None;
      }
      r := shard.Get(key);
    }

    method PutInto(shard: ProgramCacheShard<P>, key: Key, program: P)
      modifies shard
      ensures shard.View() == if poisoned then old(shard.View()) else Insert(old(shard.View()), key, program)
    {
      if poisoned {
        return;
      }
      shard.Put(key, program);
    }

    method Optimize(c: Compiler<P>, p: P) returns (r: P)
      requires Valid()
      modifies host
      ensures
        var done := Complete(c, old(Alone(LookHost(p, None))), 0);
        && done.threads[0] == Finished(Call.Optimize(p), r)
        && host.View() == done.host && device.View() == done.device
    {
      hide Insert;
      HostCall(c, Alone(LookHost(p, None)), p, None);
      var key := c.fingerprint(p);
      var cached := GetFrom(host, key);
      if cached.Some? {
        return cached.value;
      }
      var optimized := c.opt(p);
      PutInto(host, key, optimized);
      r := optimized;
    }

    method OptimizeForDevice(c: Compiler<P>, p: P, d: Profile) returns (r: P)
      requires Valid()
      modifies host, device
      ensures
        var done := Complete(c, old(Alone(LookDevice(p, d))), 0);
        && done.threads[0] == Finished(Call.OptimizeForDevice(p, d), r)
        && host.View() == done.host && device.View() == done.device
    {
      hide Insert, KeyFor, Tune;
      var key := KeyFor(c, p, d);
      var cached := GetFrom(device, key);
      if cached.Some? {
        return cached.value;
      }
      var tuned := Tune(c, p, d);
      var optimized := Optimize(c, tuned);
      PutInto(device, key, optimized);
      r := optimized;
      NestedCall(c, old(Alone(LookDevice(p, d))), p, d);
    }
  }

  /** A device call that misses runs a host call for the tuned program and stores its
      result. */
  lemma NestedCall<P>(c: Compiler<P>, s: State<P>, p: P, d: Profile)
    requires s.threads == map[0 := LookDevice(p, d)]
    requires s.poisoned || KeyFor(c, p, d) !in s.device.entries
    ensures
      var inner := Complete(c, s.(threads := map[0 := LookHost(Tune(c, p, d), None)]), 0);
      var done := Complete(c, s, 0);
      && done.threads[0] == Finished(Call.OptimizeForDevice(p, d), inner.threads[0].result)
      && done.host == inner.host
      && done.device == (if s.poisoned then s.device else Insert(s.device, KeyFor(c, p, d), inner.threads[0].result))
      && inner.device == s.device
  {
    hide Insert, KeyFor, Tune;
    var tuned, call := Tune(c, p, d), Some(Call.OptimizeForDevice(p, d));
    assert Section(c, s, 0) == With(s, LookHost(tuned, call));
    HostCall(c, s, tuned, call);
    HostCall(c, s, tuned, None);
    hide Section, HostResult, HostAfter;
    DeviceStored(c, s.(host := HostAfter(c, s, tuned)), p, d, HostResult(c, s, tuned));
  }
}
