/** One shard of the optimizer memo cache: a bounded map with first-in-first-out
    eviction. */
module ProgramShard {
  import opened Machine
  import opened Sequences

  const CAPACITY := 256

  type Key = seq<u8>

  datatype Shard<P> = Shard(entries: map<Key, P>, fifo: seq<Key>)

  /** The queue lists exactly the live keys, each once, and is bounded. */
  ghost predicate WellFormed<P>(s: Shard<P>) {
    && Distinct(s.fifo)
    && |s.fifo| <= CAPACITY
    && (forall i | 0 <= i < |s.fifo| :: s.fifo[i] in s.entries)
    && (forall k | k in s.entries :: Listed(s.fifo, k))
  }

  function Insert<P>(s: Shard<P>, key: Key, program: P): Shard<P> {
    if key in s.entries then s
    else if |s.entries| >= CAPACITY && s.fifo != [] then
      Shard((s.entries - {s.fifo[0]})[key := program], s.fifo[1..] + [key])
    else
      Shard(s.entries[key := program], s.fifo + [key])
  }

  class ProgramCacheShard<P> {
    var entries: map<Key, P>
    var fifo: seq<Key>

    function View(): Shard<P>
      reads this
    {
      Shard(entries, fifo)
    }

    constructor ()
      ensures View() == Shard(map[], [])
    {
      entries, fifo := map[], [];
    }

    method Get(key: Key) returns (program: Option<P>)
      ensures program == if key in entries then Some(entries[key]) else None
    {
      if key in entries {
        return Some(entries[key]);
      }
      return None;
    }

    method Put(key: Key, program: P)
      modifies this
      ensures View() == Insert(old(View()), key, program)
    {
      if key in entries {
        return;
      }
      if |entries| >= CAPACITY {
        if fifo != [] {
          var evicted := fifo[0];
          fifo := fifo[1..];
          entries := entries - {evicted};
        }
      }
      fifo := fifo + [key];
      entries := entries[key := program];
    }
  }

  lemma LiveCount<P>(s: Shard<P>)
    requires WellFormed(s)
    ensures |s.entries| == |s.fifo|
  {
    DistinctCount(s.fifo, s.entries.Keys);
    assert |s.entries| == |s.entries.Keys|;
  }

  /** An insertion keeps the shard in shape and evicts nothing but the oldest key,
      and that only from a full shard. */
  lemma InsertKeepsShape<P>(s: Shard<P>, key: Key, program: P)
    requires WellFormed(s)
    ensures WellFormed(Insert(s, key, program))
    ensures
      var t := Insert(s, key, program);
      && key in t.entries
      && (key !in s.entries ==> t.fifo == (if |s.fifo| == CAPACITY then s.fifo[1..] else s.fifo) + [key])
      && (forall k | k in s.entries :: k in t.entries ==> t.entries[k] == s.entries[k])
      && (forall k | k in s.entries && k !in t.entries :: |s.fifo| == CAPACITY && k == s.fifo[0])
  {
    LiveCount(s);
    if key !in s.entries {
      if |s.fifo| == CAPACITY {
        DropFirst(s);
        Append(Shard(s.entries - {s.fifo[0]}, s.fifo[1..]), key, program);
      } else {
        Append(s, key, program);
      }
    }
  }

  lemma DropFirst<P>(s: Shard<P>)
    requires WellFormed(s) && s.fifo != []
    ensures WellFormed(Shard(s.entries - {s.fifo[0]}, s.fifo[1..]))
  {
    forall k | k in s.entries && k != s.fifo[0]
      ensures Listed(s.fifo[1..], k)
    {
      assert Listed(s.fifo, k);
      var i :| 0 <= i < |s.fifo| && s.fifo[i] == k;
      assert s.fifo[1..][i - 1] == k;
    }
  }

  lemma Append<P>(s: Shard<P>, key: Key, program: P)
    requires WellFormed(s) && key !in s.entries && |s.fifo| < CAPACITY
    ensures WellFormed(Shard(s.entries[key := program], s.fifo + [key]))
  {
    var fifo := s.fifo + [key];
    assert fifo[|s.fifo|] == key;
    forall k | k in s.entries
      ensures Listed(fifo, k)
    {
      assert Listed(s.fifo, k);
      var i :| 0 <= i < |s.fifo| && s.fifo[i] == k;
      assert fifo[i] == k;
    }
  }

  datatype Insertion<P> = Insertion(key: Key, program: P)

  function InsertAll<P>(puts: seq<Insertion<P>>): Shard<P> {
    if puts == [] then Shard(map[], [])
    else Insert(InsertAll(puts[..|puts| - 1]), puts[|puts| - 1].key, puts[|puts| - 1].program)
  }

  /** The keys of the insertions that took effect, in order. */
  function Log<P>(puts: seq<Insertion<P>>): seq<Key> {
    if puts == [] then [] else
      var before := puts[..|puts| - 1];
      var key := puts[|puts| - 1].key;
      Log(before) + if key in InsertAll(before).entries then [] else [key]
  }

  /** The queue is the longest suffix of the insertion log that fits. */
  ghost predicate HoldsLatest<P>(s: Shard<P>, log: seq<Key>) {
    && WellFormed(s)
    && |s.fifo| == Min(CAPACITY, |log|)
    && s.fifo == log[|log| - |s.fifo|..]
  }

  /** The queue is always the most recent insertions. */
  lemma {:induction false} QueueIsLatestInsertions<P>(puts: seq<Insertion<P>>)
    ensures HoldsLatest(InsertAll(puts), Log(puts))
  {
    hide HoldsLatest, Insert;
    if puts == [] {
      NothingStored<P>();
    } else {
      var before := puts[..|puts| - 1];
      var put := puts[|puts| - 1];
      QueueIsLatestInsertions(before);
      var s := InsertAll(before);
      if put.key in s.entries {
        InsertTwice(s, put.key, put.program);
        assert Log(puts) == Log(before);
      } else {
        LogGrows(s, Log(before), put.key, put.program);
      }
    }
  }

  lemma LogGrows<P>(s: Shard<P>, log: seq<Key>, key: Key, program: P)
    requires HoldsLatest(s, log) && key !in s.entries
    ensures HoldsLatest(Insert(s, key, program), log + [key])
  {
    hide WellFormed, Insert;
    InsertKeepsShape(s, key, program);
    var from := |log| - |s.fifo|;
    SuffixGrows(log, from, key);
    if |s.fifo| == CAPACITY {
      SuffixGrows(log, from + 1, key);
      assert s.fifo[1..] == log[from + 1..];
    }
  }

  lemma SuffixGrows(log: seq<Key>, from: nat, key: Key)
    requires from <= |log|
    ensures (log + [key])[from..] == log[from..] + [key]
  {
  }

  lemma NothingStored<P>()
    ensures HoldsLatest(InsertAll<P>([]), [])
  {
  }

  lemma InsertTwice<P>(s: Shard<P>, key: Key, program: P)
    requires key in s.entries
    ensures Insert(s, key, program) == s
  {
  }
}
