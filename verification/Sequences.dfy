/** Sequence vocabulary shared by the cache models. */
module Sequences {

  ghost predicate Listed<T>(items: seq<T>, x: T) {
    exists i :: 0 <= i < |items| && items[i] == x
  }

  predicate Distinct<T(==)>(items: seq<T>) {
    forall i, j | 0 <= i < j < |items| :: items[i] != items[j]
  }

  /** The sequence with its i-th element moved to the end. */
  function MoveToEnd<T>(items: seq<T>, i: nat): (moved: seq<T>)
    requires i < |items|
    ensures |moved| == |items|
    ensures forall j | 0 <= j < |items| ::
              moved[j] == items[if j < i then j else if j == |items| - 1 then i else j + 1]
  {
    items[..i] + items[i + 1..] + [items[i]]
  }

  lemma {:induction false} DistinctCount<T>(items: seq<T>, all: set<T>)
    requires Distinct(items)
    requires forall i | 0 <= i < |items| :: items[i] in all
    requires forall x | x in all :: Listed(items, x)
    ensures |items| == |all|
  {
    if items == [] {
      assert all == {};
    } else {
      var last := |items| - 1;
      var rest := all - {items[last]};
      forall x | x in rest
        ensures Listed(items[..last], x)
      {
        assert Listed(items, x);
        var i :| 0 <= i < |items| && items[i] == x;
        assert items[..last][i] == x;
      }
      DistinctCount(items[..last], rest);
    }
  }

  lemma RepeatsCount<T>(items: seq<T>, i: nat, j: nat)
    requires i < j < |items| && items[i] == items[j]
    ensures multiset(items)[items[i]] >= 2
  {
    assert items == items[..i] + [items[i]] + items[i + 1..j] + [items[j]] + items[j + 1..];
  }

  lemma {:induction false} DistinctCountsOnce<T>(items: seq<T>, x: T)
    requires Distinct(items)
    ensures multiset(items)[x] <= 1
  {
    if items != [] {
      var last := |items| - 1;
      assert items == items[..last] + [items[last]];
      DistinctCountsOnce(items[..last], x);
      assert items[last] !in items[..last];
    }
  }

  /** Rearranging keeps what is listed and whether anything repeats. */
  lemma RearrangedAlike<T>(a: seq<T>, b: seq<T>)
    requires multiset(a) == multiset(b)
    ensures |a| == |b|
    ensures forall x :: Listed(a, x) <==> Listed(b, x)
    ensures Distinct(a) <==> Distinct(b)
  {
    assert |multiset(a)| == |a| && |multiset(b)| == |b|;
    forall x
      ensures Listed(a, x) <==> Listed(b, x)
    {
      assert x in a <==> x in multiset(a);
      assert x in b <==> x in multiset(b);
    }
    RearrangedDistinct(a, b);
    RearrangedDistinct(b, a);
  }

  lemma RearrangedDistinct<T>(a: seq<T>, b: seq<T>)
    requires multiset(a) == multiset(b)
    ensures Distinct(a) ==> Distinct(b)
  {
    if Distinct(a) {
      forall i, j | 0 <= i < j < |b|
        ensures b[i] != b[j]
      {
        DistinctCountsOnce(a, b[i]);
        if b[i] == b[j] { RepeatsCount(b, i, j); }
      }
    }
  }

  lemma RestampSize<K, V>(m: map<K, V>, k: K, v: V)
    ensures |m[k := v]| == if k in m then |m| else |m| + 1
  {
  }

  lemma RemoveSize<K, V>(m: map<K, V>, k: K)
    requires k in m
    ensures |m - {k}| == |m| - 1
  {
    assert (m - {k}).Keys == m.Keys - {k};
  }
}
