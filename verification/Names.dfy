/** Comparing names, and finding repeated keys by sorting. */
module Names {
  import opened Ordering
  import opened Sequences

  /** Lexicographic order of strings. */
  predicate NotAfter(a: string, b: string) {
    a == "" || (b != "" && (a[0] < b[0] || (a[0] == b[0] && NotAfter(a[1..], b[1..]))))
  }

  lemma {:induction false} NamesCompare(a: string, b: string)
    ensures NotAfter(a, b) || NotAfter(b, a)
    ensures NotAfter(a, b) && NotAfter(b, a) ==> a == b
  {
    if a != "" && b != "" {
      NamesCompare(a[1..], b[1..]);
      assert a == [a[0]] + a[1..] && b == [b[0]] + b[1..];
    }
  }

  lemma {:induction false} NamesChain(a: string, b: string, c: string)
    requires NotAfter(a, b) && NotAfter(b, c)
    ensures NotAfter(a, c)
  {
    if a != "" && a[0] == b[0] == c[0] {
      NamesChain(a[1..], b[1..], c[1..]);
    }
  }

  /** Keys that compare both ways are the same. */
  ghost predicate Antisymmetric<K(!new)>(leq: (K, K) -> bool) {
    forall a, b :: leq(a, b) && leq(b, a) ==> a == b
  }

  lemma NamesOrder()
    ensures Comparable(NotAfter) && Antisymmetric(NotAfter)
  {
    forall a, b
      ensures (NotAfter(a, b) || NotAfter(b, a)) && (NotAfter(a, b) && NotAfter(b, a) ==> a == b)
    {
      NamesCompare(a, b);
    }
    forall a, b, c | NotAfter(a, b) && NotAfter(b, c)
      ensures NotAfter(a, c)
    {
      NamesChain(a, b, c);
    }
  }

  // ----- repeated keys -----

  /** No key occurs at two positions. */
  ghost predicate DistinctKeys<K>(items: seq<(K, nat)>) {
    forall i, j | 0 <= i < j < |items| :: items[i].0 != items[j].0
  }

  /** Keys with the position they came from. */
  predicate Numbered<K>(items: seq<(K, nat)>) {
    forall i | 0 <= i < |items| :: items[i].1 == i
  }

  lemma RearrangedKeys<K>(items: seq<(K, nat)>, sorted: seq<(K, nat)>)
    requires Numbered(items) && multiset(sorted) == multiset(items)
    ensures DistinctKeys(sorted) <==> DistinctKeys(items)
  {
    assert Distinct(items);
    if !DistinctKeys(sorted) {
      var i, j :| 0 <= i < j < |sorted| && sorted[i].0 == sorted[j].0;
      RepeatedKey(items, sorted, i, j);
    }
    if !DistinctKeys(items) {
      var i, j :| 0 <= i < j < |items| && items[i].0 == items[j].0;
      var k := Occurs(items, sorted, i);
      var l := Occurs(items, sorted, j);
      assert k != l;
      assert sorted[if k < l then k else l].0 == sorted[if k < l then l else k].0;
    }
  }

  lemma Occurs<K>(items: seq<(K, nat)>, sorted: seq<(K, nat)>, i: nat) returns (k: nat)
    requires i < |items| && multiset(sorted) == multiset(items)
    ensures k < |sorted| && sorted[k] == items[i]
  {
    assert items[i] in multiset(items);
    assert items[i] in multiset(sorted);
    k :| k < |sorted| && sorted[k] == items[i];
  }

  lemma RepeatedKey<K>(items: seq<(K, nat)>, sorted: seq<(K, nat)>, i: nat, j: nat)
    requires Numbered(items) && Distinct(items) && multiset(sorted) == multiset(items)
    requires i < j < |sorted| && sorted[i].0 == sorted[j].0
    ensures !DistinctKeys(items)
  {
    var k := Occurs(sorted, items, i);
    var l := Occurs(sorted, items, j);
    if k == l {
      RepeatsCount(sorted, i, j);
      DistinctCountsOnce(items, sorted[i]);
      assert false;
    }
    assert items[if k < l then k else l].0 == items[if k < l then l else k].0;
  }

  /** Keys in order repeat only next to each other. */
  lemma NeighboursDecide<K(!new)>(leq: (K, K) -> bool, sorted: seq<(K, nat)>)
    requires Antisymmetric(leq)
    requires forall i, j | 0 <= i < j < |sorted| :: leq(sorted[i].0, sorted[j].0)
    ensures DistinctKeys(sorted) <==> forall i | 0 < i < |sorted| :: sorted[i - 1].0 != sorted[i].0
  {
    if forall i | 0 < i < |sorted| :: sorted[i - 1].0 != sorted[i].0 {
      forall i, j | 0 <= i < j < |sorted|
        ensures sorted[i].0 != sorted[j].0
      {
        assert leq(sorted[i].0, sorted[i + 1].0);
        if i + 1 < j {
          assert leq(sorted[i + 1].0, sorted[j].0);
        }
      }
    }
  }

  /** Sort by key and compare neighbours. */
  method HasRepeatedKey<K(==, !new)>(leq: (K, K) -> bool, items: seq<(K, nat)>) returns (repeated: bool)
    requires Comparable(leq) && Antisymmetric(leq)
    requires Numbered(items)
    ensures repeated <==> !DistinctKeys(items)
  {
    var byKey := (a: (K, nat), b: (K, nat)) => leq(a.0, b.0);
    forall a, b
      ensures byKey(a, b) || byKey(b, a)
    {
      assert leq(a.0, b.0) || leq(b.0, a.0);
    }
    forall a, b, c | byKey(a, b) && byKey(b, c)
      ensures byKey(a, c)
    {
      assert leq(a.0, b.0) && leq(b.0, c.0);
    }
    var sorted := Sort(byKey, items);
    RearrangedKeys(items, sorted);
    forall i, j | 0 <= i < j < |sorted|
      ensures leq(sorted[i].0, sorted[j].0)
    {
      assert byKey(sorted[i], sorted[j]);
    }
    NeighboursDecide(leq, sorted);
    repeated := false;
    var i := 1;
    while i < |sorted|
      invariant 1 <= i
      invariant !repeated
      invariant forall k | 0 < k < i && k < |sorted| :: sorted[k - 1].0 != sorted[k].0
    {
      if sorted[i - 1].0 == sorted[i].0 {
        return true;
      }
      i := i + 1;
    }
  }
}
