/** The shared "sort only when needed" helper, over any total preorder. */
module Ordering {

  /** Any two elements compare, and comparison chains. */
  ghost predicate Comparable<T(!new)>(leq: (T, T) -> bool) {
    && (forall a, b :: leq(a, b) || leq(b, a))
    && (forall a, b, c :: leq(a, b) && leq(b, c) ==> leq(a, c))
  }

  ghost predicate Ascending<T>(leq: (T, T) -> bool, items: seq<T>) {
    forall i, j | 0 <= i < j < |items| :: leq(items[i], items[j])
  }

  /** Looking at neighbours only is enough. */
  lemma {:induction false} NeighboursSuffice<T(!new)>(leq: (T, T) -> bool, items: seq<T>)
    requires Comparable(leq)
    requires forall i | 0 < i < |items| :: leq(items[i - 1], items[i])
    ensures Ascending(leq, items)
  {
    forall i, j | 0 <= i < j < |items|
      ensures leq(items[i], items[j])
    {
      var k := i + 1;
      while k < j
        invariant i < k <= j
        invariant leq(items[i], items[k])
      {
        k := k + 1;
      }
    }
  }

  lemma InsertedAscending<T(!new)>(leq: (T, T) -> bool, items: seq<T>, k: nat, x: T)
    requires Comparable(leq)
    requires Ascending(leq, items) && k <= |items|
    requires forall i | 0 <= i < k :: leq(items[i], x)
    requires k < |items| ==> !leq(items[k], x)
    ensures forall i | k <= i < |items| :: leq(x, items[i])
    ensures Ascending(leq, items[..k] + [x] + items[k..])
    ensures multiset(items[..k] + [x] + items[k..]) == multiset(items) + multiset{x}
  {
    var wider := items[..k] + [x] + items[k..];
    forall i | k <= i < |items|
      ensures leq(x, items[i])
    {
      assert leq(x, items[k]);
      assert i == k || leq(items[k], items[i]);
    }
    forall i, j | 0 <= i < j < |wider|
      ensures leq(wider[i], wider[j])
    {
      assert wider[i] == if i < k then items[i] else if i == k then x else items[i - 1];
      assert wider[j] == if j < k then items[j] else if j == k then x else items[j - 1];
    }
    InsertedMultiset(items, k, x);
  }

  lemma InsertedMultiset<T>(items: seq<T>, k: nat, x: T)
    requires k <= |items|
    ensures multiset(items[..k] + [x] + items[k..]) == multiset(items) + multiset{x}
  {
    assert items == items[..k] + items[k..];
  }

  /** Insert `x` into an ascending sequence after every smaller element. */
  method InsertAscending<T(!new)>(leq: (T, T) -> bool, items: seq<T>, x: T) returns (wider: seq<T>)
    requires Comparable(leq)
    requires Ascending(leq, items)
    ensures Ascending(leq, wider)
    ensures multiset(wider) == multiset(items) + multiset{x}
  {
    var k := 0;
    while k < |items| && leq(items[k], x)
      invariant 0 <= k <= |items|
      invariant forall i | 0 <= i < k :: leq(items[i], x)
    {
      k := k + 1;
    }
    InsertedAscending(leq, items, k, x);
    wider := items[..k] + [x] + items[k..];
  }

  method Sort<T(!new)>(leq: (T, T) -> bool, items: seq<T>) returns (sorted: seq<T>)
    requires Comparable(leq)
    ensures Ascending(leq, sorted)
    ensures multiset(sorted) == multiset(items)
  {
    sorted := [];
    for taken := 0 to |items|
      invariant Ascending(leq, sorted)
      invariant multiset(sorted) == multiset(items[..taken])
    {
      assert items[..taken + 1] == items[..taken] + [items[taken]];
      sorted := InsertAscending(leq, sorted, items[taken]);
    }
    assert items[..|items|] == items;
  }

  /** Returns the input itself when it is already ascending. */
  method SortIfNeeded<T(!new)>(leq: (T, T) -> bool, items: seq<T>) returns (sorted: seq<T>)
    requires Comparable(leq)
    ensures Ascending(leq, sorted)
    ensures multiset(sorted) == multiset(items)
    ensures Ascending(leq, items) ==> sorted == items
  {
    var index := 1;
    while index < |items|
      invariant 1 <= index
      invariant forall i | 0 < i < index && i < |items| :: leq(items[i - 1], items[i])
    {
      if !leq(items[index - 1], items[index]) {
        sorted := Sort(leq, items);
        return;
      }
      index := index + 1;
    }
    NeighboursSuffice(leq, items);
    sorted := items;
  }
}
