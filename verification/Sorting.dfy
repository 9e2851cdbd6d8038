/** A stable sort, as the standard library's. */
module Sorting {

  function Insert<T>(less: (T, T) -> bool, a: T, items: seq<T>): seq<T> {
    if items == [] || !less(items[0], a) then [a] + items else [items[0]] + Insert(less, a, items[1..])
  }

  function Sort<T>(less: (T, T) -> bool, items: seq<T>): seq<T> {
    if items == [] then [] else Insert(less, items[0], Sort(less, items[1..]))
  }

  ghost predicate Sorted<T>(less: (T, T) -> bool, items: seq<T>) {
    forall i, j :: 0 <= i < j < |items| ==> !less(items[j], items[i])
  }

  /** What a sort may be asked to sort by. */
  ghost predicate Orders<T(!new)>(less: (T, T) -> bool) {
    && (forall a, b :: !(less(a, b) && less(b, a)))
    && (forall a, b, c :: !less(b, a) && !less(c, b) ==> !less(c, a))
  }

  lemma {:induction false} InsertHolds<T>(less: (T, T) -> bool, a: T, items: seq<T>)
    ensures multiset(Insert(less, a, items)) == multiset{a} + multiset(items)
    ensures |Insert(less, a, items)| == |items| + 1
  {
    if items != [] && less(items[0], a) {
      InsertHolds(less, a, items[1..]);
      assert items == [items[0]] + items[1..];
    }
  }

  lemma {:induction false} InsertSorts<T(!new)>(less: (T, T) -> bool, a: T, items: seq<T>)
    requires Orders(less) && Sorted(less, items)
    ensures Sorted(less, Insert(less, a, items))
  {
    if items != [] && less(items[0], a) {
      InsertSorts(less, a, items[1..]);
      var rest := Insert(less, a, items[1..]);
      InsertHolds(less, a, items[1..]);
      forall j | 0 <= j < |rest|
        ensures !less(rest[j], items[0])
      {
        assert rest[j] in multiset(rest);
        assert rest[j] == a || rest[j] in items[1..];
      }
    } else {
      forall j | 0 <= j < |items|
        ensures !less(items[j], a)
      {
        assert j > 0 ==> !less(items[j], items[0]);
      }
    }
  }

  lemma {:induction false} SortSorts<T(!new)>(less: (T, T) -> bool, items: seq<T>)
    requires Orders(less)
    ensures Sorted(less, Sort(less, items))
    ensures |Sort(less, items)| == |items| && multiset(Sort(less, items)) == multiset(items)
  {
    if items != [] {
      SortSorts(less, items[1..]);
      InsertSorts(less, items[0], Sort(less, items[1..]));
      InsertHolds(less, items[0], Sort(less, items[1..]));
      assert items == [items[0]] + items[1..];
    }
  }

  lemma SortKeeps<T(!new)>(less: (T, T) -> bool, items: seq<T>, a: T)
    requires Orders(less)
    ensures a in Sort(less, items) <==> a in items
  {
    SortSorts(less, items);
    assert a in multiset(items) <==> a in items;
    assert a in multiset(Sort(less, items)) <==> a in Sort(less, items);
  }

  lemma {:induction false} SortedStays<T>(less: (T, T) -> bool, items: seq<T>)
    requires Sorted(less, items)
    ensures Sort(less, items) == items
  {
    if items != [] {
      SortedStays(less, items[1..]);
      assert |items| > 1 ==> !less(items[1], items[0]);
    }
  }

  ghost predicate NoneAlike<T>(items: seq<T>) {
    forall i, j :: 0 <= i < j < |items| ==> items[i] != items[j]
  }

  lemma {:induction false} CountedOnce<T>(items: seq<T>, a: T)
    requires NoneAlike(items)
    ensures multiset(items)[a] <= 1
  {
    if items != [] {
      CountedOnce(items[1..], a);
      assert items == [items[0]] + items[1..];
      assert a == items[0] ==> a !in items[1..];
    }
  }

  lemma SortedUnlike<T(!new)>(less: (T, T) -> bool, items: seq<T>)
    requires Orders(less) && NoneAlike(items)
    ensures NoneAlike(Sort(less, items))
  {
    SortSorts(less, items);
    var after := Sort(less, items);
    forall i, j | 0 <= i < j < |after|
      ensures after[i] != after[j]
    {
      if after[i] == after[j] {
        CountedOnce(items, after[i]);
        TwoCounted(after, i, j);
      }
    }
  }

  lemma TwoCounted<T>(items: seq<T>, i: nat, j: nat)
    requires i < j < |items| && items[i] == items[j]
    ensures multiset(items)[items[i]] >= 2
  {
    assert items == items[..j] + [items[j]] + items[j + 1..];
    assert items[..j] == items[..i] + [items[i]] + items[i + 1..j];
  }
}
