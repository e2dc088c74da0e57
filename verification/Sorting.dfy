/** The contract of the standard library sort: the same elements, rearranged so that no element
    comes before one that is less. Where elements tie, any order may come out; the models take
    the sort as a parameter and use nothing but this contract. */
module Sorting {

  ghost predicate Sorted<T>(less: (T, T) -> bool, t: seq<T>) {
    forall i, j | 0 <= i < j < |t| :: !less(t[j], t[i])
  }

  ghost predicate Conforms<T(!new)>(less: (T, T) -> bool, sort: seq<T> -> seq<T>) {
    forall s: seq<T> :: multiset(sort(s)) == multiset(s) && Sorted(less, sort(s))
  }

  lemma SameElements<T>(s: seq<T>, t: seq<T>)
    requires multiset(s) == multiset(t)
    ensures |s| == |t|
    ensures forall x :: x in s <==> x in t
  {
    assert |s| == |multiset(s)| == |t|;
    forall x ensures x in s <==> x in t {
      assert x in s <==> x in multiset(s);
      assert x in t <==> x in multiset(t);
    }
  }

  // ---------------------------------------------------------------- one conforming sort

  ghost predicate StrictWeakOrder<T(!new)>(less: (T, T) -> bool) {
    && (forall x, y :: less(x, y) ==> !less(y, x))
    && (forall x, y, z :: !less(y, x) && !less(z, y) ==> !less(z, x))
  }

  function Insert<T>(less: (T, T) -> bool, x: T, s: seq<T>): (t: seq<T>)
    ensures multiset(t) == multiset(s) + multiset{x}
  {
    if s == [] then [x]
    else if less(x, s[0]) then [x] + s
    else assert s == [s[0]] + s[1..]; [s[0]] + Insert(less, x, s[1..])
  }

  function InsertionSort<T>(less: (T, T) -> bool, s: seq<T>): (t: seq<T>)
    ensures multiset(t) == multiset(s)
  {
    if s == [] then [] else
      assert s == [s[0]] + s[1..];
      Insert(less, s[0], InsertionSort(less, s[1..]))
  }

  lemma {:induction false} InsertSorted<T(!new)>(less: (T, T) -> bool, x: T, s: seq<T>)
    requires StrictWeakOrder(less) && Sorted(less, s)
    ensures Sorted(less, Insert(less, x, s))
  {
    if s != [] && !less(x, s[0]) {
      var rest := Insert(less, x, s[1..]);
      InsertSorted(less, x, s[1..]);
      assert s == [s[0]] + s[1..];
      forall j | 0 <= j < |rest| ensures !less(rest[j], s[0]) {
        assert rest[j] in multiset(s[1..]) + multiset{x};
        assert rest[j] == x || rest[j] in s[1..];
      }
    }
  }

  lemma {:induction false} InsertionSortSorted<T(!new)>(less: (T, T) -> bool, s: seq<T>)
    requires StrictWeakOrder(less)
    ensures Sorted(less, InsertionSort(less, s))
  {
    if s != [] {
      InsertionSortSorted(less, s[1..]);
      InsertSorted(less, s[0], InsertionSort(less, s[1..]));
    }
  }

  /** For every strict weak order there is a sort that conforms. */
  lemma ConformingSortExists<T(!new)>(less: (T, T) -> bool)
    requires StrictWeakOrder(less)
    ensures Conforms(less, s => InsertionSort(less, s))
  {
    forall s: seq<T> ensures Sorted(less, InsertionSort(less, s)) {
      InsertionSortSorted(less, s);
    }
  }
}
