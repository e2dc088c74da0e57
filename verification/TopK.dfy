/** Keeping the smallest entries of a growing list, the way both label searches do. */
module TopK {
  import opened FiniteSets
  import opened Sorting

  ghost predicate AscendingBy<T(!new)>(key: T -> nat, s: seq<T>) {
    forall i, j | 0 <= i < j < |s| :: key(s[i]) <= key(s[j])
  }

  /** `best` and `rest` together are `all`, and nothing left out is smaller than anything kept. */
  ghost predicate Splits<T(!new)>(key: T -> nat, best: seq<T>, rest: seq<T>, all: seq<T>) {
    && multiset(best) + multiset(rest) == multiset(all)
    && forall i, j | 0 <= i < |best| && 0 <= j < |rest| :: key(best[i]) <= key(rest[j])
  }

  /** `best` holds smallest entries of `all`, in ascending order. */
  ghost predicate Smallest<T(!new)>(key: T -> nat, best: seq<T>, all: seq<T>) {
    AscendingBy(key, best) && exists rest: seq<T> :: Splits(key, best, rest, all)
  }

  function LessBy<T(!new)>(key: T -> nat): (T, T) -> bool {
    (x: T, y: T) => key(x) < key(y)
  }

  /** Conforming sorts by a key exist. */
  lemma SortsByKey<T(!new)>(key: T -> nat)
    ensures Conforms(LessBy(key), s => InsertionSort(LessBy(key), s))
  {
    ConformingSortExists(LessBy(key));
  }

  lemma SortAscends<T(!new)>(key: T -> nat, sort: seq<T> -> seq<T>, s: seq<T>)
    requires Conforms(LessBy(key), sort)
    ensures AscendingBy(key, sort(s)) && multiset(sort(s)) == multiset(s) && |sort(s)| == |s|
  {
    var t := sort(s);
    SameElements(t, s);
    var less := LessBy(key);
    forall i, j | 0 <= i < j < |t| ensures key(t[i]) <= key(t[j]) {
      assert !less(t[j], t[i]);
    }
  }

  /** An entry not below the last kept one may be dropped. */
  lemma Skip<T(!new)>(key: T -> nat, best: seq<T>, all: seq<T>, x: T)
    requires Smallest(key, best, all) && best != [] && key(x) >= key(best[|best| - 1])
    ensures Smallest(key, best, all + [x])
  {
    var rest: seq<T> :| Splits(key, best, rest, all);
    assert Splits(key, best, rest + [x], all + [x]);
  }

  /** Bookkeeping: x comes in, y goes out. */
  lemma Exchange<T>(best: seq<T>, rest: seq<T>, all: seq<T>, x: T, y: T, kept: seq<T>)
    requires multiset(best) + multiset(rest) == multiset(all)
    requires multiset(kept) + multiset{y} == multiset(best) + multiset{x}
    ensures multiset(kept) + multiset(rest + [y]) == multiset(all + [x])
  {
    assert multiset(rest + [y]) == multiset(rest) + multiset{y};
    assert multiset(all + [x]) == multiset(all) + multiset{x};
    var b, r, k := multiset(best), multiset(rest), multiset(kept);
    assert k + (r + multiset{y}) == (k + multiset{y}) + r;
    assert (b + multiset{x}) + r == (b + r) + multiset{x};
  }

  /** An entry below the last kept one takes its place, and the list is sorted again. */
  lemma Replace<T(!new)>(key: T -> nat, sort: seq<T> -> seq<T>, best: seq<T>, all: seq<T>, x: T)
    requires Conforms(LessBy(key), sort)
    requires Smallest(key, best, all) && best != [] && key(x) < key(best[|best| - 1])
    ensures Smallest(key, sort(best[|best| - 1 := x]), all + [x])
    ensures |sort(best[|best| - 1 := x])| == |best|
  {
    var y := best[|best| - 1];
    var rest: seq<T> :| Splits(key, best, rest, all);
    var next := best[|best| - 1 := x];
    var best' := sort(next);
    SortAscends(key, sort, next);
    SameElements(best', next);
    Exchange(best, rest, all, x, y, best');
    forall i, j | 0 <= i < |best'| && 0 <= j < |rest + [y]| ensures key(best'[i]) <= key((rest + [y])[j]) {
      assert best'[i] in best';
    }
    assert Splits(key, best', rest + [y], all + [x]);
  }

  /** While the list is short nothing is left out. */
  lemma Grow<T(!new)>(key: T -> nat, sort: seq<T> -> seq<T>, best: seq<T>, all: seq<T>, x: T)
    requires Conforms(LessBy(key), sort) && multiset(best) == multiset(all)
    ensures Smallest(key, sort(best + [x]), all + [x])
    ensures multiset(sort(best + [x])) == multiset(all + [x])
    ensures |sort(best + [x])| == |best| + 1
  {
    SortAscends(key, sort, best + [x]);
    assert Splits(key, sort(best + [x]), [], all + [x]);
  }

  lemma DroppedIsLargest<T(!new)>(key: T -> nat, best: seq<T>, x: T, y: T)
    requires AscendingBy(key, best) && best != [] && key(x) < key(best[|best| - 1]) && y in best + [x]
    ensures key(y) <= key(best[|best| - 1])
  {
  }

  /** Appending, sorting and dropping the last keeps as many smallest entries as before. */
  lemma GrowAndDrop<T(!new)>(key: T -> nat, sort: seq<T> -> seq<T>, best: seq<T>, all: seq<T>, x: T)
    requires Conforms(LessBy(key), sort)
    requires Smallest(key, best, all) && best != [] && key(x) < key(best[|best| - 1])
    ensures |sort(best + [x])| == |best| + 1
    ensures Smallest(key, sort(best + [x])[..|best|], all + [x])
  {
    var last := |best| - 1;
    var rest: seq<T> :| Splits(key, best, rest, all);
    var t := sort(best + [x]);
    SortAscends(key, sort, best + [x]);
    SameElements(t, best + [x]);
    var kept, y := t[..|best|], t[|best|];
    assert t == kept + [y];
    assert multiset(kept) + multiset{y} == multiset(t) == multiset(best) + multiset{x};
    Exchange(best, rest, all, x, y, kept);
    assert key(y) <= key(best[last]) by {
      DroppedIsLargest(key, best, x, y);
    }
    forall i, j | 0 <= i < |kept| && 0 <= j < |rest + [y]| ensures key(kept[i]) <= key((rest + [y])[j]) {
      assert key(kept[i]) <= key(y);
      if j < |rest| { assert key(best[last]) <= key(rest[j]); }
    }
    assert Splits(key, kept, rest + [y], all + [x]);
  }

  /** The first kept entry is a minimum of everything seen. */
  lemma FirstIsMinimum<T(!new)>(key: T -> nat, best: seq<T>, all: seq<T>, x: T)
    requires Smallest(key, best, all) && best != [] && x in all
    ensures key(best[0]) <= key(x)
  {
    var rest: seq<T> :| Splits(key, best, rest, all);
    assert x in multiset(all);
    assert x in best || x in rest;
  }

  /** Whatever is kept was seen. */
  lemma KeptWasSeen<T(!new)>(key: T -> nat, best: seq<T>, all: seq<T>, i: nat) returns (p: nat)
    requires Smallest(key, best, all) && i < |best|
    ensures p < |all| && all[p] == best[i]
  {
    var rest: seq<T> :| Splits(key, best, rest, all);
    assert best[i] in multiset(all);
    p :| 0 <= p < |all| && all[p] == best[i];
  }

  /** A shorter prefix of what is kept still holds smallest entries. */
  lemma SmallestPrefix<T(!new)>(key: T -> nat, best: seq<T>, all: seq<T>, k: nat)
    requires Smallest(key, best, all) && k <= |best|
    ensures Smallest(key, best[..k], all)
  {
    var rest: seq<T> :| Splits(key, best, rest, all);
    var rest' := best[k..] + rest;
    assert best == best[..k] + best[k..];
    assert multiset(best[..k]) + multiset(rest') == multiset(best) + multiset(rest);
    assert Splits(key, best[..k], rest', all);
  }

  /** If at least as many entries as are kept share the smallest key, everything kept has it. */
  lemma EnoughTies<T(!new)>(key: T -> nat, best: seq<T>, all: seq<T>, ties: set<T>, m: nat)
    requires Smallest(key, best, all) && best != [] && |ties| >= |best|
    requires forall x | x in ties :: x in all && key(x) == m
    requires forall x | x in all :: m <= key(x)
    ensures forall i | 0 <= i < |best| :: key(best[i]) == m
  {
    var last := |best| - 1;
    var rest: seq<T> :| Splits(key, best, rest, all);
    forall x | x in best ensures m <= key(x) {
      assert x in multiset(all);
    }
    if key(best[last]) != m {
      var kept := set x | x in best;
      var others := kept - {best[last]};
      forall x | x in ties ensures x in others {
        assert x in multiset(all);
        assert x in best || x in rest;
      }
      SubsetSize(ties, others);
      ElementsAtMost(best);
    }
  }
}
