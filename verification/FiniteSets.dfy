/** Counting in finite sets. */
module FiniteSets {

  lemma {:induction false} SubsetSize<T>(a: set<T>, b: set<T>)
    requires a <= b
    ensures |a| <= |b|
  {
    if a != {} {
      var x :| x in a;
      SubsetSize(a - {x}, b - {x});
    }
  }

  /** A set inside another of the same size is that set. */
  lemma SubsetSameSize<T>(a: set<T>, b: set<T>)
    requires a <= b && |a| == |b|
    ensures a == b
  {
    if x :| x in b && x !in a {
      assert a <= b - {x};
      SubsetSize(a, b - {x});
    }
  }

  lemma {:induction false} ElementsAtMost<T>(s: seq<T>)
    ensures |set x | x in s| <= |s|
  {
    if s != [] {
      var last := |s| - 1;
      ElementsAtMost(s[..last]);
      assert s == s[..last] + [s[last]];
      assert (set x | x in s) == (set x | x in s[..last]) + {s[last]};
    }
  }

  /** A list without repeats has as many elements as places. */
  lemma {:induction false} ElementsExactly<T>(s: seq<T>)
    requires forall i, j | 0 <= i < j < |s| :: s[i] != s[j]
    ensures |set x | x in s| == |s|
  {
    if s != [] {
      var last := |s| - 1;
      ElementsExactly(s[..last]);
      assert s == s[..last] + [s[last]];
      assert (set x | x in s) == (set x | x in s[..last]) + {s[last]};
    }
  }
}
