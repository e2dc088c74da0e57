/** Bit vectors over GF(2), the sets of words their XORs generate, and the counting
    argument that turns "rank" into "number of distinct XORs". */
module Gf2 {
  import opened FiniteSets

  type Vec = seq<bool>

  /** The width of a word in the program. The elimination holds for words of every width. */
  const BITS := 174

  function Zero(n: nat): Vec {
    seq(n, _ => false)
  }

  function Xor(a: Vec, b: Vec): (r: Vec)
    requires |a| == |b|
    ensures |r| == |a|
  {
    seq(|a|, i requires 0 <= i < |a| => a[i] != b[i])
  }

  /** Parity of the first k positions where both words are set. */
  predicate Parity(a: Vec, b: Vec, k: nat)
    requires k <= |a| == |b|
  {
    if k == 0 then false else Parity(a, b, k - 1) != (a[k - 1] && b[k - 1])
  }

  predicate Dot(a: Vec, b: Vec)
    requires |a| == |b|
  {
    Parity(a, b, |a|)
  }

  /** The product of two words, as the parity of the positions where both are set. */
  method ComputeDot(a: Vec, b: Vec) returns (parity: bool)
    requires |a| == |b|
    ensures parity == Dot(a, b)
  {
    parity := false;
    for i := 0 to |a|
      invariant parity == Parity(a, b, i)
    {
      if a[i] && b[i] { parity := !parity; }
    }
  }

  /** The number of set bits. */
  function Weight(v: Vec): nat {
    if v == [] then 0 else Weight(v[..|v| - 1]) + if v[|v| - 1] then 1 else 0
  }

  function Pow2(k: nat): (p: nat)
    ensures p >= 1
  {
    if k == 0 then 1 else 2 * Pow2(k - 1)
  }

  // ---------------------------------------------------------------- words

  lemma XorZero(a: Vec)
    ensures Xor(a, Zero(|a|)) == a
    ensures Xor(Zero(|a|), a) == a
    ensures Xor(a, a) == Zero(|a|)
  {
  }

  lemma XorCancel(a: Vec, b: Vec)
    requires |a| == |b|
    ensures Xor(a, Xor(a, b)) == b
    ensures Xor(Xor(a, b), b) == a
    ensures Xor(a, b) == Xor(b, a)
  {
    assert Xor(a, Xor(a, b)) == b;
    assert Xor(Xor(a, b), b) == a;
    assert Xor(a, b) == Xor(b, a);
  }

  lemma XorAssoc(a: Vec, b: Vec, c: Vec)
    requires |a| == |b| == |c|
    ensures Xor(Xor(a, b), c) == Xor(a, Xor(b, c))
  {
    assert Xor(Xor(a, b), c) == Xor(a, Xor(b, c));
  }

  lemma {:induction false} ParityXor(a: Vec, b: Vec, c: Vec, k: nat)
    requires k <= |a| == |b| == |c|
    ensures Parity(a, Xor(b, c), k) == (Parity(a, b, k) != Parity(a, c, k))
  {
    if k > 0 { ParityXor(a, b, c, k - 1); }
  }

  lemma {:induction false} ParitySymmetric(a: Vec, b: Vec, k: nat)
    requires k <= |a| == |b|
    ensures Parity(a, b, k) == Parity(b, a, k)
  {
    if k > 0 { ParitySymmetric(a, b, k - 1); }
  }

  lemma DotXor(a: Vec, b: Vec, c: Vec)
    requires |a| == |b| == |c|
    ensures Dot(a, Xor(b, c)) == (Dot(a, b) != Dot(a, c))
    ensures Dot(Xor(b, c), a) == (Dot(b, a) != Dot(c, a))
  {
    ParityXor(a, b, c, |a|);
    ParitySymmetric(a, b, |a|);
    ParitySymmetric(a, c, |a|);
    ParitySymmetric(a, Xor(b, c), |a|);
  }

  /** When two words meet in at most the one position f, their product is the bit there. */
  lemma {:induction false} ParityMeetsOnce(a: Vec, b: Vec, f: nat, k: nat)
    requires k <= |a| == |b| && f < |a|
    requires forall i | 0 <= i < |a| && i != f :: !(a[i] && b[i])
    ensures Parity(a, b, k) == (f < k && a[f] && b[f])
  {
    if k > 0 { ParityMeetsOnce(a, b, f, k - 1); }
  }

  /** Setting one clear bit of b flips the product by the bit of a there. */
  lemma {:induction false} ParitySetBit(a: Vec, b: Vec, i: nat, k: nat)
    requires k <= |a| == |b| && i < |b| && !b[i]
    ensures Parity(a, b[i := true], k) == (Parity(a, b, k) != (i < k && a[i]))
  {
    if k > 0 { ParitySetBit(a, b, i, k - 1); }
  }

  lemma {:induction false} ParityZero(a: Vec, k: nat)
    requires k <= |a|
    ensures !Parity(a, Zero(|a|), k)
  {
    if k > 0 { ParityZero(a, k - 1); }
  }

  lemma {:induction false} WeightSetBit(v: Vec, i: nat)
    requires i < |v| && !v[i]
    ensures Weight(v[i := true]) == Weight(v) + 1
  {
    var last := |v| - 1;
    if i == last {
      assert v[i := true][..last] == v[..last];
    } else {
      WeightSetBit(v[..last], i);
      assert v[i := true][..last] == v[..last][i := true];
    }
  }

  lemma {:induction false} WeightZero(n: nat)
    ensures Weight(Zero(n)) == 0
  {
    if n > 0 {
      assert Zero(n)[..n - 1] == Zero(n - 1);
      WeightZero(n - 1);
    }
  }

  // ---------------------------------------------------------------- spans

  ghost predicate Uniform(n: nat, rows: seq<Vec>) {
    forall i | 0 <= i < |rows| :: |rows[i]| == n
  }

  /** Every XOR of a selection of the rows, the empty selection included. */
  ghost function Span(n: nat, rows: seq<Vec>): (s: set<Vec>)
    requires Uniform(n, rows)
    ensures forall x | x in s :: |x| == n
    ensures Zero(n) in s
  {
    if rows == [] then {Zero(n)} else
      var s := Span(n, rows[1..]);
      s + (set x | x in s :: Xor(rows[0], x))
  }

  /** The XOR of the rows picked out by `pick`. */
  ghost function Combination(n: nat, rows: seq<Vec>, pick: seq<bool>): (v: Vec)
    requires Uniform(n, rows) && |pick| == |rows|
    ensures |v| == n
  {
    if rows == [] then Zero(n) else
      var rest := Combination(n, rows[1..], pick[1..]);
      if pick[0] then Xor(rows[0], rest) else rest
  }

  /** The reading of "w is an XOR of input words": some selection of the rows adds up to w. */
  lemma {:induction false} SpanIsCombinations(n: nat, rows: seq<Vec>, w: Vec)
    requires Uniform(n, rows)
    ensures w in Span(n, rows) <==> exists pick: seq<bool> :: |pick| == |rows| && Combination(n, rows, pick) == w
  {
    if rows == [] {
      if w == Zero(n) {
        assert Combination(n, rows, []) == w;
      }
    } else {
      var s := Span(n, rows[1..]);
      if w in Span(n, rows) {
        if w in s {
          SpanIsCombinations(n, rows[1..], w);
          var pick: seq<bool> :| |pick| == |rows| - 1 && Combination(n, rows[1..], pick) == w;
          assert ([false] + pick)[1..] == pick;
          assert Combination(n, rows, [false] + pick) == w;
        } else {
          var x :| x in s && w == Xor(rows[0], x);
          SpanIsCombinations(n, rows[1..], x);
          var pick: seq<bool> :| |pick| == |rows| - 1 && Combination(n, rows[1..], pick) == x;
          assert ([true] + pick)[1..] == pick;
          assert Combination(n, rows, [true] + pick) == w;
        }
      }
      if pick: seq<bool> :| |pick| == |rows| && Combination(n, rows, pick) == w {
        SpanIsCombinations(n, rows[1..], Combination(n, rows[1..], pick[1..]));
      }
    }
  }

  lemma {:induction false} SpanXor(n: nat, rows: seq<Vec>, x: Vec, y: Vec)
    requires Uniform(n, rows) && x in Span(n, rows) && y in Span(n, rows)
    ensures Xor(x, y) in Span(n, rows)
  {
    if rows == [] {
      XorZero(x);
    } else {
      var s := Span(n, rows[1..]);
      var r := rows[0];
      var x' := if x in s then x else Xor(r, x);
      var y' := if y in s then y else Xor(r, y);
      if x !in s { var t :| t in s && x == Xor(r, t); XorCancel(r, t); }
      if y !in s { var t :| t in s && y == Xor(r, t); XorCancel(r, t); }
      SpanXor(n, rows[1..], x', y');
      assert Xor(x, y) == Xor(x', y') || Xor(x, y) == Xor(r, Xor(x', y')) by {
        if x in s && y !in s { assert Xor(x, y) == Xor(r, Xor(x', y')); }
        if x !in s && y in s { assert Xor(x, y) == Xor(r, Xor(x', y')); }
        if x !in s && y !in s { assert Xor(x, y) == Xor(x', y'); }
      }
    }
  }

  lemma {:induction false} SpanHasRow(n: nat, rows: seq<Vec>, i: nat)
    requires Uniform(n, rows) && i < |rows|
    ensures rows[i] in Span(n, rows)
  {
    var s := Span(n, rows[1..]);
    if i == 0 {
      XorZero(rows[0]);
      assert Zero(n) in s;
      assert Xor(rows[0], Zero(n)) == rows[0];
    } else {
      SpanHasRow(n, rows[1..], i - 1);
    }
  }

  /** A span lies in every XOR-closed set that has zero and the rows. */
  lemma {:induction false} SpanLeast(n: nat, rows: seq<Vec>, other: seq<Vec>)
    requires Uniform(n, rows) && Uniform(n, other)
    requires forall i | 0 <= i < |rows| :: rows[i] in Span(n, other)
    ensures Span(n, rows) <= Span(n, other)
  {
    if rows != [] {
      SpanLeast(n, rows[1..], other);
      forall w | w in Span(n, rows)
        ensures w in Span(n, other)
      {
        if w !in Span(n, rows[1..]) {
          var x :| x in Span(n, rows[1..]) && w == Xor(rows[0], x);
          SpanXor(n, other, rows[0], x);
        }
      }
    }
  }

  lemma SpanEqual(n: nat, a: seq<Vec>, b: seq<Vec>)
    requires Uniform(n, a) && Uniform(n, b)
    requires forall i | 0 <= i < |a| :: a[i] in Span(n, b)
    requires forall i | 0 <= i < |b| :: b[i] in Span(n, a)
    ensures Span(n, a) == Span(n, b)
  {
    SpanLeast(n, a, b);
    SpanLeast(n, b, a);
  }

  /** A span only depends on which rows there are, not on their order or number of copies. */
  lemma SpanOfSameRows(n: nat, a: seq<Vec>, b: seq<Vec>)
    requires Uniform(n, a) && Uniform(n, b)
    requires forall x :: x in a <==> x in b
    ensures Span(n, a) == Span(n, b)
  {
    forall i | 0 <= i < |a| ensures a[i] in Span(n, b) {
      assert a[i] in b;
      var j :| 0 <= j < |b| && b[j] == a[i];
      SpanHasRow(n, b, j);
    }
    forall i | 0 <= i < |b| ensures b[i] in Span(n, a) {
      assert b[i] in a;
      var j :| 0 <= j < |a| && a[j] == b[i];
      SpanHasRow(n, a, j);
    }
    SpanEqual(n, a, b);
  }

  /** Words orthogonal to every row are orthogonal to every XOR of rows. */
  lemma {:induction false} SpanOrthogonal(n: nat, rows: seq<Vec>, h: Vec, w: Vec)
    requires Uniform(n, rows) && |h| == n && w in Span(n, rows)
    requires forall i | 0 <= i < |rows| :: !Dot(rows[i], h)
    ensures !Dot(w, h)
  {
    if rows == [] {
      ParityZero(h, n);
      ParitySymmetric(Zero(n), h, n);
    } else if w in Span(n, rows[1..]) {
      SpanOrthogonal(n, rows[1..], h, w);
    } else {
      var x :| x in Span(n, rows[1..]) && w == Xor(rows[0], x);
      SpanOrthogonal(n, rows[1..], h, x);
      DotXor(h, rows[0], x);
    }
  }

  // ---------------------------------------------------------------- counting

  lemma {:induction false} ShiftedSize(s: set<Vec>, r: Vec)
    requires forall x | x in s :: |x| == |r|
    ensures |set x | x in s :: Xor(r, x)| == |s|
  {
    var image := set x | x in s :: Xor(r, x);
    if s == {} {
      assert image == {};
    } else {
      var x :| x in s;
      var s' := s - {x};
      var image' := set y | y in s' :: Xor(r, y);
      ShiftedSize(s', r);
      assert Xor(r, x) !in image' by {
        if Xor(r, x) in image' {
          var y :| y in s' && Xor(r, y) == Xor(r, x);
          XorCancel(r, x);
          XorCancel(r, y);
        }
      }
      assert image == image' + {Xor(r, x)};
    }
  }

  /** Adding a row outside the span doubles it; adding one inside changes nothing. */
  lemma SpanGrows(n: nat, r: Vec, rows: seq<Vec>)
    requires Uniform(n, rows) && |r| == n
    ensures Uniform(n, [r] + rows)
    ensures r in Span(n, rows) ==> Span(n, [r] + rows) == Span(n, rows)
    ensures r !in Span(n, rows) ==> |Span(n, [r] + rows)| == 2 * |Span(n, rows)|
  {
    var all := [r] + rows;
    var s := Span(n, rows);
    var shifted := set x | x in s :: Xor(r, x);
    assert all[1..] == rows && all[0] == r;
    assert Span(n, all) == s + shifted;
    if r in s {
      forall w | w in shifted ensures w in s {
        var x :| x in s && w == Xor(r, x);
        SpanXor(n, rows, r, x);
      }
    } else {
      forall w | w in shifted ensures w !in s {
        var x :| x in s && w == Xor(r, x);
        if w in s {
          SpanXor(n, rows, w, x);
          XorCancel(r, x);
        }
      }
      assert s !! shifted;
      ShiftedSize(s, r);
    }
  }

  /** The rank of a list of words: how many of them are not XORs of the ones before. */
  ghost function Rank(n: nat, rows: seq<Vec>): nat
    requires Uniform(n, rows)
  {
    if rows == [] then 0 else
      var init, last := rows[..|rows| - 1], rows[|rows| - 1];
      Rank(n, init) + if last in Span(n, init) then 0 else 1
  }

  lemma NoRows(n: nat)
    ensures Span(n, []) == {Zero(n)} && Rank(n, []) == 0
  {
  }

  lemma SpanOfShorterPrefix(n: nat, words: seq<Vec>, r: nat)
    requires Uniform(n, words) && r < |words|
    ensures Span(n, words[..r]) <= Span(n, words[..r + 1])
  {
    forall i | 0 <= i < r ensures words[..r][i] in Span(n, words[..r + 1]) {
      SpanHasRow(n, words[..r + 1], i);
      assert words[..r + 1][i] == words[i];
    }
    SpanLeast(n, words[..r], words[..r + 1]);
  }

  /** Moving the last row of a prefix to the front of any list with the same span. */
  lemma SpanOfPrefix(n: nat, words: seq<Vec>, r: nat, list: seq<Vec>)
    requires Uniform(n, words) && r < |words| && Uniform(n, list)
    requires Span(n, list) == Span(n, words[..r])
    ensures Uniform(n, [words[r]] + list)
    ensures Span(n, [words[r]] + list) == Span(n, words[..r + 1])
  {
    var a, b := [words[r]] + list, words[..r + 1];
    assert a[1..] == list;
    forall i | 0 <= i < |a| ensures a[i] in Span(n, b) {
      if i == 0 {
        SpanHasRow(n, b, r);
      } else {
        SpanHasRow(n, list, i - 1);
        SpanOfShorterPrefix(n, words, r);
      }
    }
    forall i | 0 <= i < |b| ensures b[i] in Span(n, a) {
      if i == r {
        SpanHasRow(n, a, 0);
      } else {
        assert words[..r][i] == b[i];
        SpanHasRow(n, words[..r], i);
      }
    }
    SpanEqual(n, a, b);
  }

  lemma SpanAppend(n: nat, rows: seq<Vec>)
    requires Uniform(n, rows) && rows != []
    ensures Uniform(n, [rows[|rows| - 1]] + rows[..|rows| - 1])
    ensures Span(n, rows) == Span(n, [rows[|rows| - 1]] + rows[..|rows| - 1])
  {
    hide Span;
    var last := |rows| - 1;
    assert rows[..last + 1] == rows;
    SpanOfPrefix(n, rows, last, rows[..last]);
  }

  lemma SpanSizeStep(n: nat, rows: seq<Vec>)
    requires Uniform(n, rows) && rows != []
    ensures var init, last := rows[..|rows| - 1], rows[|rows| - 1];
      |Span(n, rows)| == if last in Span(n, init) then |Span(n, init)| else 2 * |Span(n, init)|
  {
    hide Span;
    var init, last := rows[..|rows| - 1], rows[|rows| - 1];
    SpanAppend(n, rows);
    SpanGrows(n, last, init);
  }

  /** Rank is the base-2 logarithm of the number of distinct XORs. */
  lemma {:induction false} RankSize(n: nat, rows: seq<Vec>)
    requires Uniform(n, rows)
    ensures |Span(n, rows)| == Pow2(Rank(n, rows))
  {
    if rows == [] {
      NoRows(n);
    } else {
      hide Span, Rank, Pow2;
      var init := rows[..|rows| - 1];
      RankSize(n, init);
      SpanSizeStep(n, rows);
    }
  }

  lemma {:induction false} Pow2Injective(a: nat, b: nat)
    requires Pow2(a) == Pow2(b)
    ensures a == b
  {
    if a > 0 && b > 0 { Pow2Injective(a - 1, b - 1); }
  }

  lemma {:induction false} Pow2Monotone(a: nat, b: nat)
    requires Pow2(a) <= Pow2(b)
    ensures a <= b
  {
    if a > 0 && b > 0 { Pow2Monotone(a - 1, b - 1); }
  }
}
