/** Tables of rows indexed by column, as Gaussian elimination keeps them: `sel[c]` says that
    column c owns a row and `rows[c]` is that row. Pure facts; the loops are in CodeSpaces. */
module Elimination {
  import opened FiniteSets
  import opened Gf2

  ghost predicate Shaped(n: nat, sel: seq<bool>, rows: seq<Vec>) {
    |sel| == |rows| == n && Uniform(n, rows)
  }

  /** The rows owned by columns c, c+1, ..., in column order. */
  ghost function Selected(n: nat, sel: seq<bool>, rows: seq<Vec>, c: nat): (list: seq<Vec>)
    requires Shaped(n, sel, rows) && c <= n
    ensures Uniform(n, list)
    decreases n - c
  {
    if c == n then [] else (if sel[c] then [rows[c]] else []) + Selected(n, sel, rows, c + 1)
  }

  function Complement(sel: seq<bool>): (r: seq<bool>)
    ensures |r| == |sel|
  {
    seq(|sel|, i requires 0 <= i < |sel| => !sel[i])
  }

  /** Each owned row starts at its own column. */
  ghost predicate Echelon(n: nat, sel: seq<bool>, rows: seq<Vec>) {
    && Shaped(n, sel, rows)
    && (forall c | 0 <= c < n && sel[c] :: rows[c][c])
    && (forall c, k | 0 <= k < c < n && sel[c] :: !rows[c][k])
  }

  /** Each owning column is set in its own row and in no other owned row. */
  ghost predicate Private(n: nat, sel: seq<bool>, rows: seq<Vec>) {
    && Shaped(n, sel, rows)
    && (forall c, d | 0 <= c < n && 0 <= d < n && sel[c] && sel[d] :: rows[d][c] == (c == d))
  }

  /** Reduced row echelon form. */
  ghost predicate Reduced(n: nat, sel: seq<bool>, rows: seq<Vec>) {
    Echelon(n, sel, rows) && Private(n, sel, rows)
  }

  // ---------------------------------------------------------------- owned rows as a list

  lemma {:induction false} SelectedHas(n: nat, sel: seq<bool>, rows: seq<Vec>, c: nat, d: nat)
    requires Shaped(n, sel, rows) && c <= d < n && sel[d]
    ensures rows[d] in Selected(n, sel, rows, c)
    decreases n - c
  {
    if c < d { SelectedHas(n, sel, rows, c + 1, d); }
  }

  lemma {:induction false} SelectedOnly(n: nat, sel: seq<bool>, rows: seq<Vec>, c: nat, x: Vec) returns (d: nat)
    requires Shaped(n, sel, rows) && c <= n && x in Selected(n, sel, rows, c)
    ensures c <= d < n && sel[d] && rows[d] == x
    decreases n - c
  {
    if sel[c] && rows[c] == x {
      d := c;
    } else {
      d := SelectedOnly(n, sel, rows, c + 1, x);
    }
  }

  lemma OwnedInSpan(n: nat, sel: seq<bool>, rows: seq<Vec>, d: nat)
    requires Shaped(n, sel, rows) && d < n && sel[d]
    ensures rows[d] in Span(n, Selected(n, sel, rows, 0))
  {
    var list := Selected(n, sel, rows, 0);
    SelectedHas(n, sel, rows, 0, d);
    var i :| 0 <= i < |list| && list[i] == rows[d];
    SpanHasRow(n, list, i);
  }

  lemma OwnedSpanWithin(n: nat, sel: seq<bool>, rows: seq<Vec>, other: seq<Vec>)
    requires Shaped(n, sel, rows) && Uniform(n, other)
    requires forall d | 0 <= d < n && sel[d] :: rows[d] in Span(n, other)
    ensures Span(n, Selected(n, sel, rows, 0)) <= Span(n, other)
  {
    var list := Selected(n, sel, rows, 0);
    forall i | 0 <= i < |list| ensures list[i] in Span(n, other) {
      var d := SelectedOnly(n, sel, rows, 0, list[i]);
    }
    SpanLeast(n, list, other);
  }

  lemma OwnedOrthogonal(n: nat, sel: seq<bool>, rows: seq<Vec>, h: Vec, w: Vec)
    requires Shaped(n, sel, rows) && |h| == n && w in Span(n, Selected(n, sel, rows, 0))
    requires forall d | 0 <= d < n && sel[d] :: !Dot(rows[d], h)
    ensures !Dot(w, h)
  {
    var list := Selected(n, sel, rows, 0);
    forall i | 0 <= i < |list| ensures !Dot(list[i], h) {
      var d := SelectedOnly(n, sel, rows, 0, list[i]);
    }
    SpanOrthogonal(n, list, h, w);
  }

  lemma {:induction false} CountSelected(n: nat, sel: seq<bool>, rows: seq<Vec>, c: nat)
    requires Shaped(n, sel, rows) && c <= n
    ensures |Selected(n, sel, rows, c)| + Weight(sel[..c]) == Weight(sel)
    decreases n - c
  {
    if c == n {
      assert sel[..n] == sel;
    } else {
      CountSelected(n, sel, rows, c + 1);
      assert sel[..c + 1][..c] == sel[..c];
    }
  }

  lemma {:induction false} CountComplement(sel: seq<bool>)
    ensures Weight(sel) + Weight(Complement(sel)) == |sel|
  {
    if sel != [] {
      CountComplement(sel[..|sel| - 1]);
      assert Complement(sel)[..|sel| - 1] == Complement(sel[..|sel| - 1]);
    }
  }

  // ---------------------------------------------------------------- independence

  lemma {:induction false} SpanColumnClear(n: nat, list: seq<Vec>, c: nat, x: Vec)
    requires Uniform(n, list) && c < n && x in Span(n, list)
    requires forall i | 0 <= i < |list| :: !list[i][c]
    ensures !x[c]
  {
    if list != [] {
      if x in Span(n, list[1..]) {
        SpanColumnClear(n, list[1..], c, x);
      } else {
        var y :| y in Span(n, list[1..]) && x == Xor(list[0], y);
        SpanColumnClear(n, list[1..], c, y);
      }
    }
  }

  lemma LaterColumnClear(n: nat, sel: seq<bool>, rows: seq<Vec>, from: nat, c: nat, x: Vec)
    requires Shaped(n, sel, rows) && from <= n && c < n
    requires forall d | from <= d < n && sel[d] :: !rows[d][c]
    requires x in Span(n, Selected(n, sel, rows, from))
    ensures !x[c]
  {
    var list := Selected(n, sel, rows, from);
    forall i | 0 <= i < |list| ensures !list[i][c] {
      var d := SelectedOnly(n, sel, rows, from, list[i]);
    }
    SpanColumnClear(n, list, c, x);
  }

  /** Owned rows whose own column is clear in every later owned row are independent:
      k of them have exactly 2^k distinct XORs. */
  lemma {:induction false} IndependentSize(n: nat, sel: seq<bool>, rows: seq<Vec>, c: nat)
    requires Shaped(n, sel, rows) && c <= n
    requires forall e | 0 <= e < n && sel[e] :: rows[e][e]
    requires forall e, d | 0 <= e < d < n && sel[e] && sel[d] :: !rows[d][e]
    ensures |Span(n, Selected(n, sel, rows, c))| == Pow2(|Selected(n, sel, rows, c)|)
    decreases n - c
  {
    if c < n {
      IndependentSize(n, sel, rows, c + 1);
      var rest := Selected(n, sel, rows, c + 1);
      if sel[c] {
        if rows[c] in Span(n, rest) {
          LaterColumnClear(n, sel, rows, c + 1, c, rows[c]);
        }
        SpanGrows(n, rows[c], rest);
      } else {
        assert Selected(n, sel, rows, c) == rest;
      }
    }
  }

  /** The leading column of every XOR of echelon rows owns a row. */
  lemma {:induction false} LeadingColumnOwned(n: nat, sel: seq<bool>, rows: seq<Vec>, c: nat, x: Vec, k: nat)
    requires Echelon(n, sel, rows) && c <= n && k < n
    requires x in Span(n, Selected(n, sel, rows, c))
    requires x[k] && forall j | 0 <= j < k :: !x[j]
    ensures sel[k]
    decreases n - c
  {
    if c < n {
      var rest := Selected(n, sel, rows, c + 1);
      if x in Span(n, rest) {
        assert Selected(n, sel, rows, c) == (if sel[c] then [rows[c]] else []) + rest;
        LeadingColumnOwned(n, sel, rows, c + 1, x, k);
      } else {
        var list := Selected(n, sel, rows, c);
        assert !sel[c] ==> list == rest;
        assert list[0] == rows[c] && list[1..] == rest;
        var y :| y in Span(n, rest) && x == Xor(rows[c], y);
        forall j | 0 <= j <= c ensures !y[j] {
          LaterColumnClear(n, sel, rows, c + 1, j, y);
        }
        assert x[c];
        assert k == c;
      }
    }
  }

  lemma LeadingColumn(n: nat, x: Vec, from: nat) returns (k: nat)
    requires from <= |x| == n && x != Zero(n) && forall j | 0 <= j < from :: !x[j]
    ensures k < n && x[k] && forall j | 0 <= j < k :: !x[j]
    decreases n - from
  {
    var z := Zero(n);
    assert (forall j | 0 <= j < n :: x[j] == z[j]) ==> x == z;
    if x[from] { k := from; } else { k := LeadingColumn(n, x, from + 1); }
  }

  /** An XOR of echelon rows that is clear in every owning column is zero. */
  lemma ClearAtOwnersIsZero(n: nat, sel: seq<bool>, rows: seq<Vec>, x: Vec)
    requires Echelon(n, sel, rows) && x in Span(n, Selected(n, sel, rows, 0))
    requires forall k | 0 <= k < n && sel[k] :: !x[k]
    ensures x == Zero(n)
  {
    if x != Zero(n) {
      var k := LeadingColumn(n, x, 0);
      LeadingColumnOwned(n, sel, rows, 0, x, k);
    }
  }

  // ---------------------------------------------------------------- elimination steps

  /** Storing a residual at its leading column adds the reduced word to the span. */
  lemma AddPivot(n: nat, sel: seq<bool>, rows: seq<Vec>, v0: Vec, v: Vec, c: nat)
    requires Echelon(n, sel, rows) && |v0| == |v| == n && c < n
    requires v[c] && (forall j | 0 <= j < c :: !v[j]) && !sel[c]
    requires Xor(v0, v) in Span(n, Selected(n, sel, rows, 0))
    ensures Echelon(n, sel[c := true], rows[c := v])
    ensures Uniform(n, [v0] + Selected(n, sel, rows, 0))
    ensures Span(n, Selected(n, sel[c := true], rows[c := v], 0)) == Span(n, [v0] + Selected(n, sel, rows, 0))
    ensures v0 !in Span(n, Selected(n, sel, rows, 0))
  {
    var list := Selected(n, sel, rows, 0);
    var sel', rows' := sel[c := true], rows[c := v];
    var list' := Selected(n, sel', rows', 0);
    var s := Xor(v0, v);
    var more := [v0] + list;
    if v0 in Span(n, list) {
      SpanXor(n, list, v0, s);
      XorCancel(v0, v);
      LeadingColumnOwned(n, sel, rows, 0, v, c);
    }
    assert more[1..] == list;
    assert Span(n, list) <= Span(n, more);
    SpanHasRow(n, more, 0);
    SpanXor(n, more, v0, s);
    XorCancel(v0, v);
    forall d | 0 <= d < n && sel'[d] ensures rows'[d] in Span(n, more) {
      if d != c { OwnedInSpan(n, sel, rows, d); }
    }
    OwnedSpanWithin(n, sel', rows', more);
    forall d | 0 <= d < n && sel[d] ensures rows[d] in Span(n, list') {
      assert rows'[d] == rows[d];
      OwnedInSpan(n, sel', rows', d);
    }
    OwnedSpanWithin(n, sel, rows, list');
    OwnedInSpan(n, sel', rows', c);
    SpanXor(n, list', s, v);
    forall i | 0 <= i < |more| ensures more[i] in Span(n, list') {
      if i == 0 {
      } else {
        assert more[i] == list[i - 1];
        SpanHasRow(n, list, i - 1);
      }
    }
    SpanLeast(n, more, list');
  }

  /** Adding a later owned row to an earlier one keeps the form and the span. */
  lemma AddRow(n: nat, sel: seq<bool>, rows: seq<Vec>, e: nat, c: nat)
    requires Echelon(n, sel, rows) && e < c < n && sel[e] && sel[c]
    ensures Echelon(n, sel, rows[e := Xor(rows[e], rows[c])])
    ensures Span(n, Selected(n, sel, rows[e := Xor(rows[e], rows[c])], 0)) == Span(n, Selected(n, sel, rows, 0))
  {
    var rows' := rows[e := Xor(rows[e], rows[c])];
    var list, list' := Selected(n, sel, rows, 0), Selected(n, sel, rows', 0);
    forall d | 0 <= d < n && sel[d] ensures rows'[d] in Span(n, list) {
      OwnedInSpan(n, sel, rows, d);
      OwnedInSpan(n, sel, rows, c);
      SpanXor(n, list, rows[d], rows[c]);
    }
    OwnedSpanWithin(n, sel, rows', list);
    forall d | 0 <= d < n && sel[d] ensures rows[d] in Span(n, list') {
      OwnedInSpan(n, sel, rows', d);
      OwnedInSpan(n, sel, rows', c);
      SpanXor(n, list', rows'[d], rows'[c]);
      XorCancel(rows[e], rows[c]);
    }
    OwnedSpanWithin(n, sel, rows, list');
  }

  // ---------------------------------------------------------------- duality

  /** v with every owning column from c on cleared by adding that column's row. */
  ghost function Residual(n: nat, sel: seq<bool>, rows: seq<Vec>, v: Vec, c: nat): (r: Vec)
    requires Shaped(n, sel, rows) && |v| == n && c <= n
    ensures |r| == n
    decreases n - c
  {
    if c == n then v
    else Residual(n, sel, rows, if sel[c] && v[c] then Xor(v, rows[c]) else v, c + 1)
  }

  lemma {:induction false} ResidualClears(n: nat, sel: seq<bool>, rows: seq<Vec>, v: Vec, c: nat)
    requires Private(n, sel, rows) && |v| == n && c <= n
    requires forall k | 0 <= k < c && sel[k] :: !v[k]
    ensures forall k | 0 <= k < n && sel[k] :: !Residual(n, sel, rows, v, c)[k]
    ensures Xor(v, Residual(n, sel, rows, v, c)) in Span(n, Selected(n, sel, rows, 0))
    decreases n - c
  {
    if c == n {
      XorZero(v);
    } else {
      var v' := if sel[c] && v[c] then Xor(v, rows[c]) else v;
      ResidualClears(n, sel, rows, v', c + 1);
      if sel[c] && v[c] {
        var r := Residual(n, sel, rows, v, c);
        OwnedInSpan(n, sel, rows, c);
        SpanXor(n, Selected(n, sel, rows, 0), rows[c], Xor(v', r));
        assert Xor(rows[c], Xor(v', r)) == Xor(v, r);
      }
    }
  }

  /** Two tables that own complementary columns and are orthogonal to each other. */
  ghost predicate DualPair(n: nat, sel: seq<bool>, a: seq<Vec>, b: seq<Vec>) {
    && Private(n, sel, a)
    && Private(n, Complement(sel), b)
    && forall c, f | 0 <= c < n && 0 <= f < n && sel[c] && !sel[f] :: !Dot(a[c], b[f])
  }

  /** In a dual pair each table spans exactly the words orthogonal to the other. */
  lemma OrthogonalIsSpan(n: nat, sel: seq<bool>, a: seq<Vec>, b: seq<Vec>, w: Vec)
    requires DualPair(n, sel, a, b) && |w| == n
    requires forall f | 0 <= f < n && !sel[f] :: !Dot(w, b[f])
    ensures w in Span(n, Selected(n, sel, a, 0))
  {
    var list := Selected(n, sel, a, 0);
    var r := Residual(n, sel, a, w, 0);
    ResidualClears(n, sel, a, w, 0);
    forall f | 0 <= f < n ensures !r[f] {
      if !sel[f] {
        OwnedOrthogonal(n, sel, a, b[f], Xor(w, r));
        DotXor(b[f], w, r);
        forall i | 0 <= i < n && i != f ensures !(r[i] && b[f][i]) {
          if !sel[i] { assert Complement(sel)[i] && Complement(sel)[f]; }
        }
        ParityMeetsOnce(r, b[f], f, n);
        assert b[f][f] by { assert Complement(sel)[f]; }
      }
    }
    assert r == Zero(n);
    XorZero(w);
  }

  lemma DualPairSwap(n: nat, sel: seq<bool>, a: seq<Vec>, b: seq<Vec>)
    requires DualPair(n, sel, a, b)
    ensures DualPair(n, Complement(sel), b, a)
  {
    var free := Complement(sel);
    assert Complement(free) == sel;
    forall c, f | 0 <= c < n && 0 <= f < n && free[c] && !free[f] ensures !Dot(b[c], a[f]) {
      ParitySymmetric(a[f], b[c], n);
    }
  }

  /** No list of n-bit words has a rank above n. */
  lemma RankAtMostLength(n: nat, words: seq<Vec>)
    requires Uniform(n, words)
    ensures Rank(n, words) <= n
  {
    var all := Complement(Zero(n));
    var units: seq<Vec> := seq(n, c requires 0 <= c < n => Zero(n)[c := true]);
    var list := Selected(n, all, units, 0);
    assert Private(n, all, units);
    forall w | w in Span(n, words) ensures w in Span(n, list) {
      ResidualClears(n, all, units, w, 0);
      var r := Residual(n, all, units, w, 0);
      assert r == Zero(n);
      XorZero(w);
    }
    SubsetSize(Span(n, words), Span(n, list));
    IndependentSize(n, all, units, 0);
    CountSelected(n, all, units, 0);
    CountComplement(Zero(n));
    WeightZero(n);
    RankSize(n, words);
    Pow2Monotone(Rank(n, words), n);
  }

  // ---------------------------------------------------------------- uniqueness

  /** Reduced row echelon form is determined by the span alone. */
  lemma ReducedUnique(n: nat, sel: seq<bool>, rows: seq<Vec>, sel': seq<bool>, rows': seq<Vec>)
    requires Reduced(n, sel, rows) && Reduced(n, sel', rows')
    requires Span(n, Selected(n, sel, rows, 0)) == Span(n, Selected(n, sel', rows', 0))
    ensures sel == sel'
    ensures forall c | 0 <= c < n && sel[c] :: rows[c] == rows'[c]
  {
    forall c | 0 <= c < n ensures sel[c] == sel'[c] {
      if sel[c] {
        OwnedInSpan(n, sel, rows, c);
        LeadingColumnOwned(n, sel', rows', 0, rows[c], c);
      }
      if sel'[c] {
        OwnedInSpan(n, sel', rows', c);
        LeadingColumnOwned(n, sel, rows, 0, rows'[c], c);
      }
    }
    forall c | 0 <= c < n && sel[c] ensures rows[c] == rows'[c] {
      OwnedInSpan(n, sel, rows, c);
      OwnedInSpan(n, sel', rows', c);
      SpanXor(n, Selected(n, sel, rows, 0), rows[c], rows'[c]);
      ClearAtOwnersIsZero(n, sel, rows, Xor(rows[c], rows'[c]));
      XorCancel(rows[c], rows'[c]);
      XorZero(rows[c]);
    }
  }
}
