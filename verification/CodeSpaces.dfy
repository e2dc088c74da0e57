/** The row space of a set of words and its dual, computed by Gaussian elimination over GF(2). */
module CodeSpaces {
  import opened Gf2
  import opened Elimination

  /** What elimination hands back. Columns without a pivot hold the zero word, and so do the
      entries of parityBasis from nullity on. */
  datatype CodeSpace = CodeSpace(
    rank: nat, nullity: nat, pivotRows: seq<Vec>, hasPivot: seq<bool>, parityBasis: seq<Vec>)

  /** The elimination table: rank, pivot rows and pivot flags, updated in place. */
  class PivotTable {
    const n: nat
    var rank: nat
    const rows: array<Vec>
    const has: array<bool>

    ghost predicate Valid()
      reads this, rows, has
    {
      && rows.Length == has.Length == n
      && Echelon(n, has[..], rows[..])
      && rank == Weight(has[..])
      && (forall c | 0 <= c < n && !has[c] :: rows[c] == Zero(n))
    }

    ghost function Basis(): (list: seq<Vec>)
      requires Valid()
      reads this, rows, has
      ensures Uniform(n, list)
    {
      Selected(n, has[..], rows[..], 0)
    }

    ghost function RowSpace(): set<Vec>
      requires Valid()
      reads this, rows, has
    {
      Span(n, Basis())
    }

    constructor (n: nat)
      ensures Valid() && this.n == n && rank == 0 && fresh(rows) && fresh(has)
      ensures RowSpace() == {Zero(n)}
    {
      this.n := n;
      rank := 0;
      rows := new Vec[n](_ => Zero(n));
      has := new bool[n](_ => false);
      new;
      assert has[..] == Zero(n);
      WeightZero(n);
      CountSelected(n, has[..], rows[..], 0);
      assert has[..][..0] == [];
      assert Basis() == [];
    }

    /** One word of forward elimination: the row space grows to take the word in, and the
        rank grows exactly when the word was outside. */
    method Insert(v0: Vec)
      requires Valid() && |v0| == n
      modifies this`rank, rows, has
      ensures Valid()
      ensures Uniform(n, [v0] + old(Basis()))
      ensures RowSpace() == Span(n, [v0] + old(Basis()))
      ensures rank == old(rank) + if v0 in old(RowSpace()) then 0 else 1
    {
      var v := v0;
      XorZero(v0);
      for c := 0 to n
        invariant Valid() && rank == old(rank) && has[..] == old(has[..]) && rows[..] == old(rows[..])
        invariant |v| == n && forall j | 0 <= j < c :: !v[j]
        invariant Xor(v0, v) in RowSpace()
      {
        if !v[c] { continue; }
        if has[c] {
          OwnedInSpan(n, has[..], rows[..], c);
          SpanXor(n, Basis(), Xor(v0, v), rows[c]);
          XorAssoc(v0, v, rows[c]);
          v := Xor(v, rows[c]);
          continue;
        }
        AddPivot(n, has[..], rows[..], v0, v, c);
        WeightSetBit(has[..], c);
        ghost var has0, rows0 := has[..], rows[..];
        has[c] := true;
        rows[c] := v;
        rank := rank + 1;
        assert has[..] == has0[c := true] && rows[..] == rows0[c := v];
        return;
      }
      assert v == Zero(n);
      assert v0 in RowSpace();
      SpanGrows(n, v0, Basis());
    }

    /** Backward elimination: same pivots, same row space, now in reduced form. */
    method BackSubstitute()
      requires Valid()
      modifies rows
      ensures Valid() && Reduced(n, has[..], rows[..])
      ensures RowSpace() == old(RowSpace())
    {
      hide Span, Weight, Selected;
      for c := n downto 0
        invariant Valid() && RowSpace() == old(RowSpace())
        invariant forall e, k | 0 <= e < k < n && c <= k && has[e] && has[k] :: !rows[e][k]
      {
        if !has[c] { continue; }
        for earlier := 0 to c
          invariant Valid() && RowSpace() == old(RowSpace())
          invariant forall e, k | 0 <= e < k < n && c < k && has[e] && has[k] :: !rows[e][k]
          invariant forall e | 0 <= e < earlier && has[e] :: !rows[e][c]
        {
          if has[earlier] && rows[earlier][c] {
            AddRow(n, has[..], rows[..], earlier, c);
            ghost var rows0 := rows[..];
            rows[earlier] := Xor(rows[earlier], rows[c]);
            assert rows[..] == rows0[earlier := Xor(rows0[earlier], rows0[c])];
          }
        }
      }
    }
  }

  /** The parity word of a free column: that column, and every pivot whose row is set there. */
  function ParityWord(n: nat, has: seq<bool>, rows: seq<Vec>, f: nat): (h: Vec)
    requires Shaped(n, has, rows) && f < n
    ensures |h| == n
  {
    seq(n, k requires 0 <= k < n => k == f || (has[k] && rows[k][f]))
  }

  ghost function ParityWords(n: nat, has: seq<bool>, rows: seq<Vec>): (words: seq<Vec>)
    requires Shaped(n, has, rows)
    ensures Shaped(n, Complement(has), words)
  {
    seq(n, f requires 0 <= f < n => ParityWord(n, has, rows, f))
  }

  lemma ParityWordProduct(n: nat, has: seq<bool>, rows: seq<Vec>, f: nat, c: nat)
    requires Reduced(n, has, rows) && f < n && !has[f] && c < n && has[c]
    ensures !Dot(rows[c], ParityWord(n, has, rows, f))
  {
    var h := ParityWord(n, has, rows, f);
    var g := h[c := false];
    forall i | 0 <= i < n && i != f ensures !(rows[c][i] && g[i]) {
    }
    ParityMeetsOnce(rows[c], g, f, n);
    if h[c] {
      ParitySetBit(rows[c], g, c, n);
      assert g[c := true] == h;
    } else {
      assert g == h;
    }
  }

  lemma ReducedDualPair(n: nat, has: seq<bool>, rows: seq<Vec>)
    requires Reduced(n, has, rows)
    ensures DualPair(n, has, rows, ParityWords(n, has, rows))
  {
    forall c, f | 0 <= c < n && 0 <= f < n && has[c] && !has[f]
      ensures !Dot(rows[c], ParityWords(n, has, rows)[f])
    {
      ParityWordProduct(n, has, rows, f, c);
    }
  }

  /** The parity basis as a list: one parity word per free column, in column order. */
  ghost function Checks(n: nat, cs: CodeSpace): (list: seq<Vec>)
    requires Shaped(n, cs.hasPivot, cs.pivotRows)
    ensures Uniform(n, list)
  {
    Selected(n, Complement(cs.hasPivot), ParityWords(n, cs.hasPivot, cs.pivotRows), 0)
  }

  /** Everything `Analyze` promises about its result. */
  ghost predicate Describes(n: nat, words: seq<Vec>, cs: CodeSpace) {
    && Uniform(n, words)
    && Reduced(n, cs.hasPivot, cs.pivotRows)
    && (forall c | 0 <= c < n && !cs.hasPivot[c] :: cs.pivotRows[c] == Zero(n))
    && Span(n, Selected(n, cs.hasPivot, cs.pivotRows, 0)) == Span(n, words)
    && cs.rank == Weight(cs.hasPivot)
    && cs.rank + cs.nullity == n
    && Uniform(n, cs.parityBasis) && |cs.parityBasis| == n
    && cs.parityBasis[..cs.nullity] == Checks(n, cs)
    && forall i | cs.nullity <= i < n :: cs.parityBasis[i] == Zero(n)
  }

  /** The inner loop of the parity basis: one word, grown bit by bit against the pivot rows. */
  method BuildParityWord(n: nat, has: seq<bool>, rows: seq<Vec>, f: nat) returns (h: Vec)
    requires Reduced(n, has, rows) && f < n && !has[f]
    ensures h == ParityWord(n, has, rows, f)
  {
    h := Zero(n)[f := true];
    for c := 0 to n
      invariant |h| == n && h[f]
      invariant forall k | 0 <= k < n && k != f :: h[k] == (k < c && has[k] && rows[k][f])
    {
      if !has[c] { continue; }
      forall i | 0 <= i < n && i != f ensures !(rows[c][i] && h[i]) {
      }
      ParityMeetsOnce(rows[c], h, f, n);
      var d := ComputeDot(rows[c], h);
      if d { h := h[c := true]; }
    }
  }

  lemma SelectedStep(n: nat, sel: seq<bool>, rows: seq<Vec>, f: nat, list: seq<Vec>)
    requires Shaped(n, sel, rows) && f < n && Uniform(n, list)
    requires list + Selected(n, sel, rows, f) == Selected(n, sel, rows, 0)
    ensures (list + if sel[f] then [rows[f]] else []) + Selected(n, sel, rows, f + 1) == Selected(n, sel, rows, 0)
    ensures Weight(sel[..f + 1]) == Weight(sel[..f]) + if sel[f] then 1 else 0
  {
    assert sel[..f + 1][..f] == sel[..f];
  }

  /** One parity word per free column, stored one after the other. */
  method BuildParityBasis(n: nat, has: seq<bool>, rows: seq<Vec>) returns (m: nat, parity: array<Vec>)
    requires Reduced(n, has, rows)
    ensures m == Weight(Complement(has)) <= n == parity.Length && fresh(parity)
    ensures forall i | 0 <= i < n :: |parity[i]| == n
    ensures parity[..m] == Selected(n, Complement(has), ParityWords(n, has, rows), 0)
    ensures forall i | m <= i < n :: parity[i] == Zero(n)
  {
    ghost var free, all := Complement(has), ParityWords(n, has, rows);
    ghost var list: seq<Vec> := [];
    parity := new Vec[n](_ => Zero(n));
    m := 0;
    for f := 0 to n
      invariant m == |list| == Weight(free[..f]) <= f
      invariant Uniform(n, list) && list + Selected(n, free, all, f) == Selected(n, free, all, 0)
      invariant forall i | 0 <= i < n :: parity[i] == if i < m then list[i] else Zero(n)
    {
      SelectedStep(n, free, all, f, list);
      if has[f] {
        assert list + [] == list;
        continue;
      }
      parity[m] := BuildParityWord(n, has, rows, f);
      list := list + [all[f]];
      m := m + 1;
    }
    assert free[..n] == free;
    assert parity[..m] == list;
  }

  /** Forward elimination, back substitution and the parity basis. The failure exit before the
      last line is never taken: `ok` always holds. */
  method Analyze(n: nat, words: seq<Vec>) returns (ok: bool, result: CodeSpace)
    requires Uniform(n, words)
    ensures ok && Describes(n, words, result)
  {
    var t := new PivotTable(n);
    assert words[..0] == [];
    for r := 0 to |words|
      invariant t.Valid() && t.n == n && fresh(t) && fresh(t.rows) && fresh(t.has)
      invariant t.RowSpace() == Span(n, words[..r])
    {
      SpanOfPrefix(n, words, r, t.Basis());
      t.Insert(words[r]);
    }
    assert words[..|words|] == words;
    t.BackSubstitute();
    var m, parity := BuildParityBasis(n, t.has[..], t.rows[..]);
    CountComplement(t.has[..]);
    result := CodeSpace(t.rank, m, t.rows[..], t.has[..], parity[..]);
    if t.rank + m != n {
      return false, result;
    }
    return true, result;
  }

  /** Whether a word has even parity on every parity word of the space. */
  method Satisfies(word: Vec, space: CodeSpace) returns (yes: bool)
    requires space.nullity <= |space.parityBasis| && Uniform(|word|, space.parityBasis)
    ensures yes <==> forall i | 0 <= i < space.nullity :: !Dot(word, space.parityBasis[i])
  {
    for i := 0 to space.nullity
      invariant forall j | 0 <= j < i :: !Dot(word, space.parityBasis[j])
    {
      var odd := ComputeDot(word, space.parityBasis[i]);
      if odd { return false; }
    }
    return true;
  }

  // ---------------------------------------------------------------- what the space means

  /** The double dual: a word satisfies the parity basis exactly when it is an XOR of the words. */
  lemma DoubleDual(n: nat, words: seq<Vec>, cs: CodeSpace, w: Vec)
    requires Describes(n, words, cs) && |w| == n
    ensures w in Span(n, words) <==> forall i | 0 <= i < cs.nullity :: !Dot(w, cs.parityBasis[i])
  {
    var free, all := Complement(cs.hasPivot), ParityWords(n, cs.hasPivot, cs.pivotRows);
    var list := Checks(n, cs);
    ReducedDualPair(n, cs.hasPivot, cs.pivotRows);
    if w in Span(n, words) {
      forall i | 0 <= i < cs.nullity ensures !Dot(w, cs.parityBasis[i]) {
        assert list[i] == cs.parityBasis[i];
        var f := SelectedOnly(n, free, all, 0, list[i]);
        OwnedOrthogonal(n, cs.hasPivot, cs.pivotRows, list[i], w);
      }
    }
    if forall i | 0 <= i < cs.nullity :: !Dot(w, cs.parityBasis[i]) {
      forall f | 0 <= f < n && !cs.hasPivot[f] ensures !Dot(w, all[f]) {
        SelectedHas(n, free, all, 0, f);
        var i :| 0 <= i < |list| && list[i] == all[f];
        assert cs.parityBasis[i] == list[i];
      }
      OrthogonalIsSpan(n, cs.hasPivot, cs.pivotRows, all, w);
    }
  }

  /** The parity basis spans every word orthogonal to all the words, not just some of them. */
  lemma ParitySpansDual(n: nat, words: seq<Vec>, cs: CodeSpace, h: Vec)
    requires Describes(n, words, cs) && |h| == n
    ensures h in Span(n, Checks(n, cs)) <==> forall i | 0 <= i < |words| :: !Dot(words[i], h)
  {
    var has, rows := cs.hasPivot, cs.pivotRows;
    var free, all := Complement(has), ParityWords(n, has, rows);
    ReducedDualPair(n, has, rows);
    DualPairSwap(n, has, rows, all);
    assert Complement(free) == has;
    if h in Span(n, Checks(n, cs)) {
      forall i | 0 <= i < |words| ensures !Dot(words[i], h) {
        SpanHasRow(n, words, i);
        forall f | 0 <= f < n && free[f] ensures !Dot(all[f], words[i]) {
          OwnedOrthogonal(n, has, rows, all[f], words[i]);
          ParitySymmetric(all[f], words[i], n);
        }
        OwnedOrthogonal(n, free, all, words[i], h);
        ParitySymmetric(words[i], h, n);
      }
    }
    if forall i | 0 <= i < |words| :: !Dot(words[i], h) {
      forall c | 0 <= c < n && !free[c] ensures !Dot(h, rows[c]) {
        OwnedInSpan(n, has, rows, c);
        SpanOrthogonal(n, words, h, rows[c]);
        ParitySymmetric(h, rows[c], n);
      }
      OrthogonalIsSpan(n, free, all, rows, h);
    }
  }

  lemma PairIsPrivate(n: nat, sel: seq<bool>, a: seq<Vec>, b: seq<Vec>)
    requires DualPair(n, sel, a, b)
    ensures Private(n, sel, a) && Private(n, Complement(sel), b)
  {
  }

  /** Rank and nullity count words: 2^rank XORs of the input, 2^nullity words orthogonal to it. */
  lemma RankCountsWords(n: nat, words: seq<Vec>, cs: CodeSpace)
    requires Describes(n, words, cs)
    ensures |Span(n, words)| == Pow2(cs.rank)
    ensures |Span(n, Checks(n, cs))| == Pow2(cs.nullity)
  {
    hide Span, Selected, Pow2, ParityWords, Weight, DualPair;
    var has, rows := cs.hasPivot, cs.pivotRows;
    var free, all := Complement(has), ParityWords(n, has, rows);
    ReducedDualPair(n, has, rows);
    PairIsPrivate(n, has, rows, all);
    IndependentSize(n, has, rows, 0);
    CountSelected(n, has, rows, 0);
    IndependentSize(n, free, all, 0);
    CountSelected(n, free, all, 0);
    CountComplement(has);
  }

  /** The reported rank is the rank of the input words. */
  lemma RankIsRank(n: nat, words: seq<Vec>, cs: CodeSpace)
    requires Describes(n, words, cs)
    ensures cs.rank == Rank(n, words)
  {
    RankCountsWords(n, words, cs);
    RankSize(n, words);
    Pow2Injective(cs.rank, Rank(n, words));
  }

  /** The whole result depends on the span alone: any order, duplicates or other generators of
      the same words give the identical code space. */
  lemma SpaceOfSpan(n: nat, words: seq<Vec>, cs: CodeSpace, words': seq<Vec>, cs': CodeSpace)
    requires Describes(n, words, cs) && Describes(n, words', cs')
    ensures cs == cs' <==> Span(n, words) == Span(n, words')
  {
    if Span(n, words) == Span(n, words') {
      ReducedUnique(n, cs.hasPivot, cs.pivotRows, cs'.hasPivot, cs'.pivotRows);
      assert cs.pivotRows == cs'.pivotRows;
      forall i | 0 <= i < n ensures cs.parityBasis[i] == cs'.parityBasis[i] {
        if i < cs.nullity {
          assert cs.parityBasis[i] == cs.parityBasis[..cs.nullity][i];
          assert cs'.parityBasis[i] == cs'.parityBasis[..cs.nullity][i];
        }
      }
      assert cs.parityBasis == cs'.parityBasis;
    }
  }

  /** Reordering or repeating the input words changes nothing. */
  lemma OrderAndCopiesDoNotMatter(n: nat, words: seq<Vec>, cs: CodeSpace, words': seq<Vec>, cs': CodeSpace)
    requires Describes(n, words, cs) && Describes(n, words', cs')
    requires forall w :: w in words <==> w in words'
    ensures cs == cs'
  {
    SpanOfSameRows(n, words, words');
    SpaceOfSpan(n, words, cs, words', cs');
  }
}
