/** Weight-6 parity checks by meeting in the middle: all column triples, sorted by the XOR of
    their signatures; equal triples that share no column join into a check. */
module SparseParity {
  import opened Gf2
  import opened Sorting

  datatype Triple = Triple(a: nat, b: nat, c: nat)
  datatype TripleEntry = TripleEntry(signature: Vec, triple: Triple)

  predicate Disjoint(x: Triple, y: Triple) {
    && x.a != y.a && x.a != y.b && x.a != y.c
    && x.b != y.a && x.b != y.b && x.b != y.c
    && x.c != y.a && x.c != y.b && x.c != y.c
  }

  // ---------------------------------------------------------------- the order of signatures

  /** Signatures are stored in 64-bit words, row r at bit r % 64 of word r / 64, and compare word
      by word as unsigned numbers: this is the place of row r in that comparison. */
  function ComparisonPlace(row: nat): nat {
    (row / 64) * 64 + 63 - row % 64
  }

  /** The row that decides a comparison: a is clear and b set there, all rows compared earlier agree. */
  ghost predicate DecidedAt(a: Vec, b: Vec, k: nat)
    requires |a| == |b|
  {
    && k < |a| && !a[k] && b[k]
    && forall j | 0 <= j < |a| && ComparisonPlace(j) < ComparisonPlace(k) :: a[j] == b[j]
  }

  ghost predicate SignatureLess(a: Vec, b: Vec) {
    |a| < |b| || (|a| == |b| && exists k: nat :: DecidedAt(a, b, k))
  }

  ghost function EntryLess(): (TripleEntry, TripleEntry) -> bool {
    (x: TripleEntry, y: TripleEntry) => SignatureLess(x.signature, y.signature)
  }

  /** Bits below k of word w of a signature, as a number. */
  function WordValue(a: Vec, w: nat, k: nat): (value: nat)
    ensures value < Pow2(k)
  {
    if k == 0 then 0 else
      WordValue(a, w, k - 1) + if 64 * w + k - 1 < |a| && a[64 * w + k - 1] then Pow2(k - 1) else 0
  }

  lemma {:induction false} WordValueSame(a: Vec, b: Vec, w: nat, k: nat)
    requires |a| == |b| && forall i | 64 * w <= i < 64 * w + k && i < |a| :: a[i] == b[i]
    ensures WordValue(a, w, k) == WordValue(b, w, k)
  {
    if k > 0 { WordValueSame(a, b, w, k - 1); }
  }

  /** The highest bit that differs decides. */
  lemma {:induction false} WordValueDecided(a: Vec, b: Vec, w: nat, i: nat, k: nat)
    requires |a| == |b| && i < k && 64 * w + i < |a| && !a[64 * w + i] && b[64 * w + i]
    requires forall j | 64 * w + i < j < 64 * w + k && j < |a| :: a[j] == b[j]
    ensures WordValue(a, w, k) < WordValue(b, w, k)
  {
    if i + 1 < k { WordValueDecided(a, b, w, i, k - 1); }
  }

  /** One word is less, and the words before it are equal. */
  ghost predicate LessAtWord(a: Vec, b: Vec, w: nat) {
    && WordValue(a, w, 64) < WordValue(b, w, 64)
    && forall u: nat | u < w :: WordValue(a, u, 64) == WordValue(b, u, 64)
  }

  lemma DecidedIsLess(a: Vec, b: Vec, k: nat)
    requires |a| == |b| && DecidedAt(a, b, k)
    ensures LessAtWord(a, b, k / 64)
  {
    hide WordValue;
    var w := k / 64;
    forall u: nat | u < w ensures WordValue(a, u, 64) == WordValue(b, u, 64) {
      WordValueSame(a, b, u, 64);
    }
    WordValueDecided(a, b, w, k % 64, 64);
  }

  lemma EarliestDifference(a: Vec, b: Vec, d: nat) returns (k: nat)
    requires |a| == |b| && d < |a| && a[d] != b[d]
    ensures k < |a| && a[k] != b[k]
    ensures forall j | 0 <= j < |a| && ComparisonPlace(j) < ComparisonPlace(k) :: a[j] == b[j]
    decreases ComparisonPlace(d)
  {
    if e :| 0 <= e < |a| && ComparisonPlace(e) < ComparisonPlace(d) && a[e] != b[e] {
      k := EarliestDifference(a, b, e);
    } else {
      k := d;
    }
  }

  lemma FirstDifference(a: Vec, b: Vec) returns (k: nat)
    requires |a| == |b| && a != b
    ensures k < |a| && a[k] != b[k]
    ensures forall j | 0 <= j < |a| && ComparisonPlace(j) < ComparisonPlace(k) :: a[j] == b[j]
  {
    var d :| 0 <= d < |a| && a[d] != b[d];
    k := EarliestDifference(a, b, d);
  }

  lemma LessOneWay(a: Vec, b: Vec, w: nat)
    requires LessAtWord(a, b, w)
    ensures a != b && forall u: nat :: !LessAtWord(b, a, u)
  {
    hide WordValue;
    forall u: nat ensures !LessAtWord(b, a, u) {
      assert u < w || u == w || w < u;
    }
  }

  /** The order of signatures is the order of their 64-bit words as numbers, the first word first. */
  lemma SignatureLessIsWordOrder(a: Vec, b: Vec)
    requires |a| == |b|
    ensures SignatureLess(a, b) <==> exists w: nat :: LessAtWord(a, b, w)
  {
    hide ComparisonPlace;
    if k: nat :| DecidedAt(a, b, k) { DecidedIsLess(a, b, k); }
    if w: nat :| LessAtWord(a, b, w) {
      LessOneWay(a, b, w);
      var k := FirstDifference(a, b);
      assert DecidedAt(a, b, k) || DecidedAt(b, a, k);
      if DecidedAt(b, a, k) { DecidedIsLess(b, a, k); }
    }
  }

  lemma PlaceInjective(i: nat, j: nat)
    requires ComparisonPlace(i) == ComparisonPlace(j)
    ensures i == j
  {
  }

  lemma SignatureTrichotomy(a: Vec, b: Vec)
    ensures a == b || SignatureLess(a, b) || SignatureLess(b, a)
  {
    if |a| == |b| && a != b {
      var k := FirstDifference(a, b);
      assert DecidedAt(a, b, k) || DecidedAt(b, a, k);
    }
  }

  lemma SignatureLessTransitive(a: Vec, b: Vec, c: Vec)
    requires SignatureLess(a, b) && SignatureLess(b, c)
    ensures SignatureLess(a, c)
  {
    if |a| == |b| == |c| {
      var k: nat :| DecidedAt(a, b, k);
      var j: nat :| DecidedAt(b, c, j);
      if ComparisonPlace(j) == ComparisonPlace(k) { PlaceInjective(j, k); }
      assert DecidedAt(a, c, if ComparisonPlace(j) < ComparisonPlace(k) then j else k);
    }
  }

  /** The comparison of the source is a proper sorting order, so conforming sorts exist. */
  lemma EntryOrder()
    ensures StrictWeakOrder(EntryLess())
    ensures Conforms(EntryLess(), s => InsertionSort(EntryLess(), s))
  {
    var less := EntryLess();
    forall x, y | less(x, y) ensures !less(y, x) {
    }
    forall x, y, z | !less(y, x) && !less(z, y) ensures !less(z, x) {
      SignatureTrichotomy(x.signature, y.signature);
      SignatureTrichotomy(y.signature, z.signature);
      if less(z, x) {
        if less(x, y) { SignatureLessTransitive(z.signature, x.signature, y.signature); }
      }
    }
    ConformingSortExists(less);
  }

  // ---------------------------------------------------------------- checks

  /** The XOR of the first k columns under the set bits of v. */
  ghost function ColumnSum(r: nat, columns: seq<Vec>, v: Vec, k: nat): (s: Vec)
    requires Uniform(r, columns) && k <= |columns| && k <= |v|
    ensures |s| == r
  {
    if k == 0 then Zero(r)
    else if v[k - 1] then Xor(ColumnSum(r, columns, v, k - 1), columns[k - 1])
    else ColumnSum(r, columns, v, k - 1)
  }

  /** A word of weight 6 on existing columns whose signatures XOR to zero. */
  ghost predicate IsCheck(n: nat, r: nat, columns: seq<Vec>, v: Vec)
    requires Uniform(r, columns) && |columns| <= n
  {
    && |v| == n && Weight(v) == 6
    && (forall i | |columns| <= i < n :: !v[i])
    && ColumnSum(r, columns, v, |columns|) == Zero(r)
  }

  function CheckOf(n: nat, x: Triple, y: Triple): Vec {
    seq(n, i => i == x.a || i == x.b || i == x.c || i == y.a || i == y.b || i == y.c)
  }

  function TripleSum(columns: seq<Vec>, t: Triple): Vec
    requires t.a < |columns| && t.b < |columns| && t.c < |columns|
    requires |columns[t.a]| == |columns[t.b]| == |columns[t.c]|
  {
    Xor(Xor(columns[t.a], columns[t.b]), columns[t.c])
  }

  predicate Increasing(t: Triple, count: nat) {
    t.a < t.b < t.c < count
  }

  ghost predicate GoodEntry(r: nat, columns: seq<Vec>, e: TripleEntry)
    requires Uniform(r, columns)
  {
    Increasing(e.triple, |columns|) && e.signature == TripleSum(columns, e.triple)
  }

  lemma {:induction false} ColumnSumSetBit(r: nat, columns: seq<Vec>, v: Vec, i: nat, k: nat)
    requires Uniform(r, columns) && k <= |columns| && k <= |v| && i < |v| && !v[i]
    ensures i < k ==> ColumnSum(r, columns, v[i := true], k) == Xor(ColumnSum(r, columns, v, k), columns[i])
    ensures i >= k ==> ColumnSum(r, columns, v[i := true], k) == ColumnSum(r, columns, v, k)
  {
    if k > 0 {
      ColumnSumSetBit(r, columns, v, i, k - 1);
      var s := ColumnSum(r, columns, v, k - 1);
      if i < k - 1 && v[k - 1] {
        assert Xor(Xor(s, columns[i]), columns[k - 1]) == Xor(Xor(s, columns[k - 1]), columns[i]);
      }
    }
  }

  lemma {:induction false} ColumnSumZero(r: nat, columns: seq<Vec>, n: nat, k: nat)
    requires Uniform(r, columns) && k <= |columns| && k <= n
    ensures ColumnSum(r, columns, Zero(n), k) == Zero(r)
  {
    if k > 0 { ColumnSumZero(r, columns, n, k - 1); }
  }

  /** Setting three clear bits adds their columns and three to the weight. */
  lemma SetThree(r: nat, columns: seq<Vec>, v: Vec, t: Triple)
    requires Uniform(r, columns) && |columns| <= |v| && Increasing(t, |columns|)
    requires !v[t.a] && !v[t.b] && !v[t.c]
    ensures Weight(v[t.a := true][t.b := true][t.c := true]) == Weight(v) + 3
    ensures ColumnSum(r, columns, v[t.a := true][t.b := true][t.c := true], |columns|)
         == Xor(ColumnSum(r, columns, v, |columns|), TripleSum(columns, t))
  {
    var k := |columns|;
    var v1 := v[t.a := true];
    var v2 := v1[t.b := true];
    WeightSetBit(v, t.a);
    WeightSetBit(v1, t.b);
    WeightSetBit(v2, t.c);
    ColumnSumSetBit(r, columns, v, t.a, k);
    ColumnSumSetBit(r, columns, v1, t.b, k);
    ColumnSumSetBit(r, columns, v2, t.c, k);
    var s := ColumnSum(r, columns, v, k);
    assert Xor(Xor(Xor(s, columns[t.a]), columns[t.b]), columns[t.c]) == Xor(s, TripleSum(columns, t));
  }

  lemma CheckAsBits(n: nat, x: Triple, y: Triple)
    requires Increasing(x, n) && Increasing(y, n) && Disjoint(x, y)
    ensures CheckOf(n, x, y)
         == Zero(n)[x.a := true][x.b := true][x.c := true][y.a := true][y.b := true][y.c := true]
  {
  }

  /** Two disjoint triples join to a word of weight 6 that is a check exactly when they agree. */
  lemma JoinedTriples(n: nat, r: nat, columns: seq<Vec>, x: Triple, y: Triple)
    requires Uniform(r, columns) && |columns| <= n
    requires Increasing(x, |columns|) && Increasing(y, |columns|) && Disjoint(x, y)
    ensures IsCheck(n, r, columns, CheckOf(n, x, y)) <==> TripleSum(columns, x) == TripleSum(columns, y)
  {
    var z := Zero(n);
    WeightZero(n);
    ColumnSumZero(r, columns, n, |columns|);
    SetThree(r, columns, z, x);
    SetThree(r, columns, z[x.a := true][x.b := true][x.c := true], y);
    CheckAsBits(n, x, y);
    var p, q := TripleSum(columns, x), TripleSum(columns, y);
    XorZero(p);
    XorCancel(p, q);
    XorZero(q);
    if Xor(p, q) == Zero(r) { assert q == Xor(p, Zero(r)); }
  }

  lemma {:induction false} NoWeight(v: Vec)
    requires Weight(v) == 0
    ensures forall j | 0 <= j < |v| :: !v[j]
  {
    if v != [] { NoWeight(v[..|v| - 1]); }
  }

  lemma {:induction false} LowestBit(v: Vec) returns (a: nat)
    requires Weight(v) > 0
    ensures a < |v| && v[a] && (forall j | 0 <= j < a :: !v[j])
    ensures Weight(v[a := false]) == Weight(v) - 1
  {
    var last := |v| - 1;
    if Weight(v[..last]) > 0 {
      a := LowestBit(v[..last]);
    } else {
      NoWeight(v[..last]);
      a := last;
    }
    WeightSetBit(v[a := false], a);
    assert v[a := false][a := true] == v;
  }

  lemma LowestTriple(v: Vec) returns (t: Triple, rest: Vec)
    requires Weight(v) >= 3
    ensures Increasing(t, |v|) && v[t.a] && v[t.b] && v[t.c]
    ensures rest == v[t.a := false][t.b := false][t.c := false] && Weight(rest) == Weight(v) - 3
    ensures forall j | 0 <= j <= t.c :: !rest[j]
  {
    var a := LowestBit(v);
    var b := LowestBit(v[a := false]);
    var c := LowestBit(v[a := false][b := false]);
    t := Triple(a, b, c);
    rest := v[a := false][b := false][c := false];
  }

  /** Every word of weight 6 splits into its three lowest and three highest bits. */
  lemma SplitWeight6(n: nat, v: Vec) returns (x: Triple, y: Triple)
    requires |v| == n && Weight(v) == 6
    ensures Increasing(x, n) && Increasing(y, n) && x.c < y.a && Disjoint(x, y)
    ensures v == CheckOf(n, x, y)
    ensures v[x.a] && v[x.b] && v[x.c] && v[y.a] && v[y.b] && v[y.c]
  {
    var rest, none;
    x, rest := LowestTriple(v);
    y, none := LowestTriple(rest);
    assert x.c < y.a;
    NoWeight(none);
    forall i | 0 <= i < n ensures v[i] == CheckOf(n, x, y)[i] {
      if i != x.a && i != x.b && i != x.c {
        assert rest[i] == v[i];
        if i != y.a && i != y.b && i != y.c { assert none[i] == rest[i]; }
      }
    }
  }

  // ---------------------------------------------------------------- the search

  /** t comes before (a, b, c) in the order of the three nested loops. */
  predicate Earlier(t: Triple, a: nat, b: nat, c: nat) {
    t.a < a || (t.a == a && (t.b < b || (t.b == b && t.c < c)))
  }

  /** The entries are exactly the increasing triples before (a, b, c), in the order of the loops. */
  ghost predicate Entered(r: nat, columns: seq<Vec>, entries: seq<TripleEntry>, a: nat, b: nat, c: nat)
    requires Uniform(r, columns)
  {
    && (forall i | 0 <= i < |entries| :: GoodEntry(r, columns, entries[i]) && Earlier(entries[i].triple, a, b, c))
    && (forall i, j | 0 <= i < j < |entries| ::
          Earlier(entries[i].triple, entries[j].triple.a, entries[j].triple.b, entries[j].triple.c))
    && (forall t: Triple | Increasing(t, |columns|) && Earlier(t, a, b, c) ::
          TripleEntry(TripleSum(columns, t), t) in entries)
  }

  /** All increasing triples with the XOR of their signatures, in lexicographic order. There is only
      one such list. */
  ghost predicate Listed(r: nat, columns: seq<Vec>, entries: seq<TripleEntry>)
    requires Uniform(r, columns)
  {
    && (forall i | 0 <= i < |entries| :: GoodEntry(r, columns, entries[i]))
    && (forall i, j | 0 <= i < j < |entries| ::
          Earlier(entries[i].triple, entries[j].triple.a, entries[j].triple.b, entries[j].triple.c))
    && (forall t: Triple | Increasing(t, |columns|) :: TripleEntry(TripleSum(columns, t), t) in entries)
  }

  method BuildEntries(r: nat, columns: seq<Vec>) returns (entries: seq<TripleEntry>)
    requires Uniform(r, columns) && |columns| >= 6
    ensures Listed(r, columns, entries)
  {
    hide TripleSum;
    var count := |columns|;
    entries := [];
    for a := 0 to count - 2
      invariant Entered(r, columns, entries, a, 0, 0)
    {
      for b := a + 1 to count - 1
        invariant Entered(r, columns, entries, a, b, 0)
      {
        for c := b + 1 to count
          invariant Entered(r, columns, entries, a, b, c)
        {
          var t := Triple(a, b, c);
          entries := entries + [TripleEntry(TripleSum(columns, t), t)];
        }
      }
    }
  }

  ghost predicate Distinct(list: seq<Vec>) {
    forall i, j | 0 <= i < j < |list| :: list[i] != list[j]
  }

  function Stored(list: seq<Vec>, check: Vec): seq<Vec> {
    if check in list then list else list + [check]
  }

  /** The innermost step: join two disjoint triples and store the check unless it is there already. */
  method StoreCheck(n: nat, x: Triple, y: Triple, output: array<Vec>, found: nat) returns (found': nat)
    requires Increasing(x, n) && Increasing(y, n) && Disjoint(x, y) && found < output.Length
    modifies output
    ensures found <= found' <= found + 1
    ensures output[..found'] == Stored(old(output[..found]), CheckOf(n, x, y))
  {
    var check := Zero(n);
    check := check[x.a := true];
    check := check[x.b := true];
    check := check[x.c := true];
    check := check[y.a := true];
    check := check[y.b := true];
    check := check[y.c := true];
    CheckAsBits(n, x, y);
    var duplicate := false;
    for k := 0 to found
      invariant !duplicate && check !in output[..k]
    {
      if output[k] == check {
        duplicate := true;
        break;
      }
    }
    found' := found;
    if !duplicate {
      output[found] := check;
      found' := found + 1;
      assert output[..found'] == old(output[..found]) + [check];
    } else {
      assert check in output[..found];
    }
  }

  // ---------------------------------------------------------------- what the loops find

  /** Positions i < j of the sorted entries hold triples that join to a check. */
  ghost predicate Joins(t: seq<TripleEntry>, i: nat, j: nat) {
    && i < j < |t| && t[i].signature == t[j].signature
    && Disjoint(t[i].triple, t[j].triple)
  }

  /** The checks of all joining pairs before (i, j), row by row, each where it first comes up. */
  ghost function Found(n: nat, t: seq<TripleEntry>, i: nat, j: nat): (list: seq<Vec>)
    requires i <= |t|
    decreases i, j
  {
    if j > i + 1 then
      var before := Found(n, t, i, j - 1);
      if Joins(t, i, j - 1) then Stored(before, CheckOf(n, t[i].triple, t[j - 1].triple)) else before
    else if i > 0 then Found(n, t, i - 1, |t|)
    else []
  }

  function Upto(list: seq<Vec>, capacity: nat): seq<Vec> {
    if |list| <= capacity then list else list[..capacity]
  }

  lemma FoundStep(n: nat, t: seq<TripleEntry>, i: nat, j: nat)
    requires i < j && i < |t|
    ensures Found(n, t, i, j + 1) ==
      if Joins(t, i, j) then Stored(Found(n, t, i, j), CheckOf(n, t[i].triple, t[j].triple)) else Found(n, t, i, j)
    ensures Found(n, t, i, i + 1) == Found(n, t, i, 0)
    ensures Found(n, t, i + 1, 0) == Found(n, t, i, |t|)
    ensures Found(n, t, 0, 0) == []
  {
  }

  lemma StoredGrows(list: seq<Vec>, check: Vec)
    ensures list <= Stored(list, check)
  {
  }

  lemma {:induction false} RowGrows(n: nat, t: seq<TripleEntry>, i: nat, j: nat, k: nat)
    requires i < j <= k && i < |t|
    ensures Found(n, t, i, j) <= Found(n, t, i, k)
  {
    hide Found, Stored;
    if j < k {
      RowGrows(n, t, i, j, k - 1);
      FoundStep(n, t, i, k - 1);
      if Joins(t, i, k - 1) {
        StoredGrows(Found(n, t, i, k - 1), CheckOf(n, t[i].triple, t[k - 1].triple));
      }
    }
  }

  /** What has been found stays in front of what is found later. */
  lemma {:induction false} FoundGrows(n: nat, t: seq<TripleEntry>, i: nat, j: nat, k: nat)
    requires i < j <= |t| && i < k <= |t|
    ensures Found(n, t, i, j) <= Found(n, t, k, 0)
    decreases k - i
  {
    hide Found;
    RowGrows(n, t, i, j, |t|);
    FoundStep(n, t, i, j);
    if i + 1 < k {
      FoundStep(n, t, i + 1, i + 2);
      FoundGrows(n, t, i + 1, i + 2, k);
    }
  }

  lemma {:induction false} NoMoreInRow(n: nat, t: seq<TripleEntry>, i: nat, end: nat, j: nat)
    requires i < end <= j && i < |t| && forall q: nat | end <= q < j :: !Joins(t, i, q)
    ensures Found(n, t, i, j) == Found(n, t, i, end)
  {
    hide Found, Joins;
    if end < j {
      NoMoreInRow(n, t, i, end, j - 1);
      FoundStep(n, t, i, j - 1);
    }
  }

  lemma UptoFull(early: seq<Vec>, late: seq<Vec>, capacity: nat)
    requires early <= late && |Upto(early, capacity)| == capacity
    ensures Upto(late, capacity) == Upto(early, capacity)
  {
    assert late[..capacity] == early[..capacity];
  }

  ghost predicate AllChecks(n: nat, r: nat, columns: seq<Vec>, list: seq<Vec>)
    requires Uniform(r, columns) && |columns| <= n
  {
    forall k | 0 <= k < |list| :: IsCheck(n, r, columns, list[k])
  }

  /** Whatever is found is a check, and nothing is found twice. */
  lemma {:induction false} FoundChecksOnly(n: nat, r: nat, columns: seq<Vec>, t: seq<TripleEntry>, i: nat, j: nat)
    requires Uniform(r, columns) && |columns| <= n && i <= |t|
    requires forall e | e in t :: GoodEntry(r, columns, e)
    ensures AllChecks(n, r, columns, Found(n, t, i, j)) && Distinct(Found(n, t, i, j))
    decreases i, j
  {
    hide IsCheck, CheckOf, TripleSum;
    if j > i + 1 {
      FoundChecksOnly(n, r, columns, t, i, j - 1);
      if Joins(t, i, j - 1) {
        assert GoodEntry(r, columns, t[i]) && GoodEntry(r, columns, t[j - 1]);
        JoinedTriples(n, r, columns, t[i].triple, t[j - 1].triple);
      }
    } else if i > 0 {
      FoundChecksOnly(n, r, columns, t, i - 1, |t|);
    }
  }

  /** Every joining pair is found by the end of its row. */
  lemma JoinIsFound(n: nat, t: seq<TripleEntry>, i: nat, j: nat)
    requires Joins(t, i, j)
    ensures CheckOf(n, t[i].triple, t[j].triple) in Found(n, t, |t|, 0)
  {
    hide Found, CheckOf;
    FoundStep(n, t, i, j);
    FoundGrows(n, t, i, j + 1, |t|);
    var early, check := Found(n, t, i, j + 1), CheckOf(n, t[i].triple, t[j].triple);
    assert check in early;
    var k :| 0 <= k < |early| && early[k] == check;
    assert Found(n, t, |t|, 0)[k] == check;
  }

  /** Equal signatures are adjacent after sorting: a run that ended stays ended. */
  lemma RunEnds(t: seq<TripleEntry>, begin: nat, end: nat)
    requires Sorted(EntryLess(), t) && begin < end <= |t|
    requires forall k | begin <= k < end :: t[k].signature == t[begin].signature
    requires end < |t| ==> t[end].signature != t[begin].signature
    ensures forall p, q | begin <= p < end <= q < |t| :: t[p].signature != t[q].signature
  {
    var less := EntryLess();
    forall p, q | begin <= p < end <= q < |t| ensures t[p].signature != t[q].signature {
      assert !less(t[end], t[p]) && (q > end ==> !less(t[q], t[end]));
      SignatureTrichotomy(t[end].signature, t[p].signature);
    }
  }

  /** One row of a run: a triple with all later ones of equal signature, until the output is full. */
  method JoinRow(n: nat, t: seq<TripleEntry>, i: nat, end: nat, output: array<Vec>, capacity: nat, found0: nat)
    returns (found: nat)
    requires i < end <= |t| && capacity <= output.Length && found0 < capacity
    requires forall k | 0 <= k < |t| :: Increasing(t[k].triple, n)
    requires forall k | i <= k < end :: t[k].signature == t[i].signature
    requires forall q | end <= q < |t| :: t[i].signature != t[q].signature
    requires output[..found0] == Upto(Found(n, t, i, 0), capacity)
    modifies output
    ensures found0 <= found <= capacity
    ensures output[..found] == Upto(Found(n, t, i + 1, 0), capacity)
  {
    hide CheckOf, Found;
    found := found0;
    var j := i + 1;
    FoundStep(n, t, i, j);
    while j < end && found < capacity
      invariant i < j <= end && found0 <= found <= capacity
      invariant output[..found] == Upto(Found(n, t, i, j), capacity)
    {
      FoundStep(n, t, i, j);
      var x, y := t[i].triple, t[j].triple;
      if Disjoint(x, y) {
        found := StoreCheck(n, x, y, output, found);
      }
      j := j + 1;
    }
    if j == end {
      NoMoreInRow(n, t, i, end, |t|);
      FoundStep(n, t, i, j);
    } else {
      FoundGrows(n, t, i, j, i + 1);
      UptoFull(Found(n, t, i, j), Found(n, t, i + 1, 0), capacity);
    }
  }

  /** Once the output is full, later rows change nothing. */
  lemma StaysFull(n: nat, t: seq<TripleEntry>, i: nat, k: nat, capacity: nat)
    requires i <= k <= |t|
    ensures i == k || |Upto(Found(n, t, i, 0), capacity)| == capacity
        ==> Upto(Found(n, t, k, 0), capacity) == Upto(Found(n, t, i, 0), capacity)
  {
    hide Found;
    if i < k && |Upto(Found(n, t, i, 0), capacity)| == capacity {
      FoundStep(n, t, i, i + 1);
      FoundGrows(n, t, i, i + 1, k);
      UptoFull(Found(n, t, i, 0), Found(n, t, k, 0), capacity);
    }
  }

  /** One run of equal signatures, row by row, until the output is full. */
  method JoinRun(n: nat, t: seq<TripleEntry>, begin: nat, end: nat, output: array<Vec>, capacity: nat, found0: nat)
    returns (found: nat)
    requires begin < end <= |t| && capacity <= output.Length && found0 < capacity
    requires forall k | 0 <= k < |t| :: Increasing(t[k].triple, n)
    requires forall k | begin <= k < end :: t[k].signature == t[begin].signature
    requires forall p, q | begin <= p < end <= q < |t| :: t[p].signature != t[q].signature
    requires output[..found0] == Upto(Found(n, t, begin, 0), capacity)
    modifies output
    ensures found0 <= found <= capacity
    ensures output[..found] == Upto(Found(n, t, end, 0), capacity)
  {
    hide Found;
    found := found0;
    var i := begin;
    while i < end && found < capacity
      invariant begin <= i <= end && found0 <= found <= capacity
      invariant output[..found] == Upto(Found(n, t, i, 0), capacity)
    {
      found := JoinRow(n, t, i, end, output, capacity, found);
      i := i + 1;
    }
    StaysFull(n, t, i, end, capacity);
  }

  lemma EmptyStart(n: nat, t: seq<TripleEntry>, capacity: nat)
    ensures Upto(Found(n, t, 0, 0), capacity) == []
  {
  }

  lemma SortedEntries(n: nat, r: nat, columns: seq<Vec>, entries: seq<TripleEntry>, t: seq<TripleEntry>)
    requires Uniform(r, columns) && |columns| <= n && Listed(r, columns, entries) && multiset(t) == multiset(entries)
    ensures forall e | e in t :: GoodEntry(r, columns, e)
    ensures forall k | 0 <= k < |t| :: Increasing(t[k].triple, n)
  {
    hide TripleSum;
    SameElements(t, entries);
    forall k | 0 <= k < |t| ensures GoodEntry(r, columns, t[k]) {
      assert t[k] in entries;
    }
  }

  /** A check needs six columns. */
  lemma FewColumns(n: nat, r: nat, columns: seq<Vec>)
    requires Uniform(r, columns) && |columns| <= n
    ensures |columns| < 6 ==> forall v :: !IsCheck(n, r, columns, v)
  {
    forall v | IsCheck(n, r, columns, v) ensures |columns| >= 6 {
      var x, y := SplitWeight6(n, v);
    }
  }

  lemma CheckSwapped(n: nat, x: Triple, y: Triple)
    ensures CheckOf(n, x, y) == CheckOf(n, y, x)
  {
  }

  lemma TriplePosition(r: nat, columns: seq<Vec>, entries: seq<TripleEntry>, t: seq<TripleEntry>, x: Triple) returns (p: nat)
    requires Uniform(r, columns) && Listed(r, columns, entries) && multiset(t) == multiset(entries)
    requires Increasing(x, |columns|)
    ensures p < |t| && t[p] == TripleEntry(TripleSum(columns, x), x)
  {
    hide TripleSum;
    SameElements(t, entries);
    p :| 0 <= p < |t| && t[p] == TripleEntry(TripleSum(columns, x), x);
  }

  lemma PairIsFound(n: nat, t: seq<TripleEntry>, p: nat, q: nat)
    requires p < |t| && q < |t| && t[p].signature == t[q].signature && Disjoint(t[p].triple, t[q].triple)
    ensures CheckOf(n, t[p].triple, t[q].triple) in Found(n, t, |t|, 0)
  {
    hide Found, CheckOf;
    CheckSwapped(n, t[p].triple, t[q].triple);
    if p < q { JoinIsFound(n, t, p, q); } else { JoinIsFound(n, t, q, p); }
  }

  lemma CheckIsFound(n: nat, r: nat, columns: seq<Vec>, entries: seq<TripleEntry>, t: seq<TripleEntry>, v: Vec)
    requires Uniform(r, columns) && |columns| <= n && IsCheck(n, r, columns, v)
    requires Listed(r, columns, entries) && multiset(t) == multiset(entries)
    ensures v in Found(n, t, |t|, 0)
  {
    assert |v| == n && Weight(v) == 6 && forall i | |columns| <= i < n :: !v[i];
    hide Found, CheckOf, IsCheck, Weight, TripleSum, Listed, Disjoint;
    var x, y := SplitWeight6(n, v);
    JoinedTriples(n, r, columns, x, y);
    var p := TriplePosition(r, columns, entries, t, x);
    var q := TriplePosition(r, columns, entries, t, y);
    PairIsFound(n, t, p, q);
  }

  /** Distinct 6-column sets whose signatures XOR to zero; and all of them, unless the output
      filled up. What comes out, and in which order, is fixed by the sort alone. Nothing is searched
      when the arguments are out of range. */
  method FindWeight6(n: nat, r: nat, columns: seq<Vec>, output: array<Vec>, capacity: nat,
                     sort: seq<TripleEntry> -> seq<TripleEntry>) returns (found: nat)
    requires Uniform(r, columns) && capacity <= output.Length
    requires Conforms(EntryLess(), sort)
    modifies output
    ensures found <= capacity && Distinct(output[..found])
    ensures |columns| > n || |columns| < 6 ==> found == 0
    ensures capacity > 0 && 6 <= |columns| <= n ==> exists entries ::
      Listed(r, columns, entries) && output[..found] == Upto(Found(n, sort(entries), |sort(entries)|, 0), capacity)
    ensures |columns| <= n ==> AllChecks(n, r, columns, output[..found])
    ensures |columns| <= n && found < capacity ==> forall v | IsCheck(n, r, columns, v) :: v in output[..found]
  {
    hide Found, IsCheck, Listed;
    if capacity == 0 || |columns| < 6 || |columns| > n {
      if |columns| <= n { FewColumns(n, r, columns); }
      assert output[..0] == [];
      return 0;
    }
    var entries := BuildEntries(r, columns);
    var t := sort(entries);
    SortedEntries(n, r, columns, entries, t);

    found := 0;
    var begin := 0;
    EmptyStart(n, t, capacity);
    while begin < |t| && found < capacity
      invariant begin <= |t| && found <= capacity
      invariant output[..found] == Upto(Found(n, t, begin, 0), capacity)
    {
      var end := begin + 1;
      while end < |t| && t[end].signature == t[begin].signature
        invariant begin < end <= |t|
        invariant forall k | begin <= k < end :: t[k].signature == t[begin].signature
      {
        end := end + 1;
      }
      RunEnds(t, begin, end);
      found := JoinRun(n, t, begin, end, output, capacity, found);
      begin := end;
    }
    StaysFull(n, t, begin, |t|, capacity);
    FoundChecksOnly(n, r, columns, t, |t|, 0);
    if found < capacity {
      forall v | IsCheck(n, r, columns, v) ensures v in output[..found] {
        CheckIsFound(n, r, columns, entries, t, v);
      }
    }
  }
}
