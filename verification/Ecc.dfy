/** The block codes of the voice frame: a (23,12) Golay code and a (15,11) Hamming code. The
    correction tables are parameters: nothing is assumed of them beyond the entry for a clean
    word. Bit j of a word is element j; data goes out with the highest bit first. */
module Ecc {
  import opened Gf2

  const GOLAY_GENERATOR: seq<nat> :=
    [0x63a, 0x31d, 0x7b4, 0x3da, 0x1ed, 0x6cc, 0x366, 0x1b3, 0x6e3, 0x54b, 0x49f, 0x475]
  const HAMMING_GENERATOR: seq<nat> := [0x7f08, 0x78e4, 0x66d2, 0x55b1]

  /** What to XOR onto the data for each syndrome; the syndrome stands for the table index. */
  type Table = Vec -> Vec

  ghost predicate GolayTable(golay: Table) {
    forall s :: |golay(s)| == 12
  }

  ghost predicate HammingTable(hamming: Table) {
    forall s :: |hamming(s)| == 15
  }

  /** Bit j of a number, reached by shifting right. */
  predicate BitOf(value: nat, j: nat) {
    if j == 0 then value % 2 == 1 else BitOf(value / 2, j - 1)
  }

  function Bits(value: nat, width: nat): (v: Vec)
    ensures |v| == width
  {
    seq(width, j requires 0 <= j < width => BitOf(value, j))
  }

  // ---------------------------------------------------------------- Golay

  /** The twelve data bits of a 23-bit word, highest first, and its eleven parity bits. */
  function GolayData(w: Vec): (d: Vec)
    requires |w| == 23
    ensures |d| == 12
  {
    seq(12, i requires 0 <= i < 12 => w[22 - i])
  }

  function GolayChecks(w: Vec): (c: Vec)
    requires |w| == 23
    ensures |c| == 11
  {
    w[..11]
  }

  function GolayWord(d: Vec, c: Vec): (w: Vec)
    requires |d| == 12 && |c| == 11
    ensures |w| == 23
  {
    seq(23, j requires 0 <= j < 23 => if j < 11 then c[j] else d[22 - j])
  }

  /** The XOR of the generator rows under the first k data bits. */
  function GolayParity(d: Vec, k: nat): (p: Vec)
    requires |d| == 12 && k <= 12
    ensures |p| == 11
  {
    if k == 0 then Zero(11)
    else if d[k - 1] then Xor(GolayParity(d, k - 1), Bits(GOLAY_GENERATOR[k - 1], 11))
    else GolayParity(d, k - 1)
  }

  function GolaySyndrome(w: Vec): (s: Vec)
    requires |w| == 23
    ensures |s| == 11
  {
    Xor(GolayParity(GolayData(w), 12), GolayChecks(w))
  }

  /** The word after correction: data XOR the table entry, parity bits as they came. */
  ghost function GolayCorrected(golay: Table, w: Vec): (r: Vec)
    requires GolayTable(golay) && |w| == 23
    ensures |r| == 23
  {
    GolayWord(Xor(GolayData(w), golay(GolaySyndrome(w))), GolayChecks(w))
  }

  method CheckGolayBlock(golay: Table, block: Vec) returns (databits: Vec)
    requires GolayTable(golay) && |block| == 23
    ensures databits == Xor(GolayData(block), golay(GolaySyndrome(block)))
  {
    var expected := Zero(11);
    for i := 0 to 12
      invariant expected == GolayParity(GolayData(block), i)
    {
      if block[22 - i] { expected := Xor(expected, Bits(GOLAY_GENERATOR[i], 11)); }
    }
    var syndrome := Xor(expected, block[..11]);
    databits := seq(12, i requires 0 <= i < 12 => block[22 - i]);
    databits := Xor(databits, golay(syndrome));
  }

  /** Correct one Golay word; the count is the number of data bits that were changed. A word
      corrected in place is compared with itself, so its count is 0. */
  method Golay2312(golay: Table, input: array<bool>, output: array<bool>) returns (errs: nat)
    requires GolayTable(golay) && input.Length == output.Length == 23
    modifies output
    ensures output[..] == GolayCorrected(golay, old(input[..]))
    ensures errs == if input == output then 0 else Weight(golay(GolaySyndrome(old(input[..]))))
  {
    hide GolayParity, Bits;
    ghost var w := input[..];
    var data := CheckGolayBlock(golay, input[..]);
    for i := 0 to 12
      invariant forall k | 0 <= k < i :: output[22 - k] == data[k]
      invariant forall k | 0 <= k < 11 :: input[k] == w[k]
    {
      output[22 - i] := data[i];
    }
    for i := 0 to 11
      invariant forall k | 0 <= k < 12 :: output[22 - k] == data[k]
      invariant forall k | 0 <= k < i :: output[k] == w[k]
      invariant forall k | i <= k < 11 :: input[k] == w[k]
    {
      output[i] := input[i];
    }
    assert output[..] == GolayWord(data, GolayChecks(w)) by {
      forall j | 0 <= j < 23 ensures output[j] == GolayWord(data, GolayChecks(w))[j] {
        if j >= 11 { assert output[22 - (22 - j)] == data[22 - j]; }
      }
    }
    ghost var fix := golay(GolaySyndrome(w));
    errs := 0;
    for i := 0 to 12
      invariant errs == if input == output then 0 else Weight(fix[..i])
    {
      assert fix[..i + 1][..i] == fix[..i];
      assert output[22 - i] == (w[22 - i] != fix[i]);
      if output[22 - i] != input[22 - i] { errs := errs + 1; }
    }
    assert fix[..12] == fix;
  }

  /** The transmitter's side: data followed by its generator parity. */
  function GolayEncode(d: Vec): (w: Vec)
    requires |d| == 12
    ensures |w| == 23
  {
    GolayWord(d, GolayParity(d, 12))
  }

  lemma {:induction false} GolayParityXor(a: Vec, b: Vec, k: nat)
    requires |a| == |b| == 12 && k <= 12
    ensures GolayParity(Xor(a, b), k) == Xor(GolayParity(a, k), GolayParity(b, k))
  {
    hide Bits;
    if k > 0 {
      GolayParityXor(a, b, k - 1);
    } else {
      XorZero(Zero(11));
    }
  }

  lemma GolayPartsXor(w: Vec, e: Vec)
    requires |w| == |e| == 23
    ensures GolayData(Xor(w, e)) == Xor(GolayData(w), GolayData(e))
    ensures GolayChecks(Xor(w, e)) == Xor(GolayChecks(w), GolayChecks(e))
  {
  }

  lemma GolayEncodedParts(d: Vec)
    requires |d| == 12
    ensures GolayData(GolayEncode(d)) == d
    ensures GolayChecks(GolayEncode(d)) == GolayParity(d, 12)
    ensures GolaySyndrome(GolayEncode(d)) == Zero(11)
  {
    hide GolayParity;
    assert GolayData(GolayEncode(d)) == d;
    XorZero(GolayParity(d, 12));
  }

  /** The syndrome of a received word depends on the error alone. */
  lemma GolaySyndromeOfError(d: Vec, e: Vec)
    requires |d| == 12 && |e| == 23
    ensures GolaySyndrome(Xor(GolayEncode(d), e)) == GolaySyndrome(e)
  {
    hide GolayParity, GolayEncode, GolayData, GolayChecks;
    var w := GolayEncode(d);
    GolayPartsXor(w, e);
    GolayEncodedParts(d);
    GolayParityXor(d, GolayData(e), 12);
    var p, q, c := GolayParity(d, 12), GolayParity(GolayData(e), 12), GolayChecks(e);
    assert Xor(Xor(p, q), Xor(p, c)) == Xor(q, c);
  }

  /** What is left on the data after correcting an error pattern. */
  ghost function GolayResidual(golay: Table, e: Vec): (r: Vec)
    requires GolayTable(golay) && |e| == 23
    ensures |r| == 12
  {
    Xor(GolayData(e), golay(GolaySyndrome(e)))
  }

  /** Correction is transparent to the data: data XOR a residual, both the residual and the count
      of changed bits depending on the error alone. */
  lemma GolayTransparent(golay: Table, d: Vec, e: Vec)
    requires GolayTable(golay) && |d| == 12 && |e| == 23
    ensures GolayData(GolayCorrected(golay, Xor(GolayEncode(d), e))) == Xor(d, GolayResidual(golay, e))
    ensures golay(GolaySyndrome(Xor(GolayEncode(d), e))) == golay(GolaySyndrome(e))
  {
    hide GolayParity, GolaySyndrome, GolayEncode;
    GolaySyndromeOfError(d, e);
    GolayPartsXor(GolayEncode(d), e);
    GolayEncodedParts(d);
    var w := Xor(GolayEncode(d), e);
    var fix := golay(GolaySyndrome(e));
    assert GolayData(GolayWord(Xor(GolayData(w), fix), GolayChecks(w))) == Xor(GolayData(w), fix);
    XorAssoc(d, GolayData(e), fix);
  }

  // ---------------------------------------------------------------- Hamming

  function HammingSyndrome(w: Vec): (s: Vec)
    requires |w| == 15
    ensures |s| == 4
  {
    seq(4, i requires 0 <= i < 4 => Dot(Bits(HAMMING_GENERATOR[i], 15), w))
  }

  ghost function HammingCorrected(hamming: Table, w: Vec): (r: Vec)
    requires HammingTable(hamming) && |w| == 15
    ensures |r| == 15
  {
    if HammingSyndrome(w) == Zero(4) then w else Xor(w, hamming(HammingSyndrome(w)))
  }

  function HammingData(w: Vec): (d: Vec)
    requires |w| == 15
    ensures |d| == 11
  {
    seq(11, i requires 0 <= i < 11 => w[14 - i])
  }

  /** Correct one Hamming word, in place if need be; the count is 1 exactly when the syndrome is
      not zero. */
  method Hamming1511(hamming: Table, input: array<bool>, output: array<bool>) returns (errs: nat)
    requires HammingTable(hamming) && input.Length == output.Length == 15
    modifies output
    ensures output[..] == HammingCorrected(hamming, old(input[..]))
    ensures errs == if HammingSyndrome(old(input[..])) == Zero(4) then 0 else 1
  {
    hide Bits, Parity;
    ghost var w := input[..];
    var block := input[..];
    var syndrome: Vec := [];
    for i := 0 to 4
      invariant |syndrome| == i && forall k | 0 <= k < i :: syndrome[k] == Dot(Bits(HAMMING_GENERATOR[k], 15), w)
    {
      var p := ComputeDot(Bits(HAMMING_GENERATOR[i], 15), block);
      syndrome := syndrome + [p];
    }
    errs := 0;
    assert syndrome == HammingSyndrome(w);
    if syndrome != Zero(4) {
      errs := errs + 1;
      block := Xor(block, hamming(syndrome));
    }
    for i := 0 to 15
      invariant forall k | 0 <= k < i :: output[k] == block[k]
    {
      output[i] := block[i];
    }
    assert output[..] == block;
  }

  lemma HammingSyndromeXor(w: Vec, e: Vec)
    requires |w| == |e| == 15
    ensures HammingSyndrome(Xor(w, e)) == Xor(HammingSyndrome(w), HammingSyndrome(e))
  {
    hide Bits;
    forall i | 0 <= i < 4 ensures HammingSyndrome(Xor(w, e))[i] == Xor(HammingSyndrome(w), HammingSyndrome(e))[i] {
      DotXor(Bits(HAMMING_GENERATOR[i], 15), w, e);
    }
  }

  /** Data in the eleven high bits, the four low bits clear. */
  function HammingPlace(d: Vec): (w: Vec)
    requires |d| == 11
    ensures |w| == 15
  {
    seq(15, j requires 0 <= j < 15 => j >= 4 && d[14 - j])
  }

  function HammingParity(d: Vec): (p: Vec)
    requires |d| == 11
    ensures |p| == 15
  {
    seq(15, j requires 0 <= j < 15 => j < 4 && HammingSyndrome(HammingPlace(d))[3 - j])
  }

  /** The transmitter's side: the low bits make every generator row even. */
  function HammingEncode(d: Vec): (w: Vec)
    requires |d| == 11
    ensures |w| == 15
  {
    Xor(HammingPlace(d), HammingParity(d))
  }

  /** The four low columns of the generator are a unit matrix, read backwards. */
  lemma HammingUnit(i: nat, k: nat)
    requires i < 4 && k < 4
    ensures Bits(HAMMING_GENERATOR[i], 15)[3 - k] == (i == k)
  {
    assert BitOf(0x7f08, 3) && !BitOf(0x7f08, 2) && !BitOf(0x7f08, 1) && !BitOf(0x7f08, 0);
    assert !BitOf(0x78e4, 3) && BitOf(0x78e4, 2) && !BitOf(0x78e4, 1) && !BitOf(0x78e4, 0);
    assert !BitOf(0x66d2, 3) && !BitOf(0x66d2, 2) && BitOf(0x66d2, 1) && !BitOf(0x66d2, 0);
    assert !BitOf(0x55b1, 3) && !BitOf(0x55b1, 2) && !BitOf(0x55b1, 1) && BitOf(0x55b1, 0);
  }

  lemma HammingEncodedClean(d: Vec)
    requires |d| == 11
    ensures HammingSyndrome(HammingEncode(d)) == Zero(4)
    ensures HammingData(HammingEncode(d)) == d
  {
    hide Bits, Parity;
    var base, par := HammingPlace(d), HammingParity(d);
    HammingSyndromeXor(base, par);
    forall i | 0 <= i < 4 ensures HammingSyndrome(par)[i] == HammingSyndrome(base)[i] {
      var g := Bits(HAMMING_GENERATOR[i], 15);
      forall j | 0 <= j < 15 && j != 3 - i ensures !(g[j] && par[j]) {
        if j < 4 { HammingUnit(i, 3 - j); }
      }
      HammingUnit(i, i);
      ParityMeetsOnce(g, par, 3 - i, 15);
    }
    assert HammingSyndrome(par) == HammingSyndrome(base);
    XorZero(HammingSyndrome(base));
    assert HammingData(HammingEncode(d)) == d;
  }

  ghost function HammingResidual(hamming: Table, e: Vec): (r: Vec)
    requires HammingTable(hamming) && |e| == 15
    ensures |r| == 11
  {
    HammingData(HammingCorrected(hamming, e))
  }

  lemma HammingTransparent(hamming: Table, d: Vec, e: Vec)
    requires HammingTable(hamming) && |d| == 11 && |e| == 15
    ensures HammingData(HammingCorrected(hamming, Xor(HammingEncode(d), e))) == Xor(d, HammingResidual(hamming, e))
    ensures HammingSyndrome(Xor(HammingEncode(d), e)) == HammingSyndrome(e)
  {
    hide HammingSyndrome, HammingEncode;
    var w := HammingEncode(d);
    HammingEncodedClean(d);
    HammingSyndromeXor(w, e);
    XorZero(HammingSyndrome(e));
    var r := HammingCorrected(hamming, e);
    if HammingSyndrome(e) != Zero(4) {
      XorAssoc(w, e, hamming(HammingSyndrome(e)));
    }
    assert HammingCorrected(hamming, Xor(w, e)) == Xor(w, r);
    assert HammingData(Xor(w, r)) == Xor(HammingData(w), HammingData(r));
  }

  // ---------------------------------------------------------------- the Hamming table as committed

  const HAMMING_MATRIX: seq<nat> :=
    [0x0, 0x1, 0x2, 0x4, 0x8, 0x10, 0x20, 0x40, 0x80, 0x100, 0x200, 0x400, 0x800, 0x1000, 0x2000, 0x4000]

  function SyndromeIndex(s: Vec): (i: nat)
    ensures i < 16
  {
    if |s| != 4 then 0 else
      (if s[0] then 8 else 0) + (if s[1] then 4 else 0) + (if s[2] then 2 else 0) + if s[3] then 1 else 0
  }

  function CommittedTable(): (t: Table)
    ensures HammingTable(t)
  {
    s => Bits(HAMMING_MATRIX[SyndromeIndex(s)], 15)
  }

  function Unit(n: nat, j: nat): (u: Vec)
    requires j < n
    ensures |u| == n
  {
    Zero(n)[j := true]
  }

  /** The syndrome, as a table index, of an error in bit j alone. */
  function ColumnIndex(j: nat): nat
    requires j < 15
  {
    if j < 2 then j + 1 else if j == 2 then 4 else if j == 3 then 8 else if j == 4 then 3 else if j < 8 then j else j + 1
  }

  predicate Column(j: nat, a: bool, b: bool, c: bool, d: bool) {
    BitOf(0x7f08, j) == a && BitOf(0x78e4, j) == b && BitOf(0x66d2, j) == c && BitOf(0x55b1, j) == d
  }

  lemma Columns0To3(j: nat)
    requires 0 <= j < 4
    ensures var k := ColumnIndex(j);
      Column(j, k / 8 % 2 == 1, k / 4 % 2 == 1, k / 2 % 2 == 1, k % 2 == 1)
  {
    assert !BitOf(0x7f08, 0) && !BitOf(0x78e4, 0) && !BitOf(0x66d2, 0) && BitOf(0x55b1, 0);
    assert !BitOf(0x7f08, 1) && !BitOf(0x78e4, 1) && BitOf(0x66d2, 1) && !BitOf(0x55b1, 1);
    assert !BitOf(0x7f08, 2) && BitOf(0x78e4, 2) && !BitOf(0x66d2, 2) && !BitOf(0x55b1, 2);
    assert BitOf(0x7f08, 3) && !BitOf(0x78e4, 3) && !BitOf(0x66d2, 3) && !BitOf(0x55b1, 3);
  }

  lemma FourDown(value: nat, j: nat)
    requires j >= 4
    ensures BitOf(value, j) == BitOf(value / 16, j - 4)
  {
    assert BitOf(value, j) == BitOf(value / 2, j - 1) == BitOf(value / 2 / 2, j - 2);
    assert BitOf(value / 2 / 2, j - 2) == BitOf(value / 2 / 2 / 2, j - 3) == BitOf(value / 2 / 2 / 2 / 2, j - 4);
  }

  lemma Columns4To7(j: nat)
    requires 4 <= j < 8
    ensures var k := ColumnIndex(j);
      Column(j, k / 8 % 2 == 1, k / 4 % 2 == 1, k / 2 % 2 == 1, k % 2 == 1)
  {
    FourDown(0x7f08, j);
    FourDown(0x78e4, j);
    FourDown(0x66d2, j);
    FourDown(0x55b1, j);
    assert !BitOf(0x7f0, 0) && !BitOf(0x78e, 0) && BitOf(0x66d, 0) && BitOf(0x55b, 0);
    assert !BitOf(0x7f0, 1) && BitOf(0x78e, 1) && !BitOf(0x66d, 1) && BitOf(0x55b, 1);
    assert !BitOf(0x7f0, 2) && BitOf(0x78e, 2) && BitOf(0x66d, 2) && !BitOf(0x55b, 2);
    assert !BitOf(0x7f0, 3) && BitOf(0x78e, 3) && BitOf(0x66d, 3) && BitOf(0x55b, 3);
  }

  lemma Columns8To11(j: nat)
    requires 8 <= j < 12
    ensures var k := ColumnIndex(j);
      Column(j, k / 8 % 2 == 1, k / 4 % 2 == 1, k / 2 % 2 == 1, k % 2 == 1)
  {
    FourDown(0x7f08, j);
    FourDown(0x78e4, j);
    FourDown(0x66d2, j);
    FourDown(0x55b1, j);
    FourDown(0x7f0, j - 4);
    FourDown(0x78e, j - 4);
    FourDown(0x66d, j - 4);
    FourDown(0x55b, j - 4);
    assert BitOf(0x7f, 0) && !BitOf(0x78, 0) && !BitOf(0x66, 0) && BitOf(0x55, 0);
    assert BitOf(0x7f, 1) && !BitOf(0x78, 1) && BitOf(0x66, 1) && !BitOf(0x55, 1);
    assert BitOf(0x7f, 2) && !BitOf(0x78, 2) && BitOf(0x66, 2) && BitOf(0x55, 2);
    assert BitOf(0x7f, 3) && BitOf(0x78, 3) && !BitOf(0x66, 3) && !BitOf(0x55, 3);
  }

  lemma Columns12To14(j: nat)
    requires 12 <= j < 15
    ensures var k := ColumnIndex(j);
      Column(j, k / 8 % 2 == 1, k / 4 % 2 == 1, k / 2 % 2 == 1, k % 2 == 1)
  {
    FourDown(0x7f08, j);
    FourDown(0x78e4, j);
    FourDown(0x66d2, j);
    FourDown(0x55b1, j);
    FourDown(0x7f0, j - 4);
    FourDown(0x78e, j - 4);
    FourDown(0x66d, j - 4);
    FourDown(0x55b, j - 4);
    FourDown(0x7f, j - 8);
    FourDown(0x78, j - 8);
    FourDown(0x66, j - 8);
    FourDown(0x55, j - 8);
    assert BitOf(0x7, 0) && BitOf(0x7, 0) && !BitOf(0x6, 0) && BitOf(0x5, 0);
    assert BitOf(0x7, 1) && BitOf(0x7, 1) && BitOf(0x6, 1) && !BitOf(0x5, 1);
    assert BitOf(0x7, 2) && BitOf(0x7, 2) && BitOf(0x6, 2) && BitOf(0x5, 2);
  }

  /** The generator's columns, read as table indices. */
  lemma GeneratorColumn(j: nat)
    requires j < 15
    ensures SyndromeIndex([Bits(HAMMING_GENERATOR[0], 15)[j], Bits(HAMMING_GENERATOR[1], 15)[j],
                           Bits(HAMMING_GENERATOR[2], 15)[j], Bits(HAMMING_GENERATOR[3], 15)[j]]) == ColumnIndex(j)
  {
    hide BitOf;
    if j < 4 { Columns0To3(j); } else if j < 8 { Columns4To7(j); } else if j < 12 { Columns8To11(j); } else { Columns12To14(j); }
  }

  lemma UnitSyndrome(j: nat)
    requires j < 15
    ensures SyndromeIndex(HammingSyndrome(Unit(15, j))) == ColumnIndex(j)
  {
    hide Bits;
    var u := Unit(15, j);
    forall i | 0 <= i < 4 ensures HammingSyndrome(u)[i] == Bits(HAMMING_GENERATOR[i], 15)[j] {
      ParityMeetsOnce(Bits(HAMMING_GENERATOR[i], 15), u, j, 15);
    }
    GeneratorColumn(j);
  }

  lemma {:induction false} NoBitOfZero(j: nat)
    ensures !BitOf(0, j)
  {
    if j > 0 { NoBitOfZero(j - 1); }
  }

  /** A power of two has one bit. */
  lemma {:induction false} PowerBit(m: nat, j: nat)
    ensures BitOf(Pow2(m), j) <==> j == m
  {
    if m > 0 && j > 0 {
      assert Pow2(m) / 2 == Pow2(m - 1);
      PowerBit(m - 1, j - 1);
    } else if m == 0 && j > 0 {
      NoBitOfZero(j - 1);
    }
  }

  lemma Powers(k: nat)
    requires 0 < k < 16
    ensures HAMMING_MATRIX[k] == Pow2(k - 1)
  {
    assert Pow2(0) == 1 && Pow2(1) == 2 && Pow2(2) == 4 && Pow2(3) == 8 && Pow2(4) == 16;
    assert Pow2(5) == 32 && Pow2(6) == 64 && Pow2(7) == 128 && Pow2(8) == 256 && Pow2(9) == 512;
    assert Pow2(10) == 1024 && Pow2(11) == 2048 && Pow2(12) == 4096 && Pow2(13) == 8192 && Pow2(14) == 16384;
  }

  lemma TableEntry(k: nat)
    requires 0 < k < 16
    ensures Bits(HAMMING_MATRIX[k], 15) == Unit(15, k - 1)
  {
    hide Pow2;
    Powers(k);
    forall j | 0 <= j < 15 ensures Bits(HAMMING_MATRIX[k], 15)[j] == Unit(15, k - 1)[j] {
      PowerBit(k - 1, j);
    }
  }

  /** The committed table answers an error in bit j alone by flipping bit ColumnIndex(j) - 1. */
  lemma CommittedAnswer(j: nat)
    requires j < 15
    ensures 0 < ColumnIndex(j) < 16
    ensures HammingSyndrome(Unit(15, j)) != Zero(4)
    ensures HammingCorrected(CommittedTable(), Unit(15, j)) == Xor(Unit(15, j), Unit(15, ColumnIndex(j) - 1))
  {
    hide HammingSyndrome, Bits;
    UnitSyndrome(j);
    assert HammingSyndrome(Unit(15, j)) != Zero(4);
    TableEntry(ColumnIndex(j));
  }

  /** A clean word is answered with no change. */
  lemma CommittedClean()
    ensures CommittedTable()(Zero(4)) == Zero(15)
  {
    hide BitOf;
    forall j: nat | j < 15 ensures !BitOf(0, j) {
      NoBitOfZero(j);
    }
  }

  lemma CommittedResidual(j: nat)
    requires j < 15
    ensures Xor(Unit(15, j), Unit(15, ColumnIndex(j) - 1)) == Zero(15) <==> j <= 1 || j >= 8
    ensures HammingResidual(CommittedTable(), Unit(15, j)) == Zero(11) <==> j <= 2 || j >= 8
  {
    hide HammingCorrected;
    CommittedAnswer(j);
    var left := Xor(Unit(15, j), Unit(15, ColumnIndex(j) - 1));
    if j <= 1 || j >= 8 {
      assert left == Zero(15);
    } else {
      assert left[j] && !Zero(15)[j];
    }
    if j <= 2 || j >= 8 {
      assert HammingData(left) == Zero(11);
    } else {
      assert HammingData(left)[14 - if j == 3 then 7 else j];
    }
  }

  /** With the table as committed, an error in a single bit is repaired exactly when that bit is 0,
      1 or 8 and above; bits 2 to 7 are answered by flipping a different bit. The eleven data bits,
      which is all that the frame decoder passes on, survive an error in bit 2 as well. */
  lemma CommittedHammingCorrects(d: Vec, j: nat)
    requires |d| == 11 && j < 15
    ensures HammingCorrected(CommittedTable(), Xor(HammingEncode(d), Unit(15, j))) == HammingEncode(d)
       <==> j <= 1 || j >= 8
    ensures HammingData(HammingCorrected(CommittedTable(), Xor(HammingEncode(d), Unit(15, j)))) == d
       <==> j <= 2 || j >= 8
  {
    hide HammingEncode, HammingSyndrome, HammingResidual, CommittedTable;
    var w, u, t := HammingEncode(d), Unit(15, j), CommittedTable();
    HammingEncodedClean(d);
    HammingSyndromeXor(w, u);
    XorZero(HammingSyndrome(u));
    HammingTransparent(t, d, u);
    CommittedAnswer(j);
    CommittedResidual(j);
    var left, r := HammingCorrected(t, u), HammingResidual(t, u);
    XorAssoc(w, u, t(HammingSyndrome(u)));
    assert HammingCorrected(t, Xor(w, u)) == Xor(w, left);
    XorCancel(w, left);
    XorZero(w);
    XorCancel(d, r);
    XorZero(d);
  }
}
