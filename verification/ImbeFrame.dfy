/** One IMBE 7200x4400 voice frame: correct c0, undo the whitening that c0 seeds, correct the
    rest and gather 88 data bits. */
module ImbeFrame {
  import opened Gf2
  import opened Ecc

  type Frame = seq<Vec>

  /** Eight rows of 23 bits; rows 4 to 6 use fifteen of them and row 7 seven. */
  ghost predicate IsFrame(f: Frame) {
    |f| == 8 && forall i | 0 <= i < 8 :: |f[i]| == 23
  }

  // ---------------------------------------------------------------- whitening

  /** The number whose binary digits are the first k of d, highest first. */
  function Number(d: Vec, k: nat): nat
    requires k <= |d|
  {
    if k == 0 then 0 else 2 * Number(d, k - 1) + if d[k - 1] then 1 else 0
  }

  function NextValue(x: nat): (y: nat)
    ensures y < 65536
  {
    (173 * x + 13849) % 65536
  }

  function Generator(seed: nat, k: nat): nat {
    if k == 0 then 16 * seed else NextValue(Generator(seed, k - 1))
  }

  predicate WhiteningBit(seed: nat, k: nat) {
    Generator(seed, k) / 32768 == 1
  }

  /** Which whitening bit falls on column j of row i, if any. */
  function WhiteningIndex(i: nat, j: nat): (k: nat)
    ensures k < 115
  {
    if 1 <= i < 4 && j < 23 then 1 + 23 * (i - 1) + (22 - j)
    else if 4 <= i < 7 && j < 15 then 70 + 15 * (i - 4) + (14 - j)
    else 0
  }

  function WhiteningRow(seed: nat, i: nat): (r: Vec)
    ensures |r| == 23
  {
    seq(23, j => j >= 0 && WhiteningIndex(i, j) > 0 && WhiteningBit(seed, WhiteningIndex(i, j)))
  }

  function Seed(c0: Vec): nat
    requires |c0| == 23
  {
    Number(GolayData(c0), 12)
  }

  // ---------------------------------------------------------------- the decoder as a function

  ghost function AfterC0(golay: Table, f: Frame): (r: Frame)
    requires GolayTable(golay) && IsFrame(f)
    ensures IsFrame(r)
  {
    f[0 := GolayCorrected(golay, f[0])]
  }

  ghost function AfterWhitening(f: Frame): (r: Frame)
    requires IsFrame(f)
    ensures IsFrame(r)
  {
    seq(8, i requires 0 <= i < 8 => Xor(f[i], WhiteningRow(Seed(f[0]), i)))
  }

  function Power173(k: nat): nat {
    if k == 0 then 1 else 173 * Power173(k - 1)
  }

  /** 1 + 173 + ... + 173^(k - 1) */
  function Powers173(k: nat): nat {
    if k == 0 then 0 else Powers173(k - 1) + Power173(k - 1)
  }

  lemma {:induction false} Powers173Step(k: nat)
    ensures Powers173(k + 1) == 173 * Powers173(k) + 1
  {
    if k > 0 { Powers173Step(k - 1); }
  }

  /** What the generator is congruent to: the seed times 16 * 173^k, with 13849 in at every step. */
  function Closed(seed: nat, k: nat): nat {
    16 * (Power173(k) * seed) + 13849 * Powers173(k)
  }

  lemma ClosedStep(seed: nat, k: nat)
    ensures Closed(seed, 0) == 16 * seed
    ensures Closed(seed, k + 1) == 173 * Closed(seed, k) + 13849
  {
    Powers173Step(k);
    assert Power173(k + 1) * seed == 173 * (Power173(k) * seed);
  }

  lemma SameRemainder(a: nat, b: nat, q: int)
    requires a == b + 65536 * q
    ensures a % 65536 == b % 65536
  {
  }

  lemma NextRemainder(x: nat, y: nat)
    requires x == y % 65536
    ensures NextValue(x) == (173 * y + 13849) % 65536
  {
    var q := y / 65536;
    assert 173 * y + 13849 == 173 * x + 13849 + 65536 * (173 * q);
    SameRemainder(173 * y + 13849, 173 * x + 13849, 173 * q);
  }

  lemma {:induction false} GeneratorClosed(seed: nat, k: nat)
    requires seed < 4096
    ensures Generator(seed, k) == Closed(seed, k) % 65536
  {
    hide NextValue, Closed;
    ClosedStep(seed, if k > 0 then k - 1 else 0);
    if k > 0 {
      GeneratorClosed(seed, k - 1);
      NextRemainder(Generator(seed, k - 1), Closed(seed, k - 1));
    }
  }

  /** Bit k of the sequence for the seed, without running the generator. */
  predicate ClosedBit(seed: nat, k: nat) {
    Closed(seed, k) % 65536 >= 32768
  }

  lemma NumberStep(d: Vec, k: nat)
    requires k < |d|
    ensures Number(d, 0) == 0
    ensures Number(d, k + 1) == 2 * Number(d, k) + if d[k] then 1 else 0
  {
  }

  function Digit(bit: bool, weight: nat): nat {
    if bit then weight else 0
  }

  lemma FourDigits(d: Vec, k: nat)
    requires k + 4 <= |d|
    ensures Number(d, 0) == 0
    ensures Number(d, k + 4) == 16 * Number(d, k)
      + Digit(d[k], 8) + Digit(d[k + 1], 4) + Digit(d[k + 2], 2) + Digit(d[k + 3], 1)
  {
    hide Number;
    NumberStep(d, k);
    NumberStep(d, k + 1);
    NumberStep(d, k + 2);
    NumberStep(d, k + 3);
  }

  /** The seed is the number in bits 22 to 11 of c0, bit 22 the highest. */
  lemma SeedIsNumber(c0: Vec)
    requires |c0| == 23
    ensures Seed(c0) < 4096
    ensures Seed(c0) == Digit(c0[22], 2048) + Digit(c0[21], 1024) + Digit(c0[20], 512) + Digit(c0[19], 256)
                      + Digit(c0[18], 128) + Digit(c0[17], 64) + Digit(c0[16], 32) + Digit(c0[15], 16)
                      + Digit(c0[14], 8) + Digit(c0[13], 4) + Digit(c0[12], 2) + Digit(c0[11], 1)
  {
    hide Number;
    var d := GolayData(c0);
    FourDigits(d, 0);
    FourDigits(d, 4);
    FourDigits(d, 8);
  }

  lemma SeedBound(c0: Vec)
    requires |c0| == 23
    ensures Seed(c0) < 4096
  {
    SeedIsNumber(c0);
  }

  lemma WhiteningBitClosed(seed: nat, k: nat)
    requires seed < 4096
    ensures WhiteningBit(seed, k) == ClosedBit(seed, k)
  {
    hide Generator, Closed;
    GeneratorClosed(seed, k);
  }

  /** What the whitening pass does to every bit of the frame: rows 1 to 3 take bits 1 to 69 of the
      sequence and rows 4 to 6 bits 70 to 114, each row from its highest bit down. */
  lemma WhiteningPlaces(f: Frame, i: nat, j: nat)
    requires IsFrame(f) && i < 8 && j < 23
    ensures var seed := Seed(f[0]);
      AfterWhitening(f)[i][j] == (f[i][j] !=
        if 1 <= i <= 3 then ClosedBit(seed, 23 * i - j)
        else if 4 <= i <= 6 && j < 15 then ClosedBit(seed, 15 * i + 24 - j)
        else false)
  {
    hide WhiteningBit, ClosedBit, Seed;
    SeedBound(f[0]);
    WhiteningBitClosed(Seed(f[0]), WhiteningIndex(i, j));
  }

  ghost function GolayPart(golay: Table, f: Frame, i: nat): (d: Vec)
    requires GolayTable(golay) && IsFrame(f) && i < 4
    ensures |d| == 12
  {
    if i == 0 then GolayData(f[0]) else GolayData(GolayCorrected(golay, f[i]))
  }

  ghost function HammingPart(hamming: Table, f: Frame, i: nat): (d: Vec)
    requires HammingTable(hamming) && IsFrame(f) && i < 8
    ensures |d| == 11
  {
    HammingData(HammingCorrected(hamming, f[i][..15]))
  }

  function TailPart(row: Vec): (d: Vec)
    requires |row| == 23
    ensures |d| == 7
  {
    seq(7, i requires 0 <= i < 7 => row[6 - i])
  }

  ghost function DataOf(golay: Table, hamming: Table, f: Frame): (d: Vec)
    requires GolayTable(golay) && HammingTable(hamming) && IsFrame(f)
    ensures |d| == 88
  {
    GolayPart(golay, f, 0) + GolayPart(golay, f, 1) + GolayPart(golay, f, 2) + GolayPart(golay, f, 3)
    + HammingPart(hamming, f, 4) + HammingPart(hamming, f, 5) + HammingPart(hamming, f, 6) + TailPart(f[7])
  }

  ghost function GolayErrors(golay: Table, row: Vec): nat
    requires GolayTable(golay) && |row| == 23
  {
    Weight(golay(GolaySyndrome(row)))
  }

  function HammingErrors(row: Vec): nat
    requires |row| == 23
  {
    if HammingSyndrome(row[..15]) == Zero(4) then 0 else 1
  }

  ghost function DataErrors(golay: Table, f: Frame): nat
    requires GolayTable(golay) && IsFrame(f)
  {
    GolayErrors(golay, f[1]) + GolayErrors(golay, f[2]) + GolayErrors(golay, f[3])
    + HammingErrors(f[4]) + HammingErrors(f[5]) + HammingErrors(f[6])
  }

  lemma DataParts(golay: Table, hamming: Table, f: Frame)
    requires GolayTable(golay) && HammingTable(hamming) && IsFrame(f)
    ensures var d := DataOf(golay, hamming, f);
      && d[..12] == GolayPart(golay, f, 0) && d[12..24] == GolayPart(golay, f, 1)
      && d[24..36] == GolayPart(golay, f, 2) && d[36..48] == GolayPart(golay, f, 3)
      && d[48..59] == HammingPart(hamming, f, 4) && d[59..70] == HammingPart(hamming, f, 5)
      && d[70..81] == HammingPart(hamming, f, 6) && d[81..] == TailPart(f[7])
  {
    hide GolayPart, HammingPart, TailPart;
  }

  /** The 88 data bits, place by place: twelve from each Golay row from bit 22 down, eleven from each
      Hamming row from bit 14 down, seven from row 7 from bit 6 down. */
  lemma DataBitsInOrder(golay: Table, hamming: Table, f: Frame, i: nat)
    requires GolayTable(golay) && HammingTable(hamming) && IsFrame(f)
    ensures i < 12 ==> DataOf(golay, hamming, f)[i] == f[0][22 - i]
    ensures i < 12 ==> DataOf(golay, hamming, f)[12 + i] == GolayCorrected(golay, f[1])[22 - i]
    ensures i < 12 ==> DataOf(golay, hamming, f)[24 + i] == GolayCorrected(golay, f[2])[22 - i]
    ensures i < 12 ==> DataOf(golay, hamming, f)[36 + i] == GolayCorrected(golay, f[3])[22 - i]
    ensures i < 11 ==> DataOf(golay, hamming, f)[48 + i] == HammingCorrected(hamming, f[4][..15])[14 - i]
    ensures i < 11 ==> DataOf(golay, hamming, f)[59 + i] == HammingCorrected(hamming, f[5][..15])[14 - i]
    ensures i < 11 ==> DataOf(golay, hamming, f)[70 + i] == HammingCorrected(hamming, f[6][..15])[14 - i]
    ensures i < 7 ==> DataOf(golay, hamming, f)[81 + i] == f[7][6 - i]
  {
    hide GolayCorrected, HammingCorrected, DataOf;
    DataParts(golay, hamming, f);
    var d := DataOf(golay, hamming, f);
    assert i < 12 ==> d[12 + i] == d[12..24][i] && d[24 + i] == d[24..36][i] && d[36 + i] == d[36..48][i];
    assert i < 11 ==> d[48 + i] == d[48..59][i] && d[59 + i] == d[59..70][i] && d[70 + i] == d[70..81][i];
  }

  // ---------------------------------------------------------------- the decoder as it runs

  ghost function RowOf(fr: array2<bool>, i: nat): (r: Vec)
    requires fr.Length0 == 8 && fr.Length1 == 23 && i < 8
    reads fr
    ensures |r| == 23
  {
    seq(23, j requires 0 <= j < 23 reads fr => fr[i, j])
  }

  ghost function Rows(fr: array2<bool>): (f: Frame)
    requires fr.Length0 == 8 && fr.Length1 == 23
    reads fr
    ensures IsFrame(f)
  {
    seq(8, i requires 0 <= i < 8 reads fr => RowOf(fr, i))
  }

  lemma RowsAt(fr: array2<bool>)
    requires fr.Length0 == 8 && fr.Length1 == 23
    ensures forall i, k | 0 <= i < 8 && 0 <= k < 23 :: fr[i, k] == Rows(fr)[i][k]
  {
  }

  method EccC0(golay: Table, fr: array2<bool>) returns (errs: nat)
    requires GolayTable(golay) && fr.Length0 == 8 && fr.Length1 == 23
    modifies fr
    ensures Rows(fr) == AfterC0(golay, old(Rows(fr)))
    ensures errs == GolayErrors(golay, old(Rows(fr))[0])
  {
    hide GolayCorrected, GolaySyndrome, Weight;
    ghost var before := Rows(fr);
    RowsAt(fr);
    var input, output := new bool[23], new bool[23];
    for j := 0 to 23
      invariant forall k | 0 <= k < j :: input[k] == before[0][k]
      invariant forall i, k | 0 <= i < 8 && 0 <= k < 23 :: fr[i, k] == before[i][k]
    {
      input[j] := fr[0, j];
    }
    assert input[..] == before[0];
    errs := Golay2312(golay, input, output);
    ghost var out := output[..];
    for j := 0 to 23
      invariant output[..] == out
      invariant forall k | 0 <= k < j :: fr[0, k] == out[k]
      invariant forall i, k | 1 <= i < 8 && 0 <= k < 23 :: fr[i, k] == before[i][k]
    {
      fr[0, j] := output[j];
    }
    assert RowOf(fr, 0) == out;
    forall i | 0 <= i < 8 ensures Rows(fr)[i] == AfterC0(golay, before)[i] {
      if i > 0 { assert RowOf(fr, i) == before[i]; }
    }
  }

  /** The source writes the remainder as a subtraction. */
  lemma GeneratorStep(seed: nat, k: nat)
    ensures Generator(seed, 0) == 16 * seed
    ensures var x := 173 * Generator(seed, k) + 13849; Generator(seed, k + 1) == x - 65536 * (x / 65536)
    ensures Generator(seed, k + 1) / 32768 == if WhiteningBit(seed, k + 1) then 1 else 0
  {
  }

  /** Binary digits, highest first. */
  method ReadNumber(d: Vec) returns (value: nat)
    ensures value == Number(d, |d|)
  {
    value := 0;
    for k := 0 to |d|
      invariant value == Number(d, k)
    {
      value := 2 * value + if d[k] then 1 else 0;
    }
  }

  method WhiteningSequence(d: Vec) returns (pr: array<nat>)
    requires |d| == 12
    ensures fresh(pr) && pr.Length == 115
    ensures forall k | 1 <= k < 115 :: pr[k] == if WhiteningBit(Number(d, 12), k) then 1 else 0
  {
    hide Generator, WhiteningBit;
    var foo := ReadNumber(d);
    pr := new nat[115](_ => 0);
    pr[0] := 16 * foo;
    GeneratorStep(foo, 0);
    for i := 1 to 115
      invariant forall k | 0 <= k < i :: pr[k] == Generator(foo, k)
    {
      GeneratorStep(foo, i - 1);
      pr[i] := 173 * pr[i - 1] + 13849 - 65536 * ((173 * pr[i - 1] + 13849) / 65536);
    }
    for i := 1 to 115
      invariant forall k | 1 <= k < i :: pr[k] == if WhiteningBit(foo, k) then 1 else 0
      invariant forall k | i <= k < 115 :: pr[k] == Generator(foo, k)
    {
      GeneratorStep(foo, i - 1);
      pr[i] := pr[i] / 32768;
    }
  }

  lemma TopTwelve(row: Vec, d: Vec)
    requires |row| == 23 && |d| == 12 && forall i | 0 <= i < 12 :: d[i] == row[22 - i]
    ensures d == GolayData(row)
  {
  }

  method Demodulate(fr: array2<bool>)
    requires fr.Length0 == 8 && fr.Length1 == 23
    modifies fr
    ensures Rows(fr) == AfterWhitening(old(Rows(fr)))
  {
    hide WhiteningBit, GolayData, Number;
    ghost var f := Rows(fr);
    var d: Vec := seq(12, i requires 0 <= i < 12 reads fr => fr[0, 22 - i]);
    ghost var seed := Seed(f[0]);
    assert d == GolayData(f[0]) by { TopTwelve(f[0], d); }
    var pr := WhiteningSequence(d);
    var k := 1;
    for i := 1 to 4
      invariant k == 1 + 23 * (i - 1)
      invariant forall m | 1 <= m < 115 :: pr[m] == if WhiteningBit(seed, m) then 1 else 0
      invariant forall r, j | 0 <= r < 8 && 0 <= j < 23 ::
        fr[r, j] == if 1 <= r < i then f[r][j] != WhiteningBit(seed, WhiteningIndex(r, j)) else f[r][j]
    {
      for c := 0 to 23
        invariant k == 1 + 23 * (i - 1) + c
        invariant forall m | 1 <= m < 115 :: pr[m] == if WhiteningBit(seed, m) then 1 else 0
        invariant forall r, j | 0 <= r < 8 && 0 <= j < 23 ::
          fr[r, j] == if 1 <= r < i || (r == i && j > 22 - c) then f[r][j] != WhiteningBit(seed, WhiteningIndex(r, j)) else f[r][j]
      {
        fr[i, 22 - c] := fr[i, 22 - c] != (pr[k] == 1);
        k := k + 1;
      }
    }
    for i := 4 to 7
      invariant k == 70 + 15 * (i - 4)
      invariant forall m | 1 <= m < 115 :: pr[m] == if WhiteningBit(seed, m) then 1 else 0
      invariant forall r, j | 0 <= r < 8 && 0 <= j < 23 ::
        fr[r, j] == if 1 <= r < 4 || (4 <= r < i && j < 15) then f[r][j] != WhiteningBit(seed, WhiteningIndex(r, j)) else f[r][j]
    {
      for c := 0 to 15
        invariant k == 70 + 15 * (i - 4) + c
        invariant forall m | 1 <= m < 115 :: pr[m] == if WhiteningBit(seed, m) then 1 else 0
        invariant forall r, j | 0 <= r < 8 && 0 <= j < 23 ::
          fr[r, j] == if 1 <= r < 4 || (4 <= r < i && j < 15) || (r == i && 14 - c < j < 15)
                      then f[r][j] != WhiteningBit(seed, WhiteningIndex(r, j)) else f[r][j]
      {
        fr[i, 14 - c] := fr[i, 14 - c] != (pr[k] == 1);
        k := k + 1;
      }
    }
    forall r | 0 <= r < 8 ensures Rows(fr)[r] == AfterWhitening(f)[r] {
      assert RowOf(fr, r) == Xor(f[r], WhiteningRow(seed, r));
    }
  }

  method CorrectGolayRow(golay: Table, fr: array2<bool>, i: nat) returns (errs: nat, data: Vec)
    requires GolayTable(golay) && fr.Length0 == 8 && fr.Length1 == 23 && i < 8
    ensures data == GolayData(GolayCorrected(golay, Rows(fr)[i]))
    ensures errs == GolayErrors(golay, Rows(fr)[i])
  {
    hide GolayCorrected, GolaySyndrome, Weight;
    var input, output := new bool[23], new bool[23];
    for j := 0 to 23
      invariant forall k | 0 <= k < j :: input[k] == fr[i, k]
    {
      input[j] := fr[i, j];
    }
    assert input[..] == Rows(fr)[i];
    errs := Golay2312(golay, input, output);
    data := seq(12, k requires 0 <= k < 12 reads output => output[22 - k]);
    TopTwelve(output[..], data);
  }

  method CorrectHammingRow(hamming: Table, fr: array2<bool>, i: nat) returns (errs: nat, data: Vec)
    requires HammingTable(hamming) && fr.Length0 == 8 && fr.Length1 == 23 && i < 8
    ensures data == HammingPart(hamming, Rows(fr), i)
    ensures errs == HammingErrors(Rows(fr)[i])
  {
    hide HammingCorrected, HammingSyndrome;
    var input, output := new bool[15], new bool[15];
    for j := 0 to 15
      invariant forall k | 0 <= k < j :: input[k] == fr[i, k]
    {
      input[j] := fr[i, j];
    }
    assert input[..] == Rows(fr)[i][..15];
    errs := Hamming1511(hamming, input, output);
    data := seq(11, k requires 0 <= k < 11 reads output => output[14 - k]);
    assert data == HammingData(output[..]);
  }

  /** The data pass over a frame whose c0 is corrected and whose whitening is undone. */
  method EccData(golay: Table, hamming: Table, fr: array2<bool>) returns (errs: nat, data: Vec)
    requires GolayTable(golay) && HammingTable(hamming) && fr.Length0 == 8 && fr.Length1 == 23
    ensures data == DataOf(golay, hamming, Rows(fr))
    ensures errs == DataErrors(golay, Rows(fr))
  {
    hide GolayCorrected, GolayErrors, HammingErrors, HammingPart;
    ghost var f := Rows(fr);
    data := seq(12, k requires 0 <= k < 12 reads fr => fr[0, 22 - k]);
    TopTwelve(f[0], data);
    var e1, d1 := CorrectGolayRow(golay, fr, 1);
    var e2, d2 := CorrectGolayRow(golay, fr, 2);
    var e3, d3 := CorrectGolayRow(golay, fr, 3);
    var e4, d4 := CorrectHammingRow(hamming, fr, 4);
    var e5, d5 := CorrectHammingRow(hamming, fr, 5);
    var e6, d6 := CorrectHammingRow(hamming, fr, 6);
    var tail: Vec := seq(7, k requires 0 <= k < 7 reads fr => fr[7, 6 - k]);
    assert tail == TailPart(f[7]);
    errs := e1 + e2 + e3 + e4 + e5 + e6;
    data := data + d1 + d2 + d3 + d4 + d5 + d6 + tail;
  }

  ghost function Decoded(golay: Table, hamming: Table, f: Frame): Vec
    requires GolayTable(golay) && HammingTable(hamming) && IsFrame(f)
  {
    DataOf(golay, hamming, AfterWhitening(AfterC0(golay, f)))
  }

  /** The error counts of a frame: c0's alone, and the total. */
  method ProcessFrame(golay: Table, hamming: Table, fr: array2<bool>) returns (errs: nat, errs2: nat, data: Vec)
    requires GolayTable(golay) && HammingTable(hamming) && fr.Length0 == 8 && fr.Length1 == 23
    modifies fr
    ensures data == Decoded(golay, hamming, old(Rows(fr)))
    ensures errs == GolayErrors(golay, old(Rows(fr))[0])
    ensures errs2 == errs + DataErrors(golay, AfterWhitening(AfterC0(golay, old(Rows(fr)))))
  {
    hide AfterC0, AfterWhitening, DataOf, DataErrors, GolayErrors;
    errs := EccC0(golay, fr);
    Demodulate(fr);
    var more;
    more, data := EccData(golay, hamming, fr);
    errs2 := errs + more;
  }

  // ---------------------------------------------------------------- the transmitter

  function Padded(v: Vec): (w: Vec)
    requires |v| <= 23
    ensures |w| == 23
  {
    v + Zero(23 - |v|)
  }

  /** Row i of the frame before whitening. */
  function CodeRow(u: Vec, i: nat): (w: Vec)
    requires |u| == 88 && i < 8
    ensures |w| == 23
  {
    if i < 4 then GolayEncode(u[12 * i..12 * i + 12])
    else if i < 7 then Padded(HammingEncode(u[48 + 11 * (i - 4)..48 + 11 * (i - 4) + 11]))
    else Padded(seq(7, j requires 0 <= j < 7 => u[87 - j]))
  }

  /** A transmitted frame: each row encoded, rows 1 to 6 whitened from the data in c0. */
  function EncodeFrame(u: Vec): (f: Frame)
    requires |u| == 88
    ensures |f| == 8 && forall i | 0 <= i < 8 :: |f[i]| == 23
  {
    seq(8, i requires 0 <= i < 8 => Xor(CodeRow(u, i), WhiteningRow(Number(u[..12], 12), i)))
  }

  ghost function WithErrors(f: Frame, e: Frame): (r: Frame)
    requires IsFrame(f) && IsFrame(e)
    ensures IsFrame(r)
  {
    seq(8, i requires 0 <= i < 8 => Xor(f[i], e[i]))
  }

  /** What decoding leaves on the 88 data bits, as a function of the error pattern alone. */
  ghost function Residual(golay: Table, hamming: Table, e: Frame): (r: Vec)
    requires GolayTable(golay) && HammingTable(hamming) && IsFrame(e)
    ensures |r| == 88
  {
    GolayResidual(golay, e[0]) + GolayResidual(golay, e[1]) + GolayResidual(golay, e[2]) + GolayResidual(golay, e[3])
    + HammingResidual(hamming, e[4][..15]) + HammingResidual(hamming, e[5][..15]) + HammingResidual(hamming, e[6][..15])
    + TailPart(e[7])
  }

  lemma NoWhiteningOn0And7(seed: nat, i: nat)
    requires i == 0 || i == 7
    ensures WhiteningRow(seed, i) == Zero(23)
  {
  }

  /** c0 is sent as encoded, so correcting it always leaves data XOR residual. */
  lemma FirstPart(golay: Table, u: Vec, e: Frame)
    requires GolayTable(golay) && |u| == 88 && IsFrame(e)
    ensures var f := WithErrors(EncodeFrame(u), e);
      && f[0] == Xor(GolayEncode(u[..12]), e[0])
      && GolayData(AfterC0(golay, f)[0]) == Xor(u[..12], GolayResidual(golay, e[0]))
      && GolayErrors(golay, f[0]) == GolayErrors(golay, e[0])
  {
    hide GolayCorrected, GolaySyndrome, GolayEncode, GolayResidual, WhiteningRow;
    NoWhiteningOn0And7(Number(u[..12], 12), 0);
    XorZero(CodeRow(u, 0));
    GolayTransparent(golay, u[..12], e[0]);
  }

  /** When c0 comes out right the receiver whitens with the sender's sequence, and every other
      row is left with its code word XOR its error. */
  lemma WhiteningCancels(golay: Table, u: Vec, e: Frame, i: nat)
    requires GolayTable(golay) && |u| == 88 && IsFrame(e) && 1 <= i < 8
    requires GolayResidual(golay, e[0]) == Zero(12)
    ensures AfterWhitening(AfterC0(golay, WithErrors(EncodeFrame(u), e)))[i] == Xor(CodeRow(u, i), e[i])
  {
    hide GolayCorrected, GolayResidual, CodeRow, WhiteningRow, Number;
    FirstPart(golay, u, e);
    XorZero(u[..12]);
    var f := WithErrors(EncodeFrame(u), e);
    var seed := Number(u[..12], 12);
    assert Seed(AfterC0(golay, f)[0]) == seed;
    var x, w := CodeRow(u, i), WhiteningRow(seed, i);
    assert Xor(Xor(Xor(x, w), e[i]), w) == Xor(x, e[i]);
  }

  lemma HammingRowPart(hamming: Table, d: Vec, e: Vec)
    requires HammingTable(hamming) && |d| == 11 && |e| == 23
    ensures HammingData(HammingCorrected(hamming, Xor(Padded(HammingEncode(d)), e)[..15]))
         == Xor(d, HammingResidual(hamming, e[..15]))
    ensures HammingErrors(Xor(Padded(HammingEncode(d)), e)) == HammingErrors(e)
  {
    hide HammingEncode, HammingCorrected, HammingSyndrome, HammingResidual;
    assert Xor(Padded(HammingEncode(d)), e)[..15] == Xor(HammingEncode(d), e[..15]);
    HammingTransparent(hamming, d, e[..15]);
  }

  lemma C0Kept(golay: Table, f: Frame)
    requires GolayTable(golay) && IsFrame(f)
    ensures GolayData(AfterWhitening(AfterC0(golay, f))[0]) == GolayData(AfterC0(golay, f)[0])
  {
    hide GolayCorrected, WhiteningRow, GolayData;
    var r := AfterC0(golay, f);
    NoWhiteningOn0And7(Seed(r[0]), 0);
    XorZero(r[0]);
  }

  lemma TailTransparent(u: Vec, e: Vec)
    requires |u| == 88 && |e| == 23
    ensures TailPart(Xor(CodeRow(u, 7), e)) == Xor(u[81..], TailPart(e))
  {
  }

  lemma JoinSlice(u: Vec, r: Vec, d: Vec, lo: nat, hi: nat)
    requires |u| == |r| == |d| == 88 && lo <= hi <= 88
    requires d[lo..hi] == Xor(u[lo..hi], r[lo..hi])
    ensures forall i | lo <= i < hi :: d[i] == (u[i] != r[i])
  {
    forall i | lo <= i < hi ensures d[i] == (u[i] != r[i]) {
      assert d[lo..hi][i - lo] == d[i] && u[lo..hi][i - lo] == u[i] && r[lo..hi][i - lo] == r[i];
    }
  }

  /** Eight part-wise equations make one equation on 88 bits. */
  lemma JoinParts(u: Vec, r: Vec, d: Vec)
    requires |u| == |r| == |d| == 88
    requires d[..12] == Xor(u[..12], r[..12]) && d[12..24] == Xor(u[12..24], r[12..24])
    requires d[24..36] == Xor(u[24..36], r[24..36]) && d[36..48] == Xor(u[36..48], r[36..48])
    requires d[48..59] == Xor(u[48..59], r[48..59]) && d[59..70] == Xor(u[59..70], r[59..70])
    requires d[70..81] == Xor(u[70..81], r[70..81]) && d[81..] == Xor(u[81..], r[81..])
    ensures d == Xor(u, r)
  {
    JoinSlice(u, r, d, 0, 12);
    JoinSlice(u, r, d, 12, 24);
    JoinSlice(u, r, d, 24, 36);
    JoinSlice(u, r, d, 36, 48);
    JoinSlice(u, r, d, 48, 59);
    JoinSlice(u, r, d, 59, 70);
    JoinSlice(u, r, d, 70, 81);
    JoinSlice(u, r, d, 81, 88);
  }

  /** The whole frame is transparent. For any 88 data bits, any correction tables and any errors
      that leave c0 right, decoding gives the data XOR a residual, and both the residual and the
      error counts are functions of the error pattern alone. */
  lemma FrameTransparent(golay: Table, hamming: Table, u: Vec, e: Frame)
    requires GolayTable(golay) && HammingTable(hamming) && |u| == 88 && IsFrame(e)
    requires GolayResidual(golay, e[0]) == Zero(12)
    ensures Decoded(golay, hamming, WithErrors(EncodeFrame(u), e)) == Xor(u, Residual(golay, hamming, e))
    ensures GolayErrors(golay, WithErrors(EncodeFrame(u), e)[0]) == GolayErrors(golay, e[0])
    ensures DataErrors(golay, AfterWhitening(AfterC0(golay, WithErrors(EncodeFrame(u), e)))) == DataErrors(golay, e)
  {
    hide GolayCorrected, GolayResidual, GolayEncode, GolaySyndrome, HammingEncode, HammingResidual, HammingCorrected,
      HammingErrors, EncodeFrame, AfterWhitening, AfterC0, WithErrors, Weight;
    var f := WithErrors(EncodeFrame(u), e);
    var g := AfterWhitening(AfterC0(golay, f));
    FirstPart(golay, u, e);
    C0Kept(golay, f);
    forall i | 1 <= i < 8 ensures g[i] == Xor(CodeRow(u, i), e[i]) {
      WhiteningCancels(golay, u, e, i);
    }
    GolayTransparent(golay, u[12..24], e[1]);
    GolayTransparent(golay, u[24..36], e[2]);
    GolayTransparent(golay, u[36..48], e[3]);
    HammingRowPart(hamming, u[48..59], e[4]);
    HammingRowPart(hamming, u[59..70], e[5]);
    HammingRowPart(hamming, u[70..81], e[6]);
    TailTransparent(u, e[7]);
    JoinParts(u, Residual(golay, hamming, e), DataOf(golay, hamming, g));
  }

  /** Decoding gives back the sent data if and only if the residual of the error pattern is zero,
      whatever the data: with a wrong c0 the first twelve bits are already wrong. */
  lemma DecodesExactlyWhenResidualIsZero(golay: Table, hamming: Table, u: Vec, e: Frame)
    requires GolayTable(golay) && HammingTable(hamming) && |u| == 88 && IsFrame(e)
    ensures Decoded(golay, hamming, WithErrors(EncodeFrame(u), e)) == u
       <==> Residual(golay, hamming, e) == Zero(88)
  {
    hide GolayCorrected, GolayEncode, GolayResidual, HammingResidual, EncodeFrame, WithErrors, AfterWhitening, AfterC0,
      HammingPart;
    var f := WithErrors(EncodeFrame(u), e);
    var d, r := Decoded(golay, hamming, f), Residual(golay, hamming, e);
    FirstPart(golay, u, e);
    C0Kept(golay, f);
    var r0 := GolayResidual(golay, e[0]);
    assert d[..12] == Xor(u[..12], r0) && r[..12] == r0;
    XorZero(u);
    if d == u {
      XorCancel(u[..12], r0);
      XorZero(u[..12]);
    }
    if r == Zero(88) { assert r0 == Zero(12); }
    if r0 == Zero(12) {
      FrameTransparent(golay, hamming, u, e);
      XorCancel(u, r);
    }
  }

  lemma {:induction false} NoDataNoParity(k: nat)
    requires k <= 12
    ensures GolayParity(Zero(12), k) == Zero(11)
  {
    if k > 0 { NoDataNoParity(k - 1); }
  }

  lemma CleanWord(golay: Table, hamming: Table)
    requires GolayTable(golay) && HammingTable(hamming) && golay(Zero(11)) == Zero(12)
    ensures GolaySyndrome(Zero(23)) == Zero(11) && GolayErrors(golay, Zero(23)) == 0
    ensures GolayResidual(golay, Zero(23)) == Zero(12)
    ensures HammingSyndrome(Zero(15)) == Zero(4) && HammingErrors(Zero(23)) == 0
    ensures HammingResidual(hamming, Zero(15)) == Zero(11)
    ensures TailPart(Zero(23)) == Zero(7)
  {
    hide Bits, Parity;
    var z := Zero(23);
    assert GolayData(z) == Zero(12);
    NoDataNoParity(12);
    assert GolayChecks(z) == Zero(11);
    XorZero(Zero(11));
    XorZero(Zero(12));
    WeightZero(12);
    assert z[..15] == Zero(15);
    forall i | 0 <= i < 4 ensures !HammingSyndrome(Zero(15))[i] {
      ParityZero(Bits(HAMMING_GENERATOR[i], 15), 15);
    }
    assert HammingSyndrome(Zero(15)) == Zero(4);
    assert HammingData(Zero(15)) == Zero(11);
  }

  /** Without errors the decoder inverts the encoder and counts nothing. All this takes from the
      tables is that the clean syndrome corrects nothing. */
  lemma CleanRoundTrip(golay: Table, hamming: Table, u: Vec, e: Frame)
    requires GolayTable(golay) && HammingTable(hamming) && |u| == 88
    requires golay(Zero(11)) == Zero(12)
    requires IsFrame(e) && forall i | 0 <= i < 8 :: e[i] == Zero(23)
    ensures WithErrors(EncodeFrame(u), e) == EncodeFrame(u)
    ensures Decoded(golay, hamming, EncodeFrame(u)) == u
    ensures GolayErrors(golay, EncodeFrame(u)[0]) == 0
    ensures DataErrors(golay, AfterWhitening(AfterC0(golay, EncodeFrame(u)))) == 0
  {
    hide GolayCorrected, GolayEncode, HammingEncode, AfterWhitening, AfterC0;
    var f := EncodeFrame(u);
    forall i | 0 <= i < 8 ensures WithErrors(f, e)[i] == f[i] {
      XorZero(f[i]);
    }
    assert WithErrors(f, e) == f;
    CleanWord(golay, hamming);
    assert Zero(23)[..15] == Zero(15);
    assert Residual(golay, hamming, e) == Zero(88);
    FrameTransparent(golay, hamming, u, e);
    DecodesExactlyWhenResidualIsZero(golay, hamming, u, e);
  }
}
