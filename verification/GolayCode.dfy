/** What the twelve generator rows are for: the words of syndrome zero are the multiples of one
    polynomial. Bit j of a word is the coefficient of x^j, and 0xC75 stands for
    x^11 + x^10 + x^6 + x^5 + x^4 + x^2 + 1. The division below knows nothing of the rows. */
module GolayCode {
  import opened Gf2
  import opened Ecc

  // ---------------------------------------------------------------- division by shift and reduce

  /** A remainder times x: shift up, and take the divisor off when a bit leaves the top. */
  function TimesX(r: Vec): (s: Vec)
    requires |r| == 11
    ensures |s| == 11
  {
    seq(11, j requires 0 <= j < 11 => (j > 0 && r[j - 1]) != (r[10] && BitOf(0xC75, j)))
  }

  function AddLow(r: Vec, bit: bool): (s: Vec)
    requires |r| == 11
    ensures |s| == 11
  {
    r[0 := r[0] != bit]
  }

  /** The remainder of the k highest bits of a word, taken in from the top. */
  function RemainderOfTop(w: Vec, k: nat): (r: Vec)
    requires |w| == 23 && k <= 23
    ensures |r| == 11
  {
    if k == 0 then Zero(11) else AddLow(TimesX(RemainderOfTop(w, k - 1)), w[23 - k])
  }

  function Remainder(w: Vec): (r: Vec)
    requires |w| == 23
    ensures |r| == 11
  {
    RemainderOfTop(w, 23)
  }

  lemma {:induction false} RemainderXor(a: Vec, b: Vec, k: nat)
    requires |a| == |b| == 23 && k <= 23
    ensures RemainderOfTop(Xor(a, b), k) == Xor(RemainderOfTop(a, k), RemainderOfTop(b, k))
  {
    hide BitOf;
    if k > 0 {
      RemainderXor(a, b, k - 1);
      var r, s := RemainderOfTop(a, k - 1), RemainderOfTop(b, k - 1);
      assert TimesX(Xor(r, s)) == Xor(TimesX(r), TimesX(s));
    } else {
      XorZero(Zero(11));
    }
  }

  // ---------------------------------------------------------------- powers of x

  function Power(j: nat): (r: Vec)
    ensures |r| == 11
  {
    if j == 0 then Unit(11, 0) else TimesX(Power(j - 1))
  }

  /** Nothing comes out before the single bit of a unit word goes in; then it is a power of x. */
  lemma {:induction false} UnitRemainder(j: nat, k: nat)
    requires j < 23 && k <= 23
    ensures RemainderOfTop(Unit(23, j), k) == if k + j < 23 then Zero(11) else Power(k + j - 23)
  {
    hide BitOf;
    if k > 0 {
      UnitRemainder(j, k - 1);
      assert TimesX(Zero(11)) == Zero(11);
      assert AddLow(Zero(11), true) == Unit(11, 0);
      if k + j > 23 { assert AddLow(Power(k + j - 23), false) == Power(k + j - 23); }
      if k + j < 23 { assert AddLow(Zero(11), false) == Zero(11); }
    }
  }

  lemma {:induction false} LowPower(j: nat)
    requires j < 11
    ensures Power(j) == Unit(11, j)
  {
    hide BitOf;
    if j > 0 {
      LowPower(j - 1);
      assert TimesX(Unit(11, j - 1)) == Unit(11, j);
    }
  }

  /** The lowest k bits of z are those of x XOR y. */
  predicate XorBits(x: nat, y: nat, z: nat, k: nat)
    decreases k
  {
    k == 0 || ((z % 2 == 1) == ((x % 2 == 1) != (y % 2 == 1)) && XorBits(x / 2, y / 2, z / 2, k - 1))
  }

  lemma {:induction false} XorBitsAt(x: nat, y: nat, z: nat, k: nat, j: nat)
    requires XorBits(x, y, z, k) && j < k
    ensures BitOf(z, j) == (BitOf(x, j) != BitOf(y, j))
    decreases k
  {
    if j > 0 { XorBitsAt(x / 2, y / 2, z / 2, k - 1, j - 1); }
  }

  lemma DoubledBit(u: nat, j: nat)
    ensures BitOf(2 * u, j) == (j > 0 && BitOf(u, j - 1))
  {
    if j > 0 { assert BitOf(2 * u, j) == BitOf(2 * u / 2, j - 1); }
  }

  lemma TopBit(u: nat)
    requires u < 2048
    ensures BitOf(u, 10) <==> u >= 1024
  {
    FourDown(u, 10);
    FourDown(u / 16, 6);
    assert BitOf(u / 16 / 16, 2) == BitOf(u / 16 / 16 / 2 / 2, 0);
  }

  /** A row with its top bit set is followed by its double with the divisor taken off. */
  lemma NextReduced(u: nat, v: nat, j: nat)
    requires 1024 <= u < 2048 && XorBits(2 * u, 0xC75, v, 11) && Power(j) == Bits(u, 11)
    ensures Power(j + 1) == Bits(v, 11)
  {
    hide BitOf, XorBits;
    TopBit(u);
    forall k | 0 <= k < 11 ensures Power(j + 1)[k] == BitOf(v, k) {
      DoubledBit(u, k);
      XorBitsAt(2 * u, 0xC75, v, 11, k);
    }
  }

  /** A row without its top bit is followed by its double. */
  lemma NextDoubled(u: nat, j: nat)
    requires u < 1024 && Power(j) == Bits(u, 11)
    ensures Power(j + 1) == Bits(2 * u, 11)
  {
    hide BitOf;
    TopBit(u);
    forall k | 0 <= k < 11 ensures Power(j + 1)[k] == BitOf(2 * u, k) {
      DoubledBit(u, k);
    }
  }

  lemma TopPower()
    ensures Power(10) == Bits(0x400, 11)
  {
    hide Power, Pow2, BitOf;
    LowPower(10);
    Powers(11);
    forall j | 0 <= j < 11 ensures Unit(11, 10)[j] == BitOf(0x400, j) {
      PowerBit(10, j);
    }
  }

  lemma LowerSteps()
    ensures XorBits(2 * 0x400, 0xC75, 0x475, 11) && XorBits(2 * 0x475, 0xC75, 0x49f, 11)
    ensures XorBits(2 * 0x49f, 0xC75, 0x54b, 11) && XorBits(2 * 0x54b, 0xC75, 0x6e3, 11)
  {
    assert XorBits(0x800, 0xC75, 0x475, 11);
    assert XorBits(0x8ea, 0xC75, 0x49f, 11);
    assert XorBits(0x93e, 0xC75, 0x54b, 11);
    assert XorBits(0xa96, 0xC75, 0x6e3, 11);
  }

  lemma UpperSteps()
    ensures XorBits(2 * 0x6e3, 0xC75, 0x1b3, 11) && XorBits(2 * 0x6cc, 0xC75, 0x1ed, 11)
    ensures XorBits(2 * 0x7b4, 0xC75, 0x31d, 11)
  {
    assert XorBits(0xdc6, 0xC75, 0x1b3, 11);
    assert XorBits(0xd98, 0xC75, 0x1ed, 11);
    assert XorBits(0xf68, 0xC75, 0x31d, 11);
  }

  /** Row i of the generator is x^(22 - i) reduced by 0xC75. */
  lemma RowsArePowers()
    ensures forall i | 0 <= i < 12 :: Bits(GOLAY_GENERATOR[i], 11) == Power(22 - i)
  {
    hide Power, Bits, XorBits;
    TopPower();
    LowerSteps();
    UpperSteps();
    NextReduced(0x400, 0x475, 10);
    NextReduced(0x475, 0x49f, 11);
    NextReduced(0x49f, 0x54b, 12);
    NextReduced(0x54b, 0x6e3, 13);
    NextReduced(0x6e3, 0x1b3, 14);
    NextDoubled(0x1b3, 15);
    NextDoubled(0x366, 16);
    NextReduced(0x6cc, 0x1ed, 17);
    NextDoubled(0x1ed, 18);
    NextDoubled(0x3da, 19);
    NextReduced(0x7b4, 0x31d, 20);
    NextDoubled(0x31d, 21);
  }

  // ---------------------------------------------------------------- the syndrome is the remainder

  /** Only the first k data bits, and no parity. */
  function DataOnly(d: Vec, k: nat): (w: Vec)
    requires |d| == 12 && k <= 12
    ensures |w| == 23
  {
    seq(23, j requires 0 <= j < 23 => j >= 23 - k && d[22 - j])
  }

  lemma {:induction false} NoRemainder(w: Vec, k: nat)
    requires |w| == 23 && k <= 23 && forall j | 23 - k <= j < 23 :: !w[j]
    ensures RemainderOfTop(w, k) == Zero(11)
  {
    hide BitOf;
    if k > 0 { NoRemainder(w, k - 1); }
  }

  lemma {:induction false} DataRemainder(d: Vec, k: nat)
    requires |d| == 12 && k <= 12
    ensures Remainder(DataOnly(d, k)) == GolayParity(d, k)
  {
    hide RemainderOfTop, Power, Bits;
    if k == 0 {
      NoRemainder(DataOnly(d, 0), 23);
    } else {
      DataRemainder(d, k - 1);
      if d[k - 1] {
        var unit := Unit(23, 23 - k);
        assert DataOnly(d, k) == Xor(DataOnly(d, k - 1), unit);
        RemainderXor(DataOnly(d, k - 1), unit, 23);
        UnitRemainder(23 - k, 23);
        RowsArePowers();
      } else {
        assert DataOnly(d, k) == DataOnly(d, k - 1);
      }
    }
  }

  /** Eleven low bits are their own remainder: they come in without ever reaching the top. */
  lemma {:induction false} ChecksRemainder(w: Vec, m: nat)
    requires |w| == 23 && m <= 11 && forall j | 11 <= j < 23 :: !w[j]
    ensures RemainderOfTop(w, 12 + m) == seq(11, j requires 0 <= j < 11 => j < m && w[11 - m + j])
  {
    hide BitOf;
    if m == 0 {
      NoRemainder(w, 12);
    } else {
      ChecksRemainder(w, m - 1);
      var r, s := RemainderOfTop(w, 11 + m), RemainderOfTop(w, 12 + m);
      assert !r[10];
      forall j | 0 <= j < 11 ensures s[j] == (j < m && w[11 - m + j]) {
      }
    }
  }

  /** For every word the syndrome is the remainder on division by 0xC75, so the words of syndrome
      zero are exactly the multiples of that polynomial. */
  lemma SyndromeIsRemainder(w: Vec)
    requires |w| == 23
    ensures GolaySyndrome(w) == Remainder(w)
  {
    hide GolayParity, RemainderOfTop;
    var d, low := DataOnly(GolayData(w), 12), w[..11] + Zero(12);
    assert w == Xor(d, low);
    RemainderXor(d, low, 23);
    DataRemainder(GolayData(w), 12);
    ChecksRemainder(low, 11);
    assert RemainderOfTop(low, 23) == GolayChecks(w);
  }

  /** The code words are exactly the multiples of 0xC75. */
  lemma CodewordsAreMultiples(w: Vec)
    requires |w| == 23
    ensures Remainder(w) == Zero(11) <==> exists d: Vec :: |d| == 12 && w == GolayEncode(d)
  {
    hide GolayParity, Remainder;
    SyndromeIsRemainder(w);
    var d := GolayData(w);
    var p, c := GolayParity(d, 12), GolayChecks(w);
    XorCancel(p, c);
    XorZero(p);
    assert w == GolayWord(d, c);
    if Remainder(w) == Zero(11) {
      assert w == GolayEncode(d);
    }
    if e: Vec :| |e| == 12 && w == GolayEncode(e) {
      GolayEncodedParts(e);
    }
  }

  /** Correction, bit by bit: the table's answer to the remainder falls on the data bits from bit 22
      down, and the eleven parity bits stay as received. */
  lemma CorrectedBits(golay: Table, w: Vec, j: nat)
    requires GolayTable(golay) && |w| == 23 && j < 23
    ensures GolayCorrected(golay, w)[j] == if j < 11 then w[j] else (w[j] != golay(Remainder(w))[22 - j])
  {
    hide GolaySyndrome, Remainder;
    SyndromeIsRemainder(w);
  }
}
