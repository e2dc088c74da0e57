/** The 174-bit word as it is stored: three 64-bit words, eighteen padding bits. Each operation is
    proved to do to the packed form what the vector operations do to the word it stands for. */
module PackedBits {
  import opened Gf2

  const WORDS := 3

  type Word = bv64

  /** 1 shifted left k times. */
  function Mask(k: nat): Word {
    if k == 0 then 1 else Mask(k - 1) << 1
  }

  function AndWord(a: Word, b: Word): Word { a & b }

  function XorWord(a: Word, b: Word): Word { a ^ b }

  predicate Test(w: Word, k: nat) {
    AndWord(w, Mask(k)) != 0
  }

  function With(w: Word, m: Word, value: bool): Word {
    if value then w | m else w & !m
  }

  // ---------------------------------------------------------------- single bits

  lemma {:induction false} ZeroMaskStays(j: nat, k: nat)
    requires j <= k && Mask(j) == 0
    ensures Mask(k) == 0
  {
    if j < k { ZeroMaskStays(j, k - 1); }
  }

  lemma OneUp(k: nat)
    ensures Mask(k + 1) == Mask(k) << 1
  {
  }

  lemma ThreeUp(k: nat)
    ensures Mask(k + 3) == Mask(k) << 3
  {
    hide Mask;
    OneUp(k);
    OneUp(k + 1);
    OneUp(k + 2);
  }

  lemma NineUp(k: nat)
    ensures Mask(k + 9) == Mask(k) << 9
  {
    hide Mask;
    ThreeUp(k);
    ThreeUp(k + 3);
    ThreeUp(k + 6);
  }

  lemma TopMask()
    ensures Mask(63) == 0x8000_0000_0000_0000
  {
    assert Mask(0) == 1;
    NineUp(0);
    NineUp(9);
    NineUp(18);
    NineUp(27);
    NineUp(36);
    NineUp(45);
    NineUp(54);
  }

  lemma ShiftedMeet(a: Word, b: Word)
    ensures AndWord(a << 1, b << 1) == AndWord(a, b) << 1
    ensures AndWord(1, b << 1) == 0 && AndWord(b << 1, 1) == 0
  {
  }

  lemma {:induction false} MasksApart(i: nat, j: nat)
    requires i != j
    ensures AndWord(Mask(i), Mask(j)) == 0
  {
    hide AndWord;
    if i == 0 {
      ShiftedMeet(0, Mask(j - 1));
    } else if j == 0 {
      ShiftedMeet(0, Mask(i - 1));
    } else {
      MasksApart(i - 1, j - 1);
      ShiftedMeet(Mask(i - 1), Mask(j - 1));
    }
  }

  lemma MaskNonzero(k: nat)
    requires k < 64
    ensures Mask(k) != 0
  {
    TopMask();
    if Mask(k) == 0 { ZeroMaskStays(k, 63); }
  }

  lemma TestsUp(w: Word, m: Word)
    requires AndWord(w >> 1, m) != 0
    ensures AndWord(w, m << 1) != 0
  {
  }

  lemma TestsDown(w: Word, m: Word)
    requires AndWord(w, m << 1) != 0
    ensures AndWord(w >> 1, m) != 0
  {
  }

  /** Testing bit k is testing bit k - 1 of the word shifted down. */
  lemma TestShifted(w: Word, k: nat)
    requires k > 0
    ensures Test(w, k) == Test(w >> 1, k - 1)
  {
    hide AndWord;
    if Test(w, k) { TestsDown(w, Mask(k - 1)); }
    if Test(w >> 1, k - 1) { TestsUp(w, Mask(k - 1)); }
  }

  lemma LowBit(a: Word)
    ensures Test(a, 0) == (a & 1 != 0)
  {
  }

  lemma LowBitOfXor(a: Word, b: Word)
    ensures Test(a ^ b, 0) == (Test(a, 0) != Test(b, 0))
  {
    hide AndWord;
    LowBit(a);
    LowBit(b);
    LowBit(a ^ b);
    assert ((a ^ b) & 1 != 0) == ((a & 1 != 0) != (b & 1 != 0));
  }

  lemma LowBitOfAnd(a: Word, b: Word)
    ensures Test(a & b, 0) == (Test(a, 0) && Test(b, 0))
  {
    hide AndWord;
    LowBit(a);
    LowBit(b);
    LowBit(a & b);
    assert ((a & b) & 1 != 0) == ((a & 1 != 0) && (b & 1 != 0));
  }

  lemma XorUnfold(a: Word, b: Word)
    ensures XorWord(a, b) == a ^ b
  {
  }

  lemma XorWordDown(a: Word, b: Word)
    ensures XorWord(a, b) >> 1 == XorWord(a >> 1, b >> 1)
  {
    hide XorWord;
    XorUnfold(a, b);
    XorUnfold(a >> 1, b >> 1);
  }

  lemma AndWordDown(a: Word, b: Word)
    ensures AndWord(a, b) >> 1 == AndWord(a >> 1, b >> 1)
  {
  }

  lemma XorWordLow(a: Word, b: Word)
    ensures Test(XorWord(a, b), 0) == (Test(a, 0) != Test(b, 0))
  {
    hide Test;
    LowBitOfXor(a, b);
  }

  lemma AndWordLow(a: Word, b: Word)
    ensures Test(AndWord(a, b), 0) == (Test(a, 0) && Test(b, 0))
  {
    hide Test;
    LowBitOfAnd(a, b);
  }

  lemma {:induction false} XorBit(a: Word, b: Word, k: nat)
    ensures Test(XorWord(a, b), k) == (Test(a, k) != Test(b, k))
  {
    hide Test, XorWord;
    if k == 0 {
      XorWordLow(a, b);
    } else {
      TestShifted(XorWord(a, b), k);
      TestShifted(a, k);
      TestShifted(b, k);
      XorWordDown(a, b);
      XorBit(a >> 1, b >> 1, k - 1);
    }
  }

  lemma {:induction false} AndBit(a: Word, b: Word, k: nat)
    ensures Test(AndWord(a, b), k) == (Test(a, k) && Test(b, k))
  {
    hide Test, AndWord;
    if k == 0 {
      AndWordLow(a, b);
    } else {
      TestShifted(AndWord(a, b), k);
      TestShifted(a, k);
      TestShifted(b, k);
      AndWordDown(a, b);
      AndBit(a >> 1, b >> 1, k - 1);
    }
  }

  lemma WithSame(w: Word, m: Word, value: bool)
    requires m != 0
    ensures (AndWord(With(w, m, value), m) != 0) == value
  {
    if value {
      assert (w | m) & m == m;
    } else {
      assert (w & !m) & m == 0;
    }
  }

  lemma WithOther(w: Word, m: Word, o: Word, value: bool)
    requires AndWord(m, o) == 0
    ensures AndWord(With(w, m, value), o) == AndWord(w, o)
  {
  }

  /** Writing bit k changes that bit and no other. */
  lemma WithBit(w: Word, k: nat, value: bool, i: nat)
    requires k < 64 && i < 64
    ensures Test(With(w, Mask(k), value), i) == if i == k then value else Test(w, i)
  {
    hide With, Mask, AndWord;
    if i == k {
      MaskNonzero(k);
      WithSame(w, Mask(k), value);
    } else {
      MasksApart(k, i);
      WithOther(w, Mask(k), Mask(i), value);
    }
  }

  // ---------------------------------------------------------------- whole words

  /** Parity of the number of set bits among the first k: what the source takes from a population
      count. */
  predicate OddOnes(w: Word, k: nat)
    requires k <= 64
  {
    if k == 0 then false else OddOnes(w, k - 1) != Test(w, k - 1)
  }

  predicate BitAt(words: seq<Word>, i: nat)
    requires |words| == WORDS && i < 64 * WORDS
  {
    Test(words[i / 64], i % 64)
  }

  /** The word that the packed form stands for. */
  function Unpacked(words: seq<Word>): (v: Vec)
    requires |words| == WORDS
    ensures |v| == BITS
  {
    seq(BITS, i requires 0 <= i < BITS => BitAt(words, i))
  }

  /** The padding bits are clear. Population counts run over them, so this has to be kept. */
  ghost predicate PaddingClear(words: seq<Word>) {
    |words| == WORDS && forall i | BITS <= i < 64 * WORDS :: !BitAt(words, i)
  }

  /** The product read off the packed words, words before w in full and k bits of word w. */
  ghost predicate PackedParity(a: seq<Word>, b: seq<Word>, w: nat, k: nat)
    requires |a| == |b| == WORDS && w <= WORDS && k <= 64 && (w == WORDS ==> k == 0)
    decreases w, k
  {
    if k > 0 then PackedParity(a, b, w, k - 1) != (Test(a[w], k - 1) && Test(b[w], k - 1))
    else if w > 0 then PackedParity(a, b, w - 1, 64)
    else false
  }

  lemma {:induction false} PackedIsParity(a: seq<Word>, b: seq<Word>, w: nat, k: nat)
    requires PaddingClear(a) && PaddingClear(b) && w <= WORDS && k <= 64 && (w == WORDS ==> k == 0)
    ensures PackedParity(a, b, w, k)
         == var i := 64 * w + k; Parity(Unpacked(a), Unpacked(b), if i < BITS then i else BITS)
    decreases w, k
  {
    hide Test;
    if k > 0 {
      PackedIsParity(a, b, w, k - 1);
      var i := 64 * w + (k - 1);
      assert i / 64 == w && i % 64 == k - 1;
      assert BitAt(a, i) == Test(a[w], k - 1);
    } else if w > 0 {
      PackedIsParity(a, b, w - 1, 64);
    }
  }

  lemma {:induction false} OddOnesOfAnd(a: seq<Word>, b: seq<Word>, w: nat, k: nat)
    requires |a| == |b| == WORDS && w < WORDS && k <= 64
    ensures PackedParity(a, b, w, k) == (PackedParity(a, b, w, 0) != OddOnes(AndWord(a[w], b[w]), k))
  {
    hide Test, AndWord;
    if k > 0 {
      OddOnesOfAnd(a, b, w, k - 1);
      AndBit(a[w], b[w], k - 1);
    }
  }

  // ---------------------------------------------------------------- the stored word

  lemma AndWithZero(x: Word)
    ensures AndWord(0, x) == 0
  {
  }

  lemma ClearWords(words: seq<Word>)
    requires |words| == WORDS && forall w | 0 <= w < WORDS :: words[w] == 0
    ensures PaddingClear(words) && Unpacked(words) == Zero(BITS)
  {
    hide Mask, AndWord;
    forall i: nat | i < 64 * WORDS ensures !BitAt(words, i) {
      AndWithZero(Mask(i % 64));
    }
  }

  class Bits174 {
    const words: array<Word>

    ghost predicate Valid()
      reads this, words
    {
      words.Length == WORDS && PaddingClear(words[..])
    }

    function Contents(): (v: Vec)
      requires Valid()
      reads this, words
      ensures |v| == BITS
    {
      Unpacked(words[..])
    }

    constructor ()
      ensures Valid() && fresh(words) && words.Length == 3 && Contents() == Zero(174)
    {
      words := new Word[WORDS](_ => 0);
      new;
      ClearWords(words[..]);
    }

    method Get(bit: nat) returns (value: bool)
      requires Valid()
      ensures value <==> bit < BITS && Contents()[bit]
    {
      hide Test;
      value := bit < BITS && Test(words[bit / 64], bit % 64);
      if bit < BITS { assert Contents()[bit] == Test(words[..][bit / 64], bit % 64); }
    }

    /** Positions past the end are ignored. */
    method Set(bit: nat, value: bool)
      requires Valid()
      modifies words
      ensures Valid()
      ensures Contents() == if bit < BITS then old(Contents())[bit := value] else old(Contents())
    {
      hide Test, With, Mask;
      if bit >= BITS { return; }
      ghost var before := words[..];
      var mask := Mask(bit % 64);
      words[bit / 64] := With(words[bit / 64], mask, value);
      forall i: nat | i < 64 * WORDS ensures BitAt(words[..], i) == if i == bit then value else BitAt(before, i) {
        WithBit(before[bit / 64], bit % 64, value, i % 64);
      }
      assert Contents() == Unpacked(before)[bit := value];
    }

    /** The other word may be this one, which clears it. */
    method XorWith(other: Bits174)
      requires Valid() && other.Valid()
      modifies words
      ensures Valid() && Contents() == Xor(old(Contents()), old(other.Contents()))
    {
      hide Test, XorWord;
      ghost var before, with := words[..], other.words[..];
      for i := 0 to WORDS
        invariant forall k | i <= k < WORDS :: other.words[k] == with[k]
        invariant forall k | 0 <= k < WORDS :: words[k] == if k < i then XorWord(before[k], with[k]) else before[k]
      {
        words[i] := XorWord(words[i], other.words[i]);
      }
      forall i: nat | i < 64 * WORDS ensures BitAt(words[..], i) == (BitAt(before, i) != BitAt(with, i)) {
        XorBit(before[i / 64], with[i / 64], i % 64);
      }
      assert Contents() == Xor(Unpacked(before), Unpacked(with));
    }
  }

  /** The product of two packed words: parities of population counts of the three ANDs. */
  method PackedDot(a: Bits174, b: Bits174) returns (odd: bool)
    requires a.Valid() && b.Valid()
    ensures odd == Dot(a.Contents(), b.Contents())
  {
    hide Test, AndWord;
    ghost var x, y := a.words[..], b.words[..];
    odd := false;
    for i := 0 to WORDS
      invariant odd == PackedParity(x, y, i, 0)
    {
      OddOnesOfAnd(x, y, i, 64);
      odd := odd != OddOnes(AndWord(a.words[i], b.words[i]), 64);
    }
    PackedIsParity(x, y, WORDS, 0);
  }
}
