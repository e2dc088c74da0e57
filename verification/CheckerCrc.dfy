/** The CRC of the frame checker: long division over 75 information bits and 13 zeros, how it
    relates to the direct register, and what that means for the parameter search. */
module CheckerCrc {
  import opened CrcRegisters
  import opened CrcSearch

  // ---------------------------------------------------------------- the long-division form

  /** One turn of long division: the bit enters at the bottom, the top bit leaves. */
  function DivisionStep(remainder: Reg, bit: bool, poly: Reg): Reg {
    Feed(ShiftLeft(remainder) | (if bit then 1 else 0), TopBit(remainder), poly)
  }

  function Divide(remainder: Reg, bits: seq<bool>, poly: Reg): Reg {
    if bits == [] then remainder else DivisionStep(Divide(remainder, bits[..|bits| - 1], poly), bits[|bits| - 1], poly)
  }

  function ZeroSteps(reg: Reg, k: nat, poly: Reg): Reg {
    if k == 0 then reg else StepMsb(ZeroSteps(reg, k - 1, poly), false, poly)
  }

  lemma FeedNothing(s: Reg, poly: Reg)
    ensures Feed(s, false, poly) == s
  {
  }

  lemma LowBitFree(r: Reg, bit: bool)
    ensures ShiftLeft(r) | (if bit then 1 else 0) == XorReg(ShiftLeft(r), if bit then 1 else 0)
  {
  }

  /** A division step is a zero-input register step with the message bit added at the bottom. */
  lemma DivisionStepSplit(r: Reg, bit: bool, poly: Reg)
    ensures DivisionStep(r, bit, poly) == XorReg(StepMsb(r, false, poly), if bit then 1 else 0)
  {
    hide Feed, ShiftLeft, TopBit, XorReg;
    var low: Reg := if bit then 1 else 0;
    LowBitFree(r, bit);
    FeedLinear(ShiftLeft(r), low, TopBit(r), false, poly);
    FeedNothing(low, poly);
  }

  lemma {:induction false} ZeroStepsSum(k: nat, j: nat, reg: Reg, poly: Reg)
    ensures ZeroSteps(ZeroSteps(reg, k, poly), j, poly) == ZeroSteps(reg, k + j, poly)
  {
    hide StepMsb;
    if j > 0 { ZeroStepsSum(k, j - 1, reg, poly); }
  }

  lemma {:induction false} ZeroStepsLinear(k: nat, a: Reg, b: Reg, poly: Reg)
    ensures ZeroSteps(XorReg(a, b), k, poly) == XorReg(ZeroSteps(a, k, poly), ZeroSteps(b, k, poly))
  {
    hide StepMsb, XorReg;
    if k > 0 {
      ZeroStepsLinear(k - 1, a, b, poly);
      StepLinear(false, ZeroSteps(a, k - 1, poly), ZeroSteps(b, k - 1, poly), false, poly);
    }
  }

  lemma ShiftOnce(poly: Reg)
    ensures StepMsb(0, false, poly) == 0
    ensures StepMsb(0x001, false, poly) == 0x002 && StepMsb(0x002, false, poly) == 0x004
    ensures StepMsb(0x004, false, poly) == 0x008 && StepMsb(0x008, false, poly) == 0x010
    ensures StepMsb(0x010, false, poly) == 0x020 && StepMsb(0x020, false, poly) == 0x040
    ensures StepMsb(0x040, false, poly) == 0x080 && StepMsb(0x080, false, poly) == 0x100
    ensures StepMsb(0x100, false, poly) == 0x200 && StepMsb(0x200, false, poly) == 0x400
    ensures StepMsb(0x400, false, poly) == 0x800 && StepMsb(0x800, false, poly) == poly
  {
    XorZeroReg(poly);
  }

  lemma NextZeroStep(reg: Reg, k: nat, poly: Reg)
    ensures ZeroSteps(reg, 0, poly) == reg
    ensures ZeroSteps(reg, k + 1, poly) == StepMsb(ZeroSteps(reg, k, poly), false, poly)
  {
  }

  lemma {:induction false} ZeroStaysZero(k: nat, poly: Reg)
    ensures ZeroSteps(0, k, poly) == 0
  {
    hide StepMsb;
    ShiftOnce(poly);
    if k > 0 { ZeroStaysZero(k - 1, poly); }
  }

  /** Twelve zero steps carry a bit from the bottom out of the top, leaving the polynomial. */
  lemma TwelveStepsOfOne(poly: Reg)
    ensures ZeroSteps(1, 12, poly) == poly
  {
    hide StepMsb, ZeroSteps;
    ShiftOnce(poly);
    NextZeroStep(1, 0, poly);
    NextZeroStep(1, 1, poly);
    NextZeroStep(1, 2, poly);
    NextZeroStep(1, 3, poly);
    NextZeroStep(1, 4, poly);
    NextZeroStep(1, 5, poly);
    NextZeroStep(1, 6, poly);
    NextZeroStep(1, 7, poly);
    NextZeroStep(1, 8, poly);
    NextZeroStep(1, 9, poly);
    NextZeroStep(1, 10, poly);
    NextZeroStep(1, 11, poly);
  }

  lemma BitInOrOut(reg: Reg, bit: bool, poly: Reg)
    ensures StepMsb(reg, bit, poly) == XorReg(StepMsb(reg, false, poly), if bit then poly else 0)
  {
    hide ShiftLeft, TopBit;
    XorZeroReg(ShiftLeft(reg));
    XorZeroReg(poly);
    FeedLinear(ShiftLeft(reg), 0, TopBit(reg), bit, poly);
  }

  lemma {:induction false} DivisionIsRegister(message: seq<bool>, poly: Reg)
    ensures ZeroSteps(Divide(0, message, poly), 12, poly) == Run(false, 0, message, poly)
  {
    hide StepMsb, XorReg, DivisionStep;
    TwelveStepsOfOne(poly);
    ZeroStaysZero(12, poly);
    if message != [] {
      var last := |message| - 1;
      var r, bit := Divide(0, message[..last], poly), message[last];
      DivisionIsRegister(message[..last], poly);
      DivisionStepSplit(r, bit, poly);
      var low: Reg := if bit then 1 else 0;
      ZeroStepsLinear(12, StepMsb(r, false, poly), low, poly);
      ZeroStepsSum(1, 12, r, poly);
      ZeroStepsSum(12, 1, r, poly);
      assert ZeroSteps(r, 1, poly) == StepMsb(r, false, poly) by { assert ZeroSteps(r, 0, poly) == r; }
      var reg := ZeroSteps(r, 12, poly);
      assert ZeroSteps(r, 13, poly) == StepMsb(reg, false, poly);
      BitInOrOut(reg, bit, poly);
    }
  }

  lemma {:induction false} DivideZeros(remainder: Reg, message: seq<bool>, k: nat, poly: Reg)
    ensures Divide(remainder, message + seq(k, _ => false), poly) == ZeroSteps(Divide(remainder, message, poly), k, poly)
  {
    hide DivisionStep, StepMsb;
    var all := message + seq(k, _ => false);
    if k == 0 {
      assert all == message;
    } else {
      assert all[..|all| - 1] == message + seq(k - 1, _ => false);
      DivideZeros(remainder, message, k - 1, poly);
      var r := ZeroSteps(Divide(remainder, message, poly), k - 1, poly);
      DivisionStepSplit(r, false, poly);
      XorZeroReg(StepMsb(r, false, poly));
    }
  }

  /** The two CRC forms agree on messages of any length: long division of the message and twelve
      zeros leaves the direct register; each further zero is one more zero-input step. */
  lemma LongDivisionIsRegister(message: seq<bool>, extra: nat, poly: Reg)
    ensures Divide(0, message + seq(12 + extra, _ => false), poly) == ZeroSteps(Run(false, 0, message, poly), extra, poly)
  {
    hide DivisionStep, StepMsb;
    DivideZeros(0, message, 12 + extra, poly);
    DivisionIsRegister(message, poly);
    ZeroStepsSum(12, extra, Divide(0, message, poly), poly);
  }

  // ---------------------------------------------------------------- the frame checker

  const CHECKER_POLY: Reg := 0xC06
  const CHECKER_XOR: Reg := 0x02A

  ghost predicate PassesChecker(word: seq<bool>)
    requires |word| == INFO_BITS
  {
    Observed(word, false)
      == XorReg(StepMsb(RawCrc(word, false, CHECKER_POLY), false, CHECKER_POLY), CHECKER_XOR)
  }

  /** The checker's CRC: 75 information bits and 13 zeros through long division, then a XOR. */
  method CheckerCrc(word: seq<bool>) returns (crc: Reg)
    requires |word| == 87
    ensures crc == XorReg(Divide(0, word[..75] + seq(13, _ => false), 0xC06), 0x02A)
    ensures crc == XorReg(StepMsb(Run(false, 0, word[..75], 0xC06), false, 0xC06), 0x02A)
    ensures PassesChecker(word) <==> crc == Observed(word, false)
  {
    hide DivisionStep, StepMsb;
    var bits := word[..PAYLOAD_BITS] + seq(13, _ => false);
    var remainder: Reg := 0;
    for i := 0 to |bits|
      invariant remainder == Divide(0, bits[..i], CHECKER_POLY)
    {
      assert bits[..i + 1][..i] == bits[..i];
      remainder := DivisionStep(remainder, bits[i], CHECKER_POLY);
    }
    assert bits[..|bits|] == bits;
    LongDivisionIsRegister(word[..PAYLOAD_BITS], 1, CHECKER_POLY);
    crc := XorReg(remainder, CHECKER_XOR);
  }

  lemma XorZeroDiffers(e: Reg)
    requires Is12(e) && e == StepMsb(e, false, CHECKER_POLY)
    ensures e == 0
  {
  }

  /** With the checker's polynomial, one zero-input step moves no two registers by the same XOR. */
  lemma StepMovesDifferently(c: Reg, d: Reg)
    requires Is12(c) && Is12(d) && XorReg(c, StepMsb(c, false, CHECKER_POLY)) == XorReg(d, StepMsb(d, false, CHECKER_POLY))
    ensures c == d
  {
    XorZeroDiffers(c ^ d);
  }

  lemma CheckerPolyIs12()
    ensures Is12(CHECKER_POLY) && Is12(CHECKER_XOR)
  {
  }

  lemma XorRight(a: Reg, f: Reg)
    ensures XorReg(XorReg(a, f), f) == a
  {
  }

  lemma DropFinal(c: Reg, d: Reg, x: Reg, y: Reg, f: Reg)
    requires XorReg(c, XorReg(x, f)) == XorReg(d, XorReg(y, f))
    ensures XorReg(c, x) == XorReg(d, y)
  {
    hide XorReg;
    XorRegAssoc(c, x, f);
    XorRegAssoc(d, y, f);
    XorRight(XorReg(c, x), f);
    XorRight(XorReg(d, y), f);
  }

  lemma SameOffset(v: seq<bool>, w: seq<bool>, offset: Reg)
    requires |v| == |w| == INFO_BITS && PassesChecker(v) && PassesChecker(w)
    requires Explains(Match(false, false, CHECKER_POLY, offset), v)
    requires Explains(Match(false, false, CHECKER_POLY, offset), w)
    ensures RawCrc(v, false, CHECKER_POLY) == RawCrc(w, false, CHECKER_POLY)
  {
    hide RawCrc, Observed, StepMsb, Is12, Explains;
    var m := Match(false, false, CHECKER_POLY, offset);
    OffsetOfWord(m, v);
    OffsetOfWord(m, w);
    CheckerPolyIs12();
    MirrorRaw(v, false, CHECKER_POLY);
    MirrorRaw(w, false, CHECKER_POLY);
    var c, d := RawCrc(v, false, CHECKER_POLY), RawCrc(w, false, CHECKER_POLY);
    DropFinal(c, d, StepMsb(c, false, CHECKER_POLY), StepMsb(d, false, CHECKER_POLY), CHECKER_XOR);
    StepMovesDifferently(c, d);
  }

  /** Checker and search disagree. The checker's CRC takes one zero step more than the search's
      register, so on words that pass the checker the search reports the checker's own direction,
      bit order and polynomial if and only if all the words have the same register. */
  lemma CheckerPolynomialIsMissed(words: seq<seq<bool>>)
    requires IsInfo(words) && words != [] && forall i | 0 <= i < |words| :: PassesChecker(words[i])
    ensures (exists offset :: IsMatch(words, Match(false, false, CHECKER_POLY, offset)))
       <==> forall i | 0 <= i < |words| :: RawCrc(words[i], false, CHECKER_POLY) == RawCrc(words[0], false, CHECKER_POLY)
  {
    hide RawCrc, Observed, XorReg, StepMsb, Is12;
    if offset :| IsMatch(words, Match(false, false, CHECKER_POLY, offset)) {
      forall i | 0 <= i < |words| ensures RawCrc(words[i], false, CHECKER_POLY) == RawCrc(words[0], false, CHECKER_POLY) {
        SameOffset(words[i], words[0], offset);
      }
    }
    if forall i | 0 <= i < |words| :: RawCrc(words[i], false, CHECKER_POLY) == RawCrc(words[0], false, CHECKER_POLY) {
      var c := RawCrc(words[0], false, CHECKER_POLY);
      var offset := XorReg(c, Observed(words[0], false));
      var m := Match(false, false, CHECKER_POLY, offset);
      forall i | 0 <= i < |words| ensures Explains(m, words[i]) {
        OffsetOfWord(m, words[i]);
      }
      assert IsMatch(words, m);
    }
  }

  /** A 12-bit value as its bits, high bit first. */
  function FieldOf(r: Reg): (bits: seq<bool>)
    ensures |bits| == CRC_BITS
  {
    [r & 0x800 != 0, r & 0x400 != 0, r & 0x200 != 0, r & 0x100 != 0, r & 0x080 != 0, r & 0x040 != 0,
     r & 0x020 != 0, r & 0x010 != 0, r & 0x008 != 0, r & 0x004 != 0, r & 0x002 != 0, r & 0x001 != 0]
  }

  function PushThree(value: Reg, a: bool, b: bool, c: bool): Reg {
    PushBit(PushBit(PushBit(value, a), b), c)
  }

  lemma FoldThree(value: Reg, bits: seq<bool>, k: nat)
    requires k + 3 <= |bits|
    ensures FoldBits(value, bits[..k + 3]) == PushThree(FoldBits(value, bits[..k]), bits[k], bits[k + 1], bits[k + 2])
  {
    hide PushBit, FoldBits;
    assert bits[..k + 3][..k + 2] == bits[..k + 2] && bits[..k + 2][..k + 1] == bits[..k + 1] && bits[..k + 1][..k] == bits[..k];
    FoldLast(value, bits[..k + 3]);
    FoldLast(value, bits[..k + 2]);
    FoldLast(value, bits[..k + 1]);
  }

  lemma TwelveBits(r: Reg)
    requires Is12(r)
    ensures PushThree(PushThree(PushThree(PushThree(0, r & 0x800 != 0, r & 0x400 != 0, r & 0x200 != 0),
              r & 0x100 != 0, r & 0x080 != 0, r & 0x040 != 0), r & 0x020 != 0, r & 0x010 != 0, r & 0x008 != 0),
              r & 0x004 != 0, r & 0x002 != 0, r & 0x001 != 0) == r
  {
  }

  lemma FieldBits(r: Reg)
    requires Is12(r)
    ensures var b := FieldOf(r);
      PushThree(PushThree(PushThree(PushThree(0, b[0], b[1], b[2]), b[3], b[4], b[5]), b[6], b[7], b[8]), b[9], b[10], b[11]) == r
  {
    hide PushThree, Is12;
    TwelveBits(r);
  }

  lemma FoldField(r: Reg)
    requires Is12(r)
    ensures FoldBits(0, FieldOf(r)) == r
  {
    hide FoldBits, PushThree, Is12, FieldOf;
    FieldBits(r);
    NoBits(0);
    var bits := FieldOf(r);
    assert bits[..0] == [] && bits[..12] == bits;
    FoldThree(0, bits, 0);
    FoldThree(0, bits, 3);
    FoldThree(0, bits, 6);
    FoldThree(0, bits, 9);
  }

  lemma PushedField(value: Reg, bit: bool)
    ensures FieldOf(PushBit(value, bit)) == FieldOf(value)[1..] + [bit]
  {
  }

  lemma NoField()
    ensures FieldOf(0) == seq(12, _ => false)
  {
  }

  /** The value read from at most twelve bits has exactly those bits, the last one lowest. */
  lemma {:induction false} FieldOfFold(bits: seq<bool>)
    requires |bits| <= 12
    ensures FieldOf(FoldBits(0, bits)) == seq(12 - |bits|, _ => false) + bits
  {
    hide FieldOf, PushBit, FoldBits;
    NoField();
    if bits != [] {
      var last := |bits| - 1;
      var init, bit := bits[..last], bits[last];
      FieldOfFold(init);
      FoldLast(0, bits);
      PushedField(FoldBits(0, init), bit);
      assert (seq(12 - last, _ => false) + init)[1..] == seq(11 - last, _ => false) + init;
      assert init + [bit] == bits;
    } else {
      NoBits(0);
    }
  }

  /** The observed CRC is bits 75 to 86 of the word, bit 75 the highest, or bit 86 when read
      backwards. */
  lemma ObservedIsField(word: seq<bool>, i: nat)
    requires |word| == 87 && i < 12
    ensures FieldOf(Observed(word, false))[i] == word[75 + i]
    ensures FieldOf(Observed(word, true))[i] == word[86 - i]
  {
    hide FoldBits, FieldOf;
    FieldOfFold(word[75..]);
    FieldOfFold(Backwards(word[75..]));
  }

  /** The word a payload becomes when it is sent with the CRC the checker expects. */
  function CheckerWord(payload: seq<bool>): (word: seq<bool>)
    requires |payload| == PAYLOAD_BITS
    ensures |word| == INFO_BITS
  {
    payload + FieldOf(XorReg(StepMsb(Run(false, 0, payload, CHECKER_POLY), false, CHECKER_POLY), CHECKER_XOR))
  }

  lemma CheckerWordPasses(payload: seq<bool>)
    requires |payload| == PAYLOAD_BITS
    ensures PassesChecker(CheckerWord(payload))
    ensures RawCrc(CheckerWord(payload), false, CHECKER_POLY) == Run(false, 0, payload, CHECKER_POLY)
  {
    hide Run, StepMsb, XorReg, Is12, FoldBits, FieldOf;
    var word := CheckerWord(payload);
    var reg := Run(false, 0, payload, CHECKER_POLY);
    var crc := XorReg(StepMsb(reg, false, CHECKER_POLY), CHECKER_XOR);
    assert word[..PAYLOAD_BITS] == payload && word[PAYLOAD_BITS..] == FieldOf(crc);
    ZeroIs12();
    CheckerPolyIs12();
    RunIs12(false, 0, payload, CHECKER_POLY);
    StepIs12(reg, false, CHECKER_POLY);
    XorRegIs12(StepMsb(reg, false, CHECKER_POLY), CHECKER_XOR);
    FoldField(crc);
  }

  lemma {:induction false} RunOfZeros(bits: seq<bool>, poly: Reg)
    requires forall i | 0 <= i < |bits| :: !bits[i]
    ensures Run(false, 0, bits, poly) == 0
  {
    hide StepMsb;
    ShiftOnce(poly);
    if bits != [] { RunOfZeros(bits[..|bits| - 1], poly); }
  }

  /** A concrete miss: the all-zero payload and the payload with only its last bit set, each with
      the CRC the checker expects. */
  lemma CheckerPolynomialMissedExample(zeros: seq<bool>, one: seq<bool>)
    requires zeros == seq(PAYLOAD_BITS, _ => false) && one == zeros[PAYLOAD_BITS - 1 := true]
    ensures PassesChecker(CheckerWord(zeros)) && PassesChecker(CheckerWord(one))
    ensures !exists offset :: IsMatch([CheckerWord(zeros), CheckerWord(one)], Match(false, false, CHECKER_POLY, offset))
  {
    hide StepMsb, PassesChecker, IsMatch, CheckerWord;
    var v, w := CheckerWord(zeros), CheckerWord(one);
    CheckerWordPasses(zeros);
    CheckerWordPasses(one);
    var last := PAYLOAD_BITS - 1;
    assert one[..last] == zeros[..last];
    RunOfZeros(zeros, CHECKER_POLY);
    RunOfZeros(one[..last], CHECKER_POLY);
    BitInOrOut(0, true, CHECKER_POLY);
    ShiftOnce(CHECKER_POLY);
    XorZeroReg(CHECKER_POLY);
    CheckerPolynomialIsMissed([v, w]);
    assert [v, w][1] == w && [v, w][0] == v;
  }
}
