/** The 12-bit CRC registers of the reconstruction kit, in both directions, bit reversal, and the
    CRC field of an information word. Registers are 16 bits wide, as in the source. */
module CrcRegisters {
  type Reg = bv16

  const INFO_BITS := 87
  const PAYLOAD_BITS := 75
  const CRC_BITS := 12

  predicate Is12(r: Reg) { r & 0xf000 == 0 }

  // ---------------------------------------------------------------- the two registers

  function ShiftLeft(reg: Reg): Reg { (reg << 1) & 0x0fff }

  predicate TopBit(reg: Reg) { (reg >> 11) & 1 != 0 }

  function ShiftRight(reg: Reg): Reg { reg >> 1 }

  predicate LowBit(reg: Reg) { reg & 1 != 0 }

  function Feed(shifted: Reg, feedback: bool, poly: Reg): Reg {
    if feedback then shifted ^ poly else shifted
  }

  function StepMsb(reg: Reg, bit: bool, poly: Reg): Reg {
    Feed(ShiftLeft(reg), TopBit(reg) != bit, poly)
  }

  function StepLsb(reg: Reg, bit: bool, poly: Reg): Reg {
    Feed(ShiftRight(reg), LowBit(reg) != bit, poly)
  }

  function XorReg(a: Reg, b: Reg): Reg { a ^ b }

  function Step(lsb: bool, reg: Reg, bit: bool, poly: Reg): Reg {
    if lsb then StepLsb(reg, bit, poly) else StepMsb(reg, bit, poly)
  }

  /** The register after the bits, from any starting value. */
  function Run(lsb: bool, init: Reg, bits: seq<bool>, poly: Reg): Reg {
    if bits == [] then init else Step(lsb, Run(lsb, init, bits[..|bits| - 1], poly), bits[|bits| - 1], poly)
  }

  lemma ZeroIs12()
    ensures Is12(0)
  {
  }

  lemma Masked(r: Reg)
    ensures Is12(r & 0x0fff)
    ensures Is12(r) ==> r & 0x0fff == r
  {
  }

  lemma StepIs12(reg: Reg, bit: bool, poly: Reg)
    requires Is12(reg) && Is12(poly)
    ensures Is12(StepMsb(reg, bit, poly)) && Is12(StepLsb(reg, bit, poly))
  {
  }

  lemma {:induction false} RunIs12(lsb: bool, init: Reg, bits: seq<bool>, poly: Reg)
    requires Is12(init) && Is12(poly)
    ensures Is12(Run(lsb, init, bits, poly))
  {
    hide StepMsb, StepLsb, Is12;
    if bits != [] {
      var last := |bits| - 1;
      RunIs12(lsb, init, bits[..last], poly);
      StepIs12(Run(lsb, init, bits[..last], poly), bits[last], poly);
    }
  }

  method Crc12Msb(word: seq<bool>, poly: Reg) returns (crc: Reg)
    requires |word| == 87
    ensures crc == Run(false, 0, word[..75], poly) & 0x0fff && Is12(crc)
    ensures Is12(poly) ==> crc == Run(false, 0, word[..75], poly)
  {
    hide StepMsb, StepLsb, Is12;
    var reg: Reg := 0;
    for i := 0 to PAYLOAD_BITS
      invariant reg == Run(false, 0, word[..i], poly)
    {
      assert word[..i + 1][..i] == word[..i];
      reg := StepMsb(reg, word[i], poly);
    }
    Masked(reg);
    if Is12(poly) {
      ZeroIs12();
      RunIs12(false, 0, word[..PAYLOAD_BITS], poly);
    }
    return reg & 0x0fff;
  }

  method Crc12Lsb(word: seq<bool>, poly: Reg) returns (crc: Reg)
    requires |word| == 87
    ensures crc == Run(true, 0, word[..75], poly) & 0x0fff && Is12(crc)
    ensures Is12(poly) ==> crc == Run(true, 0, word[..75], poly)
  {
    hide StepMsb, StepLsb, Is12;
    var reg: Reg := 0;
    for i := 0 to PAYLOAD_BITS
      invariant reg == Run(true, 0, word[..i], poly)
    {
      assert word[..i + 1][..i] == word[..i];
      reg := StepLsb(reg, word[i], poly);
    }
    Masked(reg);
    if Is12(poly) {
      ZeroIs12();
      RunIs12(true, 0, word[..PAYLOAD_BITS], poly);
    }
    return reg & 0x0fff;
  }

  // ---------------------------------------------------------------- bit reversal

  /** k turns of the reversal loop: take the low bit of value, push it onto out. */
  function ReverseLoop(value: Reg, out: Reg, k: nat): Reg
    decreases k
  {
    if k == 0 then out else ReverseLoop(value >> 1, (out << 1) | (value & 1), k - 1)
  }

  function Reverse12(value: Reg): Reg {
    ReverseLoop(value, 0, 12)
  }

  method Reverse12Loop(value0: Reg) returns (out: Reg)
    ensures out == Reverse12(value0)
  {
    var value := value0;
    out := 0;
    for i := 0 to 12
      invariant ReverseLoop(value, out, 12 - i) == Reverse12(value0)
    {
      out, value := (out << 1) | (value & 1), value >> 1;
    }
  }

  /** The twelve turns written out. */
  function Mirrored(v: Reg): Reg {
    ((v & 0x001) << 11) | ((v & 0x002) << 9) | ((v & 0x004) << 7) | ((v & 0x008) << 5)
    | ((v & 0x010) << 3) | ((v & 0x020) << 1) | ((v & 0x040) >> 1) | ((v & 0x080) >> 3)
    | ((v & 0x100) >> 5) | ((v & 0x200) >> 7) | ((v & 0x400) >> 9) | ((v & 0x800) >> 11)
  }

  function Push(value: Reg, out: Reg): Reg {
    (out << 1) | (value & 1)
  }

  function FourPushed(value: Reg, out: Reg): Reg {
    (out << 4) | ((value & 1) << 3) | ((value & 2) << 1) | ((value & 4) >> 1) | ((value & 8) >> 3)
  }

  lemma PushFourTimes(v: Reg, out: Reg)
    ensures Push(((v >> 1) >> 1) >> 1, Push((v >> 1) >> 1, Push(v >> 1, Push(v, out)))) == FourPushed(v, out)
    ensures (((v >> 1) >> 1) >> 1) >> 1 == v >> 4
  {
  }

  lemma OneTurn(value: Reg, out: Reg, k: nat)
    requires k >= 1
    ensures ReverseLoop(value, out, k) == ReverseLoop(value >> 1, Push(value, out), k - 1)
  {
  }

  lemma FourTurns(v: Reg, out: Reg, k: nat)
    requires k >= 4
    ensures ReverseLoop(v, out, k) == ReverseLoop(v >> 4, FourPushed(v, out), k - 4)
  {
    hide ReverseLoop, Push, FourPushed;
    PushFourTimes(v, out);
    var o1 := Push(v, out);
    var o2 := Push(v >> 1, o1);
    var o3 := Push((v >> 1) >> 1, o2);
    OneTurn(v, out, k);
    OneTurn(v >> 1, o1, k - 1);
    OneTurn((v >> 1) >> 1, o2, k - 2);
    OneTurn(((v >> 1) >> 1) >> 1, o3, k - 3);
  }

  lemma TwelvePushed(v: Reg)
    ensures FourPushed((v >> 4) >> 4, FourPushed(v >> 4, FourPushed(v, 0))) == Mirrored(v)
  {
  }

  lemma NoTurns(value: Reg, out: Reg)
    ensures ReverseLoop(value, out, 0) == out
  {
  }

  lemma Reverse12IsMirrored(v: Reg)
    ensures Reverse12(v) == Mirrored(v)
  {
    hide ReverseLoop, FourPushed, Mirrored;
    var a := FourPushed(v, 0);
    var b := FourPushed(v >> 4, a);
    FourTurns(v, 0, 12);
    FourTurns(v >> 4, a, 8);
    FourTurns((v >> 4) >> 4, b, 4);
    NoTurns(((v >> 4) >> 4) >> 4, Mirrored(v));
    TwelvePushed(v);
  }

  lemma MirrorXor(a: Reg, b: Reg)
    ensures Mirrored(a ^ b) == Mirrored(a) ^ Mirrored(b)
  {
  }

  lemma MirrorTwice(a: Reg)
    requires Is12(a)
    ensures Is12(Mirrored(a)) && Mirrored(Mirrored(a)) == a
  {
  }

  lemma MirrorZero()
    ensures Mirrored(0) == 0
  {
  }

  lemma MirrorFacts(a: Reg, b: Reg)
    requires Is12(a) && Is12(b)
    ensures Is12(Mirrored(a)) && Mirrored(Mirrored(a)) == a
    ensures Mirrored(a ^ b) == Mirrored(a) ^ Mirrored(b)
    ensures Mirrored(a) == 0 <==> a == 0
    ensures Is12(a ^ b)
  {
    hide Mirrored;
    MirrorXor(a, b);
    MirrorTwice(a);
    MirrorZero();
  }

  /** Mirroring turns a left shift within twelve bits into a right shift, and the top bit into
      the bottom one. */
  lemma MirrorShift(r: Reg)
    requires Is12(r)
    ensures Mirrored(ShiftLeft(r)) == ShiftRight(Mirrored(r)) && Is12(ShiftLeft(r))
    ensures TopBit(r) == LowBit(Mirrored(r))
  {
  }

  lemma ReverseFacts(a: Reg, b: Reg)
    requires Is12(a) && Is12(b)
    ensures Is12(Reverse12(a)) && Reverse12(Reverse12(a)) == a
    ensures Reverse12(a ^ b) == Reverse12(a) ^ Reverse12(b)
    ensures Reverse12(a) == 0 <==> a == 0
    ensures Is12(a ^ b)
  {
    hide Mirrored, Reverse12;
    Reverse12IsMirrored(a);
    Reverse12IsMirrored(b);
    Reverse12IsMirrored(a ^ b);
    Reverse12IsMirrored(Mirrored(a));
    MirrorFacts(a, b);
  }

  lemma MirrorFeed(s: Reg, x: bool, poly: Reg)
    requires Is12(s) && Is12(poly)
    ensures Mirrored(Feed(s, x, poly)) == Feed(Mirrored(s), x, Mirrored(poly))
  {
    hide Mirrored, Is12;
    if x { MirrorFacts(s, poly); }
  }

  lemma StepMirrored(reg: Reg, bit: bool, poly: Reg)
    requires Is12(reg) && Is12(poly)
    ensures Reverse12(StepMsb(reg, bit, poly)) == StepLsb(Reverse12(reg), bit, Reverse12(poly))
  {
    hide Mirrored, Reverse12, Is12, ShiftLeft, ShiftRight, TopBit, LowBit, Feed;
    Reverse12IsMirrored(reg);
    Reverse12IsMirrored(poly);
    Reverse12IsMirrored(StepMsb(reg, bit, poly));
    MirrorShift(reg);
    MirrorFeed(ShiftLeft(reg), TopBit(reg) != bit, poly);
  }

  /** The low-bit-first register under the mirrored polynomial is the mirror image of the
      high-bit-first one. */
  lemma {:induction false} RunMirrored(init: Reg, bits: seq<bool>, poly: Reg)
    requires Is12(init) && Is12(poly)
    ensures Run(true, Reverse12(init), bits, Reverse12(poly)) == Reverse12(Run(false, init, bits, poly))
  {
    hide Reverse12, StepMsb, StepLsb, Is12;
    if bits != [] {
      var last := |bits| - 1;
      RunMirrored(init, bits[..last], poly);
      RunIs12(false, init, bits[..last], poly);
      StepMirrored(Run(false, init, bits[..last], poly), bits[last], poly);
    }
  }

  // ---------------------------------------------------------------- the CRC field of a word

  function PushBit(value: Reg, bit: bool): Reg {
    (value << 1) | if bit then 1 else 0
  }

  function FoldBits(value: Reg, bits: seq<bool>): Reg {
    if bits == [] then value else PushBit(FoldBits(value, bits[..|bits| - 1]), bits[|bits| - 1])
  }

  function Backwards(bits: seq<bool>): (r: seq<bool>)
    ensures |r| == |bits|
  {
    seq(|bits|, i requires 0 <= i < |bits| => bits[|bits| - 1 - i])
  }

  function Observed(word: seq<bool>, reverse: bool): Reg
    requires |word| == INFO_BITS
  {
    var field := word[PAYLOAD_BITS..];
    FoldBits(0, if reverse then Backwards(field) else field)
  }

  method ObservedCrc(word: seq<bool>, reverse: bool) returns (value: Reg)
    requires |word| == INFO_BITS
    ensures value == Observed(word, reverse)
  {
    hide PushBit;
    ghost var field := word[PAYLOAD_BITS..];
    ghost var bits := if reverse then Backwards(field) else field;
    value := 0;
    for i := 0 to CRC_BITS
      invariant value == FoldBits(0, bits[..i])
    {
      assert bits[..i + 1][..i] == bits[..i];
      var index := if reverse then CRC_BITS - 1 - i else i;
      assert bits[i] == word[PAYLOAD_BITS + index];
      value := PushBit(value, word[PAYLOAD_BITS + index]);
    }
    assert bits[..CRC_BITS] == bits;
  }

  function WidthMask(k: nat): Reg {
    if k == 0 then 0xffff else WidthMask(k - 1) << 1
  }

  lemma MaskTable()
    ensures WidthMask(0) == 0xffff && WidthMask(1) == 0xfffe && WidthMask(2) == 0xfffc && WidthMask(3) == 0xfff8
    ensures WidthMask(4) == 0xfff0 && WidthMask(5) == 0xffe0 && WidthMask(6) == 0xffc0 && WidthMask(7) == 0xff80
    ensures WidthMask(8) == 0xff00 && WidthMask(9) == 0xfe00 && WidthMask(10) == 0xfc00 && WidthMask(11) == 0xf800
    ensures WidthMask(12) == 0xf000
  {
  }

  lemma MaskHigh(k: nat)
    requires k <= 11
    ensures WidthMask(k) & 0xf800 == 0xf800
  {
    MaskTable();
  }

  lemma PushFits(x: Reg, m: Reg, bit: bool)
    requires x & m == 0 && m & 0xf800 == 0xf800
    ensures PushBit(x, bit) & (m << 1) == 0
    ensures (m << 1) & 0xf000 == 0xf000
    ensures x & 0x8000 == 0
  {
  }

  /** A value of k <= 12 bits has no higher bits set. */
  lemma {:induction false} FoldFits(bits: seq<bool>)
    requires |bits| <= 12
    ensures FoldBits(0, bits) & WidthMask(|bits|) == 0
    ensures WidthMask(|bits|) & 0xf000 == 0xf000
  {
    hide PushBit;
    if bits == [] {
    } else {
      var last := |bits| - 1;
      FoldFits(bits[..last]);
      MaskHigh(last);
      var m, x := WidthMask(last), FoldBits(0, bits[..last]);
      PushFits(x, m, bits[last]);
    }
  }

  lemma {:induction false} FoldShift(value: Reg, bits: seq<bool>, bit: bool)
    ensures FoldBits(PushBit(value, bit), bits) == FoldBits(value, [bit] + bits)
  {
    hide PushBit;
    var all := [bit] + bits;
    if bits == [] {
      assert all[..0] == [];
    } else {
      var last := |bits| - 1;
      FoldShift(value, bits[..last], bit);
      assert all[..|bits|] == [bit] + bits[..last];
    }
  }

  lemma FoldLast(value: Reg, bits: seq<bool>)
    requires bits != []
    ensures FoldBits(value, bits) == PushBit(FoldBits(value, bits[..|bits| - 1]), bits[|bits| - 1])
  {
  }

  lemma BackwardsLast(bits: seq<bool>)
    requires bits != []
    ensures Backwards(bits) == [bits[|bits| - 1]] + Backwards(bits[..|bits| - 1])
  {
  }

  lemma NoBits(value: Reg)
    ensures FoldBits(value, []) == value && Backwards([]) == []
  {
  }

  lemma LowBits(bits: seq<bool>)
    requires |bits| < 12
    ensures FoldBits(0, bits) & 0x8000 == 0
  {
    FoldFits(bits);
    MaskHigh(|bits|);
    PushFits(FoldBits(0, bits), WidthMask(|bits|), false);
  }

  lemma PopBit(x: Reg, bit: bool, out: Reg)
    requires x & 0x8000 == 0
    ensures PushBit(x, bit) >> 1 == x
    ensures Push(PushBit(x, bit), out) == PushBit(out, bit)
  {
  }

  /** Running the reversal loop over a folded value folds the bits in the opposite order. */
  lemma {:induction false} ReverseFold(bits: seq<bool>, out: Reg)
    requires |bits| <= 12
    ensures ReverseLoop(FoldBits(0, bits), out, |bits|) == FoldBits(out, Backwards(bits))
  {
    hide PushBit, Push, ReverseLoop, FoldBits, Backwards;
    if bits == [] {
      NoBits(0);
      NoBits(out);
      NoTurns(0, out);
    } else {
      var last := |bits| - 1;
      var init, bit := bits[..last], bits[last];
      FoldLast(0, bits);
      LowBits(init);
      PopBit(FoldBits(0, init), bit, out);
      OneTurn(FoldBits(0, bits), out, |bits|);
      ReverseFold(init, PushBit(out, bit));
      FoldShift(out, Backwards(init), bit);
      BackwardsLast(bits);
    }
  }

  lemma ObservedMirrored(word: seq<bool>, reverse: bool)
    requires |word| == INFO_BITS
    ensures Is12(Observed(word, reverse))
    ensures Observed(word, !reverse) == Reverse12(Observed(word, reverse))
  {
    hide PushBit, ReverseLoop;
    var field := word[PAYLOAD_BITS..];
    var bits := if reverse then Backwards(field) else field;
    FoldFits(bits);
    MaskTable();
    ReverseFold(bits, 0);
    assert Backwards(Backwards(field)) == field;
  }

  // ---------------------------------------------------------------- linearity

  lemma LowBitLinear(a: Reg, b: Reg)
    ensures LowBit(XorReg(a, b)) == (LowBit(a) != LowBit(b))
  {
    if LowBit(a) {
      if LowBit(b) { assert !LowBit(XorReg(a, b)); } else { assert LowBit(XorReg(a, b)); }
    } else {
      if LowBit(b) { assert LowBit(XorReg(a, b)); } else { assert !LowBit(XorReg(a, b)); }
    }
  }

  lemma TopBitLinear(a: Reg, b: Reg)
    ensures TopBit(XorReg(a, b)) == (TopBit(a) != TopBit(b))
  {
    if TopBit(a) {
      if TopBit(b) { assert !TopBit(XorReg(a, b)); } else { assert TopBit(XorReg(a, b)); }
    } else {
      if TopBit(b) { assert TopBit(XorReg(a, b)); } else { assert !TopBit(XorReg(a, b)); }
    }
  }

  lemma ShiftsLinear(a: Reg, b: Reg)
    ensures ShiftRight(XorReg(a, b)) == XorReg(ShiftRight(a), ShiftRight(b))
    ensures ShiftLeft(XorReg(a, b)) == XorReg(ShiftLeft(a), ShiftLeft(b))
    ensures LowBit(XorReg(a, b)) == (LowBit(a) != LowBit(b))
    ensures TopBit(XorReg(a, b)) == (TopBit(a) != TopBit(b))
  {
    hide LowBit, TopBit;
    LowBitLinear(a, b);
    TopBitLinear(a, b);
  }

  lemma FeedCases(s: Reg, x: bool, p: Reg)
    ensures Feed(s, x, p) == if x then XorReg(s, p) else s
  {
  }

  lemma XorShuffle(s: Reg, t: Reg, p: Reg)
    ensures XorReg(XorReg(s, t), p) == XorReg(XorReg(s, p), t) == XorReg(s, XorReg(t, p))
    ensures XorReg(s, t) == XorReg(XorReg(s, p), XorReg(t, p))
  {
  }

  lemma FeedLinear(s: Reg, t: Reg, x: bool, y: bool, p: Reg)
    ensures Feed(XorReg(s, t), x != y, p) == XorReg(Feed(s, x, p), Feed(t, y, p))
  {
    hide XorReg, Feed;
    FeedCases(XorReg(s, t), x != y, p);
    FeedCases(s, x, p);
    FeedCases(t, y, p);
    XorShuffle(s, t, p);
  }

  lemma StepLinear(lsb: bool, a: Reg, b: Reg, bit: bool, poly: Reg)
    ensures Step(lsb, XorReg(a, b), bit, poly) == XorReg(Step(lsb, a, bit, poly), Step(lsb, b, false, poly))
  {
    hide Feed, ShiftLeft, ShiftRight, TopBit, LowBit, XorReg;
    ShiftsLinear(a, b);
    if lsb {
      FeedLinear(ShiftRight(a), ShiftRight(b), LowBit(a) != bit, LowBit(b), poly);
    } else {
      FeedLinear(ShiftLeft(a), ShiftLeft(b), TopBit(a) != bit, TopBit(b), poly);
    }
  }

  lemma XorZeroReg(a: Reg)
    ensures XorReg(0, a) == a && XorReg(a, 0) == a
  {
  }

  /** The starting value only adds a constant to the register, the same for all bit strings of
      one length. */
  lemma {:induction false} RunFromInit(lsb: bool, init: Reg, bits: seq<bool>, zeros: seq<bool>, poly: Reg)
    requires |zeros| == |bits| && forall i | 0 <= i < |zeros| :: !zeros[i]
    ensures Run(lsb, init, bits, poly) == XorReg(Run(lsb, 0, bits, poly), Run(lsb, init, zeros, poly))
  {
    hide Step, XorReg;
    if bits == [] {
      XorZeroReg(init);
    } else {
      var last := |bits| - 1;
      RunFromInit(lsb, init, bits[..last], zeros[..last], poly);
      StepLinear(lsb, Run(lsb, 0, bits[..last], poly), Run(lsb, init, zeros[..last], poly), bits[last], poly);
    }
  }

  lemma XorRegAssoc(a: Reg, b: Reg, c: Reg)
    ensures XorReg(XorReg(a, b), c) == XorReg(a, XorReg(b, c))
  {
  }
}
