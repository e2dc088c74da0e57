/** The exhaustive search for CRC parameters: direction, order of the CRC field's bits and
    polynomial, with the offset read off the first word. */
module CrcSearch {
  import opened CrcRegisters
  import opened FiniteSets
  import opened RegisterOrder

  datatype Match = Match(lsb: bool, reverse: bool, poly: Reg, offset: Reg)

  ghost predicate IsInfo(words: seq<seq<bool>>) {
    forall i | 0 <= i < |words| :: |words[i]| == INFO_BITS
  }

  function RawCrc(word: seq<bool>, lsb: bool, poly: Reg): Reg
    requires |word| == INFO_BITS
  {
    Run(lsb, 0, word[..PAYLOAD_BITS], poly)
  }

  /** The parameters explain one word. */
  predicate Explains(m: Match, word: seq<bool>)
    requires |word| == INFO_BITS
  {
    XorReg(RawCrc(word, m.lsb, m.poly), m.offset) == Observed(word, m.reverse)
  }

  ghost predicate IsMatch(words: seq<seq<bool>>, m: Match)
    requires IsInfo(words)
  {
    0 < m.poly < 0x1000 && forall i | 0 <= i < |words| :: Explains(m, words[i])
  }

  method ComputeRaw(word: seq<bool>, lsb: bool, poly: Reg) returns (crc: Reg)
    requires |word| == INFO_BITS && Is12(poly)
    ensures crc == RawCrc(word, lsb, poly)
  {
    if lsb { crc := Crc12Lsb(word, poly); } else { crc := Crc12Msb(word, poly); }
  }

  lemma XorBack(x: Reg, y: Reg)
    ensures XorReg(x, XorReg(x, y)) == y
  {
  }

  lemma XorForced(x: Reg, y: Reg, offset: Reg)
    requires XorReg(x, offset) == y
    ensures offset == XorReg(x, y)
  {
  }

  lemma OffsetOfWord(m: Match, word: seq<bool>)
    requires |word| == INFO_BITS
    ensures Explains(m, word) <==> m.offset == XorReg(RawCrc(word, m.lsb, m.poly), Observed(word, m.reverse))
  {
    hide RawCrc, Observed, XorReg;
    var x, y := RawCrc(word, m.lsb, m.poly), Observed(word, m.reverse);
    XorBack(x, y);
    if Explains(m, word) { XorForced(x, y, m.offset); }
  }

  /** One candidate: the offset is read off the first word and tried on the rest. */
  method TryParameters(words: seq<seq<bool>>, lsb: bool, reverse: bool, poly: Reg) returns (valid: bool, offset: Reg)
    requires IsInfo(words) && |words| >= 2 && 0 < poly < 0x1000
    ensures valid <==> IsMatch(words, Match(lsb, reverse, poly, offset))
    ensures forall m | IsMatch(words, m) && m.lsb == lsb && m.reverse == reverse && m.poly == poly :: m.offset == offset
  {
    hide Is12, RawCrc, Observed, XorReg;
    var firstRaw := ComputeRaw(words[0], lsb, poly);
    var firstObserved := ObservedCrc(words[0], reverse);
    offset := XorReg(firstRaw, firstObserved);
    var m := Match(lsb, reverse, poly, offset);
    OffsetOfWord(m, words[0]);
    forall other | IsMatch(words, other) && other.lsb == lsb && other.reverse == reverse && other.poly == poly
      ensures other.offset == offset
    {
      OffsetOfWord(other, words[0]);
    }
    for i := 1 to |words|
      invariant forall j | 0 <= j < i :: Explains(m, words[j])
    {
      var raw := ComputeRaw(words[i], lsb, poly);
      var observed := ObservedCrc(words[i], reverse);
      if XorReg(raw, offset) != observed {
        assert !Explains(m, words[i]);
        return false, offset;
      }
    }
    return true, offset;
  }

  /** The order of the loops: direction, then bit order, then polynomial. */
  predicate Before(a: Match, b: Match) {
    if a.lsb != b.lsb then b.lsb else if a.reverse != b.reverse then b.reverse else Lt(a.poly, b.poly)
  }

  ghost predicate Ascending(matches: seq<Match>) {
    forall i, j | 0 <= i < j < |matches| :: Before(matches[i], matches[j])
  }

  /** A list in this order repeats nothing. */
  lemma AscendingDistinct(matches: seq<Match>)
    requires Ascending(matches)
    ensures forall i, j | 0 <= i < j < |matches| :: matches[i] != matches[j]
  {
    forall i, j | 0 <= i < j < |matches| ensures matches[i] != matches[j] {
      NotBelowItself(matches[i].poly);
    }
  }

  predicate InRange(q: Reg, poly: Reg) { Lt(0, q) && Lt(q, poly) }

  lemma NoPolyYet()
    ensures forall q: Reg :: !InRange(q, 1)
  {
    forall q: Reg ensures !InRange(q, 1) {
    }
  }

  /** Already looked at: everything below poly for this direction and bit order. */
  ghost predicate ListsAll(words: seq<seq<bool>>, matches: seq<Match>, lsb: bool, reverse: bool, poly: Reg)
    requires IsInfo(words)
  {
    && Ascending(matches)
    && (forall m | m in matches :: IsMatch(words, m))
    && (forall m | m in matches && m.lsb == lsb && m.reverse == reverse :: InRange(m.poly, poly))
    && (forall m | IsMatch(words, m) && m.lsb == lsb && m.reverse == reverse && InRange(m.poly, poly) :: m in matches)
  }

  lemma RangeGrows(poly: Reg)
    requires Lt(0, poly) && Lt(poly, 0x1000)
    ensures forall q: Reg :: InRange(q, poly + 1) <==> InRange(q, poly) || q == poly
    ensures !InRange(poly, poly)
  {
    hide Lt;
    NotBelowItself(poly);
    forall q: Reg ensures InRange(q, poly + 1) <==> InRange(q, poly) || q == poly {
      BelowNext(poly, q);
      assert InRange(q, poly + 1) <==> Lt(0, q) && Lt(q, poly + 1);
    }
  }

  predicate ScannedEarlier(m: Match, lsb: bool, reverse: bool) {
    if m.lsb != lsb then lsb else m.reverse != reverse && reverse
  }

  lemma AppendAscending(matches: seq<Match>, m: Match)
    requires Ascending(matches)
    requires forall x | x in matches :: ScannedEarlier(x, m.lsb, m.reverse) ||
                                        (x.lsb == m.lsb && x.reverse == m.reverse && InRange(x.poly, m.poly))
    ensures Ascending(matches + [m])
  {
    hide Lt;
    forall i | 0 <= i < |matches| ensures Before(matches[i], m) {
      assert matches[i] in matches;
    }
  }

  /** All polynomials for one direction and bit order, appended to what was found before. */
  method ScanPolynomials(words: seq<seq<bool>>, lsb: bool, reverse: bool, matches0: seq<Match>) returns (matches: seq<Match>)
    requires IsInfo(words) && |words| >= 2
    requires Ascending(matches0)
    requires forall m | m in matches0 :: IsMatch(words, m) && ScannedEarlier(m, lsb, reverse)
    ensures matches0 <= matches && ListsAll(words, matches, lsb, reverse, 0x1000)
    ensures forall m | m in matches :: m in matches0 || (m.lsb == lsb && m.reverse == reverse)
  {
    hide IsMatch, InRange, Ascending;
    NoPolyYet();
    matches := matches0;
    var poly: Reg := 1;
    while poly < 0x1000
      invariant 0 < poly <= 0x1000
      invariant matches0 <= matches && ListsAll(words, matches, lsb, reverse, poly)
      invariant forall m | m in matches :: m in matches0 || (m.lsb == lsb && m.reverse == reverse)
      decreases 0x1000 - poly
    {
      var valid, offset := TryParameters(words, lsb, reverse, poly);
      RangeGrows(poly);
      if valid {
        AppendAscending(matches, Match(lsb, reverse, poly, offset));
        matches := matches + [Match(lsb, reverse, poly, offset)];
      }
      poly := poly + 1;
    }
  }

  lemma MatchInRange(words: seq<seq<bool>>, m: Match)
    requires IsInfo(words) && IsMatch(words, m)
    ensures InRange(m.poly, 0x1000)
  {
  }

  /** The whole search: every match, each exactly once. */
  method SearchCrc(words: seq<seq<bool>>) returns (exit: int, matches: seq<Match>)
    requires IsInfo(words)
    ensures exit == 2 <==> |words| < 2
    ensures exit != 2 ==> Ascending(matches) && forall m :: m in matches <==> IsMatch(words, m)
    ensures exit == 0 <==> exit != 2 && matches != []
    ensures exit == 0 || exit == 1 || exit == 2
  {
    hide IsMatch, InRange, Lt;
    if |words| < 2 { return 2, []; }
    var none: seq<Match> := [];
    var a := ScanPolynomials(words, false, false, none);
    var b := ScanPolynomials(words, false, true, a);
    var c := ScanPolynomials(words, true, false, b);
    matches := ScanPolynomials(words, true, true, c);
    forall m ensures m in matches <==> IsMatch(words, m) {
      if IsMatch(words, m) {
        MatchInRange(words, m);
        assert m.lsb == false && m.reverse == false ==> m in a;
        assert m.lsb == false && m.reverse == true ==> m in b;
        assert m.lsb == true && m.reverse == false ==> m in c;
      }
    }
    exit := if matches == [] then 1 else 0;
  }

  // ---------------------------------------------------------------- what the search can tell

  /** The same register read in the mirror: other direction, other bit order, mirrored numbers. */
  function Mirror(m: Match): Match {
    Match(!m.lsb, !m.reverse, Reverse12(m.poly), Reverse12(m.offset))
  }

  lemma RangeIs12(poly: Reg)
    ensures 0 < poly < 0x1000 <==> Is12(poly) && poly != 0
  {
  }

  lemma MirrorRaw(word: seq<bool>, lsb: bool, poly: Reg)
    requires |word| == INFO_BITS && Is12(poly)
    ensures RawCrc(word, !lsb, Reverse12(poly)) == Reverse12(RawCrc(word, lsb, poly))
    ensures Is12(RawCrc(word, lsb, poly))
  {
    hide Reverse12, Run, Is12;
    var bits := word[..PAYLOAD_BITS];
    ZeroIs12();
    ReverseFacts(0, 0);
    ReverseFacts(poly, poly);
    RunIs12(lsb, 0, bits, poly);
    if lsb {
      RunMirrored(0, bits, Reverse12(poly));
      RunIs12(false, 0, bits, Reverse12(poly));
      ReverseFacts(Run(false, 0, bits, Reverse12(poly)), 0);
    } else {
      RunMirrored(0, bits, poly);
    }
  }

  lemma XorRegIs12(a: Reg, b: Reg)
    requires Is12(a) && Is12(b)
    ensures Is12(XorReg(a, b)) && Reverse12(XorReg(a, b)) == XorReg(Reverse12(a), Reverse12(b))
  {
    hide Reverse12, Is12;
    ReverseFacts(a, b);
  }

  lemma MirrorExplains(m: Match, word: seq<bool>)
    requires |word| == INFO_BITS && Is12(m.poly) && Explains(m, word)
    ensures Is12(m.offset) && Explains(Mirror(m), word)
  {
    hide Reverse12, RawCrc, Observed, Is12, XorReg, Explains;
    var x, y := RawCrc(word, m.lsb, m.poly), Observed(word, m.reverse);
    OffsetOfWord(m, word);
    MirrorRaw(word, m.lsb, m.poly);
    ObservedMirrored(word, m.reverse);
    XorRegIs12(x, y);
    OffsetOfWord(Mirror(m), word);
  }

  /** Every match has a different mirror match, and mirroring twice comes back. */
  lemma MirrorIsMatch(words: seq<seq<bool>>, m: Match)
    requires IsInfo(words) && words != [] && IsMatch(words, m)
    ensures IsMatch(words, Mirror(m)) && Mirror(m) != m && Mirror(Mirror(m)) == m
  {
    hide Reverse12, Is12, Explains;
    RangeIs12(m.poly);
    RangeIs12(Reverse12(m.poly));
    MirrorExplains(m, words[0]);
    ReverseFacts(m.poly, m.offset);
    ReverseFacts(m.offset, m.poly);
    forall i | 0 <= i < |words| ensures Explains(Mirror(m), words[i]) {
      MirrorExplains(m, words[i]);
    }
  }

  lemma {:induction false} MirrorClosedIsEven(words: seq<seq<bool>>, s: set<Match>)
    requires IsInfo(words) && words != []
    requires forall m | m in s :: IsMatch(words, m) && Mirror(m) in s
    ensures |s| % 2 == 0
  {
    hide IsMatch, Mirror;
    if s != {} {
      var m :| m in s;
      MirrorIsMatch(words, m);
      var s' := s - {m, Mirror(m)};
      forall x | x in s' ensures Mirror(x) in s' {
        MirrorIsMatch(words, x);
      }
      assert s == s' + {m, Mirror(m)};
      MirrorClosedIsEven(words, s');
    }
  }

  /** However many words are given, the matches come in mirror pairs: their number is even, so the
      search never identifies a single parameter set. */
  lemma MatchCountIsEven(words: seq<seq<bool>>, matches: seq<Match>)
    requires IsInfo(words) && words != [] && Ascending(matches)
    requires forall m :: m in matches <==> IsMatch(words, m)
    ensures |matches| % 2 == 0
  {
    hide IsMatch, Mirror;
    var s := set m | m in matches;
    forall m | m in s ensures IsMatch(words, m) && Mirror(m) in s {
      MirrorIsMatch(words, m);
    }
    MirrorClosedIsEven(words, s);
    AscendingDistinct(matches);
    ElementsExactly(matches);
  }

  /** The words' CRC fields come from a 12-bit register with these settings. */
  ghost predicate GeneratedBy(words: seq<seq<bool>>, lsb: bool, reverse: bool, poly: Reg, init: Reg, final: Reg)
    requires IsInfo(words)
  {
    forall i | 0 <= i < |words| ::
      Observed(words[i], reverse) == XorReg(Run(lsb, init, words[i][..PAYLOAD_BITS], poly), final)
  }

  lemma ExplainsByRun(m: Match, word: seq<bool>)
    requires |word| == INFO_BITS
    ensures Explains(m, word) <==> XorReg(Run(m.lsb, 0, word[..PAYLOAD_BITS], m.poly), m.offset) == Observed(word, m.reverse)
  {
    hide Run, Observed, XorReg;
  }

  /** The search is complete: whatever the direction, bit order, nonzero polynomial, initial value
      and final XOR, the words' own direction, order and polynomial are among the matches. */
  lemma GeneratorIsFound(words: seq<seq<bool>>, lsb: bool, reverse: bool, poly: Reg, init: Reg, final: Reg)
    requires IsInfo(words) && 0 < poly < 0x1000 && GeneratedBy(words, lsb, reverse, poly, init, final)
    ensures exists offset :: IsMatch(words, Match(lsb, reverse, poly, offset))
  {
    hide Run, Observed, XorReg, Explains;
    var zeros: seq<bool> := seq(PAYLOAD_BITS, _ => false);
    var offset := XorReg(Run(lsb, init, zeros, poly), final);
    var m := Match(lsb, reverse, poly, offset);
    forall i | 0 <= i < |words| ensures Explains(m, words[i]) {
      var bits := words[i][..PAYLOAD_BITS];
      RunFromInit(lsb, init, bits, zeros, poly);
      XorRegAssoc(Run(lsb, 0, bits, poly), Run(lsb, init, zeros, poly), final);
      ExplainsByRun(m, words[i]);
    }
    assert IsMatch(words, m);
  }

  /** The matches depend on which words there are, not on their order or repetitions. */
  lemma OrderDoesNotMatter(a: seq<seq<bool>>, b: seq<seq<bool>>, m: Match)
    requires IsInfo(a) && IsInfo(b) && forall w :: w in a <==> w in b
    ensures IsMatch(a, m) <==> IsMatch(b, m)
  {
    hide Explains;
    if IsMatch(a, m) {
      forall i | 0 <= i < |b| ensures Explains(m, b[i]) { assert b[i] in a; }
    }
    if IsMatch(b, m) {
      forall i | 0 <= i < |a| ensures Explains(m, a[i]) { assert a[i] in b; }
    }
  }
}
