/** The two tools in sequence: search for sparse checks of the code the words span, then emit the
    graph of those checks, guarded by a rank comparison. The end-to-end result is about what the
    emitted graph accepts. */
module Reconstruction {
  import opened FiniteSets
  import opened Gf2
  import opened Elimination
  import opened CodeSpaces
  import opened Sorting
  import opened SparseParity
  import opened Graphs

  /** What the sparse search prints, and the two spaces behind the printed ranks. */
  datatype Report = Report(
    frames: nat, codeRank: nat, parityDimension: nat, found: nat, valid: nat, checkRank: nat,
    checks: seq<Vec>, code: CodeSpace, checkSpace: CodeSpace, incomplete: bool)

  ghost predicate Orthogonal(words: seq<Vec>, h: Vec)
    requires Uniform(|h|, words)
  {
    forall i | 0 <= i < |words| :: !Dot(words[i], h)
  }

  function ColumnSignature(basis: seq<Vec>, column: nat): (s: Vec)
    requires forall row | 0 <= row < |basis| :: column < |basis[row]|
    ensures |s| == |basis|
  {
    seq(|basis|, row requires 0 <= row < |basis| => basis[row][column])
  }

  ghost function ColumnsOf(n: nat, basis: seq<Vec>): (columns: seq<Vec>)
    requires Uniform(n, basis)
    ensures Uniform(|basis|, columns) && |columns| == n
  {
    seq(n, c requires 0 <= c < n => ColumnSignature(basis, c))
  }

  // ---------------------------------------------------------------- what a column check means

  lemma {:induction false} ColumnSumIsParity(n: nat, basis: seq<Vec>, v: Vec, k: nat, row: nat)
    requires Uniform(n, basis) && |v| == n && k <= n && row < |basis|
    ensures ColumnSum(|basis|, ColumnsOf(n, basis), v, k)[row] == Parity(basis[row], v, k)
  {
    if k > 0 { ColumnSumIsParity(n, basis, v, k - 1, row); }
  }

  /** The transposed signatures are sound and complete: a word is a check of the columns exactly
      when it has weight 6 and is orthogonal to every basis row. */
  lemma ColumnCheckMeaning(n: nat, basis: seq<Vec>, v: Vec)
    requires Uniform(n, basis) && |v| == n
    ensures IsCheck(n, |basis|, ColumnsOf(n, basis), v) <==> Weight(v) == 6 && Orthogonal(basis, v)
  {
    var sum := ColumnSum(|basis|, ColumnsOf(n, basis), v, n);
    forall row | 0 <= row < |basis| ensures sum[row] == Dot(basis[row], v) {
      ColumnSumIsParity(n, basis, v, n, row);
    }
    if Orthogonal(basis, v) { assert sum == Zero(|basis|); }
    if sum == Zero(|basis|) {
      forall row | 0 <= row < |basis| ensures !Dot(basis[row], v) {
        assert !sum[row];
      }
    }
  }

  lemma SameSpanSameDual(n: nat, a: seq<Vec>, b: seq<Vec>, h: Vec)
    requires Uniform(n, a) && Uniform(n, b) && |h| == n && Span(n, a) == Span(n, b)
    ensures Orthogonal(a, h) <==> Orthogonal(b, h)
  {
    if Orthogonal(a, h) {
      forall i | 0 <= i < |b| ensures !Dot(b[i], h) {
        SpanHasRow(n, b, i);
        SpanOrthogonal(n, a, h, b[i]);
      }
    }
    if Orthogonal(b, h) {
      forall i | 0 <= i < |a| ensures !Dot(a[i], h) {
        SpanHasRow(n, a, i);
        SpanOrthogonal(n, b, h, a[i]);
      }
    }
  }

  // ---------------------------------------------------------------- the sparse search

  method CollectBasis(n: nat, code: CodeSpace) returns (basis: seq<Vec>)
    requires Shaped(n, code.hasPivot, code.pivotRows)
    ensures basis == Selected(n, code.hasPivot, code.pivotRows, 0)
  {
    basis := [];
    for pivot := 0 to n
      invariant Uniform(n, basis)
      invariant basis + Selected(n, code.hasPivot, code.pivotRows, pivot) == Selected(n, code.hasPivot, code.pivotRows, 0)
    {
      SelectedStep(n, code.hasPivot, code.pivotRows, pivot, basis);
      assert basis + [] == basis;
      if code.hasPivot[pivot] { basis := basis + [code.pivotRows[pivot]]; }
    }
  }

  method ComputeSignature(basis: seq<Vec>, column: nat) returns (signature: Vec)
    requires forall row | 0 <= row < |basis| :: column < |basis[row]|
    ensures signature == ColumnSignature(basis, column)
  {
    signature := Zero(|basis|);
    for row := 0 to |basis|
      invariant |signature| == |basis|
      invariant forall i | 0 <= i < |basis| :: signature[i] == (i < row && basis[i][column])
    {
      if basis[row][column] { signature := signature[row := true]; }
    }
  }

  method ComputeColumns(n: nat, basis: seq<Vec>) returns (columns: seq<Vec>)
    requires Uniform(n, basis)
    ensures columns == ColumnsOf(n, basis)
  {
    columns := [];
    for column := 0 to n
      invariant |columns| == column
      invariant forall c | 0 <= c < column :: columns[c] == ColumnSignature(basis, c)
    {
      var s := ComputeSignature(basis, column);
      columns := columns + [s];
    }
  }

  /** The number of checks that are even on every word. */
  ghost function ValidChecks(words: seq<Vec>, checks: seq<Vec>): (count: nat)
    requires forall k | 0 <= k < |checks| :: Uniform(|checks[k]|, words)
    ensures count <= |checks|
  {
    if checks == [] then 0 else
      var last := |checks| - 1;
      ValidChecks(words, checks[..last]) + if Orthogonal(words, checks[last]) then 1 else 0
  }

  lemma {:induction false} AllValid(words: seq<Vec>, checks: seq<Vec>)
    requires forall k | 0 <= k < |checks| :: Uniform(|checks[k]|, words)
    ensures ValidChecks(words, checks) == |checks| <==> forall k | 0 <= k < |checks| :: Orthogonal(words, checks[k])
  {
    if checks != [] {
      var last := |checks| - 1;
      AllValid(words, checks[..last]);
      assert forall k | 0 <= k < last :: checks[..last][k] == checks[k];
    }
  }

  method CountValid(n: nat, words: seq<Vec>, checks: seq<Vec>) returns (valid: nat)
    requires Uniform(n, words) && Uniform(n, checks)
    ensures valid == ValidChecks(words, checks)
  {
    valid := 0;
    for k := 0 to |checks|
      invariant valid == ValidChecks(words, checks[..k])
    {
      var good := true;
      for i := 0 to |words|
        invariant good && forall j | 0 <= j < i :: !Dot(words[j], checks[k])
      {
        var odd := ComputeDot(words[i], checks[k]);
        if odd {
          good := false;
          break;
        }
      }
      assert good <==> Orthogonal(words, checks[k]);
      assert checks[..k + 1][..k] == checks[..k];
      if good { valid := valid + 1; }
    }
    assert checks[..|checks|] == checks;
  }

  /** What a report says about the words it was computed from. */
  ghost predicate ReportOf(n: nat, words: seq<Vec>, maxChecks: nat, report: Report) {
    && Uniform(n, words) && Uniform(n, report.checks)
    && report.frames == |words|
    && Describes(n, words, report.code)
    && report.codeRank == report.code.rank && report.parityDimension == report.code.nullity
    && report.found == |report.checks| <= maxChecks
    && report.valid == report.found
    && Distinct(report.checks)
    && (forall k | 0 <= k < report.found :: Weight(report.checks[k]) == 6 && Orthogonal(words, report.checks[k]))
    && (report.found < maxChecks ==>
          forall h | |h| == n && Weight(h) == 6 && Orthogonal(words, h) :: h in report.checks)
    && (report.found > 0 ==> Describes(n, report.checks, report.checkSpace) && report.checkRank == report.checkSpace.rank)
    && (report.found == 0 ==> report.checkRank == 0)
    && report.checkRank <= report.parityDimension
    && (report.incomplete <==> report.found == 0 || report.checkRank != report.parityDimension)
  }

  lemma DescribesSpan(n: nat, words: seq<Vec>, cs: CodeSpace)
    requires Describes(n, words, cs)
    ensures Shaped(n, cs.hasPivot, cs.pivotRows)
    ensures Span(n, Selected(n, cs.hasPivot, cs.pivotRows, 0)) == Span(n, words)
  {
  }

  lemma FoundChecks(n: nat, words: seq<Vec>, basis: seq<Vec>, checks: seq<Vec>)
    requires Uniform(n, words) && Uniform(n, basis) && Span(n, basis) == Span(n, words)
    requires AllChecks(n, |basis|, ColumnsOf(n, basis), checks)
    ensures Uniform(n, checks)
    ensures forall k | 0 <= k < |checks| :: Weight(checks[k]) == 6 && Orthogonal(words, checks[k])
  {
    forall k | 0 <= k < |checks|
      ensures |checks[k]| == n && Weight(checks[k]) == 6 && Orthogonal(words, checks[k])
    {
      ColumnCheckMeaning(n, basis, checks[k]);
      SameSpanSameDual(n, basis, words, checks[k]);
    }
  }

  lemma ChecksWithinDual(n: nat, words: seq<Vec>, code: CodeSpace, checks: seq<Vec>)
    requires Describes(n, words, code) && Uniform(n, checks)
    requires forall k | 0 <= k < |checks| :: Orthogonal(words, checks[k])
    ensures Span(n, checks) <= Span(n, Checks(n, code))
  {
    forall k | 0 <= k < |checks| ensures checks[k] in Span(n, Checks(n, code)) {
      ParitySpansDual(n, words, code, checks[k]);
    }
    SpanLeast(n, checks, Checks(n, code));
  }

  /** Checks of the words never have a rank above the parity dimension. */
  lemma CheckRankBound(n: nat, words: seq<Vec>, code: CodeSpace, checks: seq<Vec>, space: CodeSpace)
    requires Describes(n, words, code) && Describes(n, checks, space)
    requires forall k | 0 <= k < |checks| :: Orthogonal(words, checks[k])
    ensures space.rank <= code.nullity
  {
    ChecksWithinDual(n, words, code, checks);
    SubsetSize(Span(n, checks), Span(n, Checks(n, code)));
    RankCountsWords(n, words, code);
    RankCountsWords(n, checks, space);
    Pow2Monotone(space.rank, code.nullity);
  }

  /** Which checks were found, and in which order: the first ones that joining the sorted triples of the
      basis columns comes across. */
  ghost predicate SearchedIn(n: nat, code: CodeSpace, maxChecks: nat, sort: seq<TripleEntry> -> seq<TripleEntry>,
                             checks: seq<Vec>)
    requires Shaped(n, code.hasPivot, code.pivotRows)
  {
    var basis := Selected(n, code.hasPivot, code.pivotRows, 0);
    && (n < 6 ==> checks == [])
    && (n >= 6 ==> exists entries ::
          && Listed(|basis|, ColumnsOf(n, basis), entries)
          && checks == Upto(Found(n, sort(entries), |sort(entries)|, 0), maxChecks))
  }

  /** The sparse search. With usable arguments it always succeeds: elimination cannot fail, and
      every check it finds is a check of every input word. */
  method SparseSearch(n: nat, words: seq<Vec>, maxChecks: nat, sort: seq<TripleEntry> -> seq<TripleEntry>)
    returns (exit: int, report: Report)
    requires Uniform(n, words) && Conforms(EntryLess(), sort)
    ensures exit == 2 <==> words == [] || maxChecks == 0 || maxChecks > 4096
    ensures exit == 0 || exit == 2
    ensures exit == 0 ==> ReportOf(n, words, maxChecks, report)
    ensures exit == 0 ==> SearchedIn(n, report.code, maxChecks, sort, report.checks)
  {
    hide Describes, IsCheck, Weight, Distinct, Found, Listed;
    var none := CodeSpace(0, 0, [], [], []);
    report := Report(|words|, 0, 0, 0, 0, 0, [], none, none, true);
    if maxChecks == 0 || maxChecks > 4096 { return 2, report; }
    if words == [] { return 2, report; }

    var ok, code := Analyze(n, words);
    if !ok { return 1, report; }
    assert Shaped(n, code.hasPivot, code.pivotRows)
        && Span(n, Selected(n, code.hasPivot, code.pivotRows, 0)) == Span(n, words) by { DescribesSpan(n, words, code); }
    var basis := CollectBasis(n, code);
    var columns := ComputeColumns(n, basis);
    var output := new Vec[maxChecks](_ => Zero(n));
    var found := FindWeight6(n, |basis|, columns, output, maxChecks, sort);
    var checks := output[..found];
    FoundChecks(n, words, basis, checks);
    forall h | found < maxChecks && |h| == n && Weight(h) == 6 && Orthogonal(words, h) ensures h in checks {
      SameSpanSameDual(n, basis, words, h);
      ColumnCheckMeaning(n, basis, h);
    }

    var valid := CountValid(n, words, checks);
    AllValid(words, checks);
    var haveSpace, checkSpace := false, none;
    if found != 0 { haveSpace, checkSpace := Analyze(n, checks); }
    var checkRank := if haveSpace then checkSpace.rank else 0;
    if haveSpace { CheckRankBound(n, words, code, checks, checkSpace); }
    report := Report(|words|, code.rank, code.nullity, found, valid, checkRank, checks, code, checkSpace,
                     !haveSpace || checkRank < code.nullity);
    exit := if valid == found then 0 else 1;
  }

  // ---------------------------------------------------------------- when checks are enough

  /** Checks of the words have the rank of the whole dual space only if they generate it. */
  lemma EqualRanksEqualSpans(n: nat, words: seq<Vec>, code: CodeSpace, checks: seq<Vec>, space: CodeSpace)
    requires Describes(n, words, code) && Describes(n, checks, space)
    requires forall k | 0 <= k < |checks| :: Orthogonal(words, checks[k])
    ensures space.rank == code.nullity <==> Span(n, checks) == Span(n, Checks(n, code))
  {
    assert Uniform(n, checks) && Shaped(n, code.hasPivot, code.pivotRows);
    hide Describes, Span, Checks, Orthogonal;
    ChecksWithinDual(n, words, code, checks);
    RankCountsWords(n, words, code);
    RankCountsWords(n, checks, space);
    if space.rank == code.nullity {
      SubsetSameSize(Span(n, checks), Span(n, Checks(n, code)));
    }
    if Span(n, checks) == Span(n, Checks(n, code)) {
      Pow2Injective(space.rank, code.nullity);
    }
  }

  ghost predicate Accepts(checks: seq<Vec>, w: Vec)
    requires Uniform(|w|, checks)
  {
    forall k | 0 <= k < |checks| :: !Dot(w, checks[k])
  }

  lemma AcceptedMeetsSpan(n: nat, checks: seq<Vec>, w: Vec, h: Vec)
    requires Uniform(n, checks) && |w| == n && Accepts(checks, w) && h in Span(n, checks)
    ensures !Dot(w, h) && !Dot(h, w)
  {
    forall k | 0 <= k < |checks| ensures !Dot(checks[k], w) {
      ParitySymmetric(w, checks[k], n);
    }
    SpanOrthogonal(n, checks, w, h);
    ParitySymmetric(w, h, n);
  }

  lemma EnoughChecks(n: nat, words: seq<Vec>, code: CodeSpace, checks: seq<Vec>, space: CodeSpace, w: Vec)
    requires Describes(n, words, code) && Describes(n, checks, space) && |w| == n
    requires forall k | 0 <= k < |checks| :: Orthogonal(words, checks[k])
    requires space.rank == code.nullity
    ensures Accepts(checks, w) <==> w in Span(n, words)
  {
    if w in Span(n, words) {
      forall k | 0 <= k < |checks| ensures !Dot(w, checks[k]) {
        SpanOrthogonal(n, words, checks[k], w);
      }
    }
    if Accepts(checks, w) {
      EqualRanksEqualSpans(n, words, code, checks, space);
      forall i | 0 <= i < code.nullity ensures !Dot(w, code.parityBasis[i]) {
        assert Checks(n, code)[i] == code.parityBasis[i];
        SpanHasRow(n, Checks(n, code), i);
        AcceptedMeetsSpan(n, checks, w, code.parityBasis[i]);
      }
      DoubleDual(n, words, code, w);
    }
  }

  lemma ExactChecksSpanDual(n: nat, words: seq<Vec>, code: CodeSpace, checks: seq<Vec>, space: CodeSpace)
    requires Describes(n, words, code) && Describes(n, checks, space)
    requires forall k | 0 <= k < |checks| :: Orthogonal(words, checks[k])
    requires forall w: Vec | |w| == n :: Accepts(checks, w) <==> w in Span(n, words)
    ensures space.rank == code.nullity
  {
    forall h | h in Span(n, Checks(n, code)) ensures h in Span(n, checks) {
      ParitySpansDual(n, words, code, h);
      forall i | 0 <= i < space.nullity ensures !Dot(h, space.parityBasis[i]) {
        var p := space.parityBasis[i];
        assert Checks(n, space)[i] == p;
        SpanHasRow(n, Checks(n, space), i);
        ParitySpansDual(n, checks, space, p);
        forall k | 0 <= k < |checks| ensures !Dot(p, checks[k]) {
          ParitySymmetric(p, checks[k], n);
        }
        assert Accepts(checks, p);
        SpanOrthogonal(n, words, h, p);
        ParitySymmetric(p, h, n);
      }
      DoubleDual(n, checks, space, h);
    }
    ChecksWithinDual(n, words, code, checks);
    assert Span(n, checks) == Span(n, Checks(n, code));
    EqualRanksEqualSpans(n, words, code, checks, space);
  }

  /** The guard of the graph generator is exactly right: checks of the words accept the XORs of
      the words and nothing else if and only if their rank equals the parity dimension. */
  lemma RankGuardIsExact(n: nat, words: seq<Vec>, code: CodeSpace, checks: seq<Vec>, space: CodeSpace)
    requires Describes(n, words, code) && Describes(n, checks, space)
    requires forall k | 0 <= k < |checks| :: Orthogonal(words, checks[k])
    ensures space.rank == code.nullity
       <==> forall w: Vec | |w| == n :: Accepts(checks, w) <==> w in Span(n, words)
  {
    if space.rank == code.nullity {
      forall w: Vec | |w| == n ensures Accepts(checks, w) <==> w in Span(n, words) {
        EnoughChecks(n, words, code, checks, space, w);
      }
    }
    if forall w: Vec | |w| == n :: Accepts(checks, w) <==> w in Span(n, words) {
      ExactChecksSpanDual(n, words, code, checks, space);
    }
  }

  // ---------------------------------------------------------------- the graph generator

  /** The set positions of a check, ascending, as printed on its line and read back. */
  function Indices(v: Vec, k: nat): (list: seq<uint16>)
    requires k <= |v| <= 0x1_0000
  {
    if k == 0 then [] else Indices(v, k - 1) + if v[k - 1] then [(k - 1) as uint16] else []
  }

  ghost function Lines(checks: seq<Vec>): (lines: seq<seq<uint16>>)
    requires forall k | 0 <= k < |checks| :: |checks[k]| <= 0x1_0000
    ensures |lines| == |checks|
  {
    seq(|checks|, k requires 0 <= k < |checks| => Indices(checks[k], |checks[k]|))
  }

  lemma {:induction false} IndicesExact(v: Vec, k: nat)
    requires k <= |v| <= 0x1_0000
    ensures StrictlyIncreasing(Indices(v, k))
    ensures forall i | 0 <= i < |Indices(v, k)| :: Indices(v, k)[i] as nat < k && v[Indices(v, k)[i]]
  {
    if k > 0 { IndicesExact(v, k - 1); }
  }

  lemma {:induction false} IndicesParity(w: Vec, v: Vec, k: nat)
    requires k <= |v| == |w| <= 0x1_0000
    ensures forall i | 0 <= i < |Indices(v, k)| :: Indices(v, k)[i] as nat < |w|
    ensures ListParity(w, Indices(v, k)) == Parity(w, v, k)
  {
    IndicesExact(v, k);
    if k > 0 {
      IndicesParity(w, v, k - 1);
      if v[k - 1] {
        var list := Indices(v, k);
        assert list[..|list| - 1] == Indices(v, k - 1) && list[|list| - 1] as nat == k - 1;
      } else {
        assert Indices(v, k) == Indices(v, k - 1);
      }
    }
  }

  /** The graph generator: refuse a report without checks, refuse an incomplete one unless told
      otherwise, then build. */
  method GenerateGraph(n: uint16, lines: seq<seq<uint16>>, haveSummary: bool, parityDimension: nat, checkRank: nat,
                       allowIncomplete: bool, sort: seq<uint16> -> seq<uint16>)
    returns (exit: int, graph: GraphData)
    requires Conforms(Less16(), sort)
    ensures exit == 2 <==> !haveSummary || lines == []
    ensures exit == 0 <==> haveSummary && (allowIncomplete || checkRank == parityDimension) && Buildable(lines, n)
    ensures exit == 0 || exit == 1 || exit == 2
    ensures graph.variableCount == n
    ensures exit != 0 ==> graph == GraphData(n, [], [], [], [])
    ensures exit == 0 ==> GraphOf(SortRows(sort, lines), n as nat, Nats(graph.checkOffsets), graph.checkVariables,
                                  Nats(graph.variableOffsets), Nats(graph.variableEdges))
  {
    graph := GraphData(n, [], [], [], []);
    if !haveSummary || lines == [] { return 2, graph; }
    if !allowIncomplete && checkRank != parityDimension { return 1, graph; }
    var ok;
    ok, graph := BuildGraph(lines, n, sort);
    exit := if ok then 0 else 1;
  }

  ghost predicate EvenOnCheck(graph: GraphData, w: Vec, c: nat)
    requires c + 1 < |graph.checkOffsets|
  {
    && graph.checkOffsets[c] <= graph.checkOffsets[c + 1]
    && graph.checkOffsets[c + 1] as nat <= |graph.checkVariables|
    && (forall i | 0 <= i < |VariablesOfCheck(graph, c)| :: VariablesOfCheck(graph, c)[i] as nat < |w|)
    && !ListParity(w, VariablesOfCheck(graph, c))
  }

  /** A word passes the graph when every check's variable slice has even parity. */
  ghost predicate GraphAccepts(graph: GraphData, w: Vec) {
    forall c: nat | c + 1 < |graph.checkOffsets| :: EvenOnCheck(graph, w, c)
  }

  lemma CheckReadsBack(n: uint16, checks: seq<Vec>, sort: seq<uint16> -> seq<uint16>, graph: GraphData, w: Vec, c: nat)
    requires Conforms(Less16(), sort) && Uniform(n as nat, checks) && |w| == n as nat && c < |checks|
    requires GraphOf(SortRows(sort, Lines(checks)), n as nat, Nats(graph.checkOffsets), graph.checkVariables,
                     Nats(graph.variableOffsets), Nats(graph.variableEdges))
    ensures |graph.checkOffsets| == |checks| + 1
    ensures EvenOnCheck(graph, w, c) <==> !Dot(w, checks[c])
  {
    var rows := SortRows(sort, Lines(checks));
    var line := Indices(checks[c], n as nat);
    ChecksReadBack(rows, graph, n as nat, c);
    IndicesExact(checks[c], n as nat);
    SortedUnique(sort(line), line);
    assert rows[c] == sort(Lines(checks)[c]) == line;
    IndicesParity(w, checks[c], n as nat);
  }

  lemma GraphReadsChecks(n: uint16, checks: seq<Vec>, sort: seq<uint16> -> seq<uint16>, graph: GraphData, w: Vec)
    requires Conforms(Less16(), sort) && Uniform(n as nat, checks) && |w| == n as nat
    requires GraphOf(SortRows(sort, Lines(checks)), n as nat, Nats(graph.checkOffsets), graph.checkVariables,
                     Nats(graph.variableOffsets), Nats(graph.variableEdges))
    ensures GraphAccepts(graph, w) <==> Accepts(checks, w)
  {
    hide EvenOnCheck;
    assert |graph.checkOffsets| == |checks| + 1;
    forall c: nat | c < |checks| ensures EvenOnCheck(graph, w, c) <==> !Dot(w, checks[c]) {
      CheckReadsBack(n, checks, sort, graph, w, c);
    }
  }

  /** End to end. From any words, through elimination, the weight-6 search, the check lines and
      the counting sort: the graph accepts exactly the XORs of the input words if and only if the
      two ranks the guard compares are equal. */
  lemma EndToEnd(n: uint16, words: seq<Vec>, maxChecks: nat, report: Report,
                 sort: seq<uint16> -> seq<uint16>, graph: GraphData)
    requires ReportOf(n as nat, words, maxChecks, report) && report.found > 0
    requires Conforms(Less16(), sort)
    requires GraphOf(SortRows(sort, Lines(report.checks)), n as nat, Nats(graph.checkOffsets), graph.checkVariables,
                     Nats(graph.variableOffsets), Nats(graph.variableEdges))
    ensures report.checkRank == report.parityDimension
       <==> forall w: Vec | |w| == n as nat :: GraphAccepts(graph, w) <==> w in Span(n as nat, words)
  {
    RankGuardIsExact(n as nat, words, report.code, report.checks, report.checkSpace);
    forall w: Vec | |w| == n as nat ensures GraphAccepts(graph, w) <==> Accepts(report.checks, w) {
      GraphReadsChecks(n, report.checks, sort, graph, w);
    }
  }

  lemma {:induction false} IndicesWeight(v: Vec, k: nat)
    requires k <= |v| <= 0x1_0000
    ensures |Indices(v, k)| == Weight(v[..k])
  {
    if k > 0 {
      IndicesWeight(v, k - 1);
      assert v[..k][..k - 1] == v[..k - 1];
    }
  }

  lemma {:induction false} LinesLength(lines: seq<seq<uint16>>)
    requires forall c | 0 <= c < |lines| :: |lines[c]| == 6
    ensures |Flatten(lines)| == 6 * |lines|
  {
    if lines != [] { LinesLength(lines[..|lines| - 1]); }
  }

  /** The lines of a report can always be stored, so the only refusals left are the guard's and
      the empty report's. */
  lemma ReportLinesBuildable(n: uint16, words: seq<Vec>, maxChecks: nat, report: Report)
    requires ReportOf(n as nat, words, maxChecks, report) && report.found > 0 && maxChecks <= 4096
    ensures Buildable(Lines(report.checks), n)
  {
    var lines := Lines(report.checks);
    forall c | 0 <= c < |lines| ensures GoodCheck(lines[c], n) && |lines[c]| == 6 {
      IndicesExact(report.checks[c], n as nat);
      IndicesWeight(report.checks[c], n as nat);
      assert report.checks[c][..n as nat] == report.checks[c];
    }
    LinesLength(lines);
    assert lines[0] != [];
  }

  lemma OrthogonalInDual(n: nat, words: seq<Vec>, code: CodeSpace, h: Vec)
    requires Describes(n, words, code) && |h| == n
    ensures Orthogonal(words, h) <==> h in Span(n, Checks(n, code))
  {
    ParitySpansDual(n, words, code, h);
  }

  /** What a report calls complete, in terms of the words: its checks generate every word that is
      orthogonal to all the input words. */
  lemma CompleteMeansDualSpanned(n: nat, words: seq<Vec>, maxChecks: nat, report: Report)
    requires ReportOf(n, words, maxChecks, report) && report.found > 0
    ensures !report.incomplete <==> forall h | |h| == n && Orthogonal(words, h) :: h in Span(n, report.checks)
  {
    assert Shaped(n, report.code.hasPivot, report.code.pivotRows);
    hide Orthogonal, Describes, Span, Checks, Weight, Distinct;
    var checks, dual := report.checks, Checks(n, report.code);
    EqualRanksEqualSpans(n, words, report.code, checks, report.checkSpace);
    forall h | |h| == n ensures Orthogonal(words, h) <==> h in Span(n, dual) {
      OrthogonalInDual(n, words, report.code, h);
    }
    ChecksWithinDual(n, words, report.code, checks);
    if forall h | |h| == n && Orthogonal(words, h) :: h in Span(n, checks) {
      assert Span(n, checks) == Span(n, dual);
    }
  }

  /** Below the limit this depends on the words alone: the report is complete exactly when the
      weight-6 words orthogonal to the input, however they are listed, generate all of them. */
  lemma CompleteBelowLimit(n: nat, words: seq<Vec>, maxChecks: nat, report: Report, light: seq<Vec>)
    requires ReportOf(n, words, maxChecks, report) && report.found < maxChecks && Uniform(n, light)
    requires forall h :: h in light <==> |h| == n && Weight(h) == 6 && Orthogonal(words, h)
    ensures !report.incomplete <==>
            light != [] && forall h | |h| == n && Orthogonal(words, h) :: h in Span(n, light)
  {
    forall h ensures h in report.checks <==> h in light {
    }
    assert light == [] || light[0] in report.checks;
    if report.found > 0 {
      assert report.checks[0] in light;
      SpanOfSameRows(n, report.checks, light);
      CompleteMeansDualSpanned(n, words, maxChecks, report);
    }
  }

  lemma ReportFacts(n: nat, words: seq<Vec>, maxChecks: nat, report: Report)
    requires ReportOf(n, words, maxChecks, report)
    ensures report.found == |report.checks| && Uniform(n, report.checks)
    ensures report.incomplete <==> report.found == 0 || report.checkRank != report.parityDimension
  {
  }

  /** The set positions of a check, in one pass from the lowest. */
  method PrintIndices(v: Vec) returns (line: seq<uint16>)
    requires |v| <= 0x1_0000
    ensures line == Indices(v, |v|)
  {
    line := [];
    for i := 0 to |v|
      invariant line == Indices(v, i)
    {
      if v[i] {
        line := line + [i as uint16];
      } else {
        assert line + [] == line;
      }
    }
  }

  /** The check lines of a report. */
  method PrintLines(checks: seq<Vec>) returns (lines: seq<seq<uint16>>)
    requires forall k | 0 <= k < |checks| :: |checks[k]| <= 0x1_0000
    ensures lines == Lines(checks)
  {
    hide Indices;
    lines := [];
    for k := 0 to |checks|
      invariant |lines| == k && forall c | 0 <= c < k :: lines[c] == Indices(checks[c], |checks[c]|)
    {
      var line := PrintIndices(checks[k]);
      lines := lines + [line];
    }
  }

  /** The two tools one after the other. A graph comes out exactly when the checks found generate
      every word orthogonal to the input, and the graph that comes out accepts the XORs of the input
      words and no other word. */
  method WordsToGraph(n: uint16, words: seq<Vec>, maxChecks: nat, sortEntries: seq<TripleEntry> -> seq<TripleEntry>,
                      sortCheck: seq<uint16> -> seq<uint16>)
    returns (exit: int, report: Report, graph: GraphData)
    requires Uniform(n as nat, words)
    requires Conforms(EntryLess(), sortEntries) && Conforms(Less16(), sortCheck)
    ensures words != [] && 0 < maxChecks <= 4096 ==>
      && ReportOf(n as nat, words, maxChecks, report)
      && SearchedIn(n as nat, report.code, maxChecks, sortEntries, report.checks)
    ensures exit == 2 <==> words == [] || maxChecks == 0 || maxChecks > 4096 || report.found == 0
    ensures exit == 0 <==>
      && words != [] && 0 < maxChecks <= 4096 && report.found > 0
      && forall h | |h| == n as nat && Orthogonal(words, h) :: h in Span(n as nat, report.checks)
    ensures exit == 0 || exit == 1 || exit == 2
    ensures exit == 0 ==>
      && graph.variableCount == n && Uniform(n as nat, report.checks)
      && GraphOf(SortRows(sortCheck, Lines(report.checks)), n as nat, Nats(graph.checkOffsets), graph.checkVariables,
                 Nats(graph.variableOffsets), Nats(graph.variableEdges))
    ensures exit == 0 ==> forall w: Vec | |w| == n as nat :: GraphAccepts(graph, w) <==> w in Span(n as nat, words)
  {
    hide ReportOf, GraphAccepts, SearchedIn;
    graph := GraphData(n, [], [], [], []);
    exit, report := SparseSearch(n as nat, words, maxChecks, sortEntries);
    if exit != 0 { return; }
    ReportFacts(n as nat, words, maxChecks, report);
    var lines := PrintLines(report.checks);
    exit, graph := GenerateGraph(n, lines, true, report.parityDimension, report.checkRank, false, sortCheck);
    if report.found > 0 {
      ReportLinesBuildable(n, words, maxChecks, report);
      CompleteMeansDualSpanned(n as nat, words, maxChecks, report);
      if exit == 0 { EndToEnd(n, words, maxChecks, report, sortCheck, graph); }
    }
  }
}
