/** The compressed bipartite graph of a parity-check list: checks to variables, and its
    transpose by counting sort. All stored numbers are 16 bits wide; that none of them wraps is
    what the conversions to uint16 below have to prove. */
module Graphs {
  import opened Sorting

  newtype uint16 = x: int | 0 <= x < 0x1_0000

  datatype GraphData = GraphData(
    variableCount: uint16,
    checkOffsets: seq<uint16>, checkVariables: seq<uint16>,
    variableOffsets: seq<uint16>, variableEdges: seq<uint16>)

  function Less16(): (uint16, uint16) -> bool {
    (x: uint16, y: uint16) => x < y
  }

  /** Conforming sorts of 16-bit numbers exist. */
  lemma Sorts16()
    ensures Conforms(Less16(), s => InsertionSort(Less16(), s))
  {
    ConformingSortExists(Less16());
  }

  // ---------------------------------------------------------------- what the arrays should hold

  function Flatten(rows: seq<seq<uint16>>): seq<uint16> {
    if rows == [] then [] else Flatten(rows[..|rows| - 1]) + rows[|rows| - 1]
  }

  /** Where check c starts in the concatenated checks. */
  function CheckOffset(rows: seq<seq<uint16>>, c: nat): nat
    requires c <= |rows|
  {
    |Flatten(rows[..c])|
  }

  /** The edges before k on variable v, in ascending order. */
  function EdgesOf(variables: seq<uint16>, v: nat, k: nat): (edges: seq<nat>)
    requires k <= |variables|
  {
    if k == 0 then [] else
      EdgesOf(variables, v, k - 1) + if variables[k - 1] as nat == v then [k - 1] else []
  }

  /** The number of edges before k on variables below v. */
  function Below(variables: seq<uint16>, v: nat, k: nat): (count: nat)
    requires k <= |variables|
    ensures count <= k
  {
    if k == 0 then 0 else
      Below(variables, v, k - 1) + if variables[k - 1] as nat < v then 1 else 0
  }

  /** The edges of variables 0, 1, ..., v - 1, one variable after the other. */
  function EdgesByVariable(variables: seq<uint16>, v: nat): seq<nat> {
    if v == 0 then [] else EdgesByVariable(variables, v - 1) + EdgesOf(variables, v - 1, |variables|)
  }

  function Nats(s: seq<uint16>): (t: seq<nat>)
    ensures |t| == |s|
  {
    seq(|s|, i requires 0 <= i < |s| => s[i] as nat)
  }

  ghost predicate InRange(variables: seq<uint16>, count: nat) {
    forall e | 0 <= e < |variables| :: variables[e] as nat < count
  }

  /** The four arrays of a graph whose checks are exactly `rows`, in order. */
  ghost predicate GraphOf(rows: seq<seq<uint16>>, count: nat, checkOffsets: seq<nat>, checkVariables: seq<uint16>,
                          variableOffsets: seq<nat>, variableEdges: seq<nat>) {
    && checkVariables == Flatten(rows)
    && |checkOffsets| == |rows| + 1
    && (forall c | 0 <= c <= |rows| :: checkOffsets[c] == CheckOffset(rows, c))
    && |variableOffsets| == count + 1
    && (forall v | 0 <= v <= count :: variableOffsets[v] == Below(checkVariables, v, |checkVariables|))
    && variableEdges == EdgesByVariable(checkVariables, count)
  }

  // ---------------------------------------------------------------- facts about edge lists

  lemma {:induction false} BelowStep(variables: seq<uint16>, v: nat, k: nat)
    requires k <= |variables|
    ensures Below(variables, v + 1, k) == Below(variables, v, k) + |EdgesOf(variables, v, k)|
  {
    if k > 0 { BelowStep(variables, v, k - 1); }
  }

  lemma {:induction false} BelowZero(variables: seq<uint16>, k: nat)
    requires k <= |variables|
    ensures Below(variables, 0, k) == 0
  {
    if k > 0 { BelowZero(variables, k - 1); }
  }

  lemma {:induction false} BelowAll(variables: seq<uint16>, count: nat, k: nat)
    requires k <= |variables| && InRange(variables, count)
    ensures Below(variables, count, k) == k
  {
    if k > 0 { BelowAll(variables, count, k - 1); }
  }

  lemma {:induction false} EdgesOfPrefix(variables: seq<uint16>, v: nat, j: nat, k: nat)
    requires j <= k <= |variables|
    ensures EdgesOf(variables, v, j) <= EdgesOf(variables, v, k)
  {
    if j < k { EdgesOfPrefix(variables, v, j, k - 1); }
  }

  /** An edge list holds exactly the edges on its variable, each once, in ascending order. */
  lemma {:induction false} EdgesOfExact(variables: seq<uint16>, v: nat, k: nat)
    requires k <= |variables|
    ensures forall e :: e in EdgesOf(variables, v, k) <==> 0 <= e < k && variables[e] as nat == v
    ensures forall i, j | 0 <= i < j < |EdgesOf(variables, v, k)| :: EdgesOf(variables, v, k)[i] < EdgesOf(variables, v, k)[j]
  {
    if k > 0 {
      EdgesOfExact(variables, v, k - 1);
      var shorter := EdgesOf(variables, v, k - 1);
      forall i | 0 <= i < |shorter| ensures shorter[i] < k - 1 {
        assert shorter[i] in shorter;
      }
    }
  }

  lemma {:induction false} EdgesByVariableLength(variables: seq<uint16>, v: nat)
    ensures |EdgesByVariable(variables, v)| == Below(variables, v, |variables|)
  {
    hide EdgesOf, Below;
    if v == 0 {
      BelowZero(variables, |variables|);
    } else {
      EdgesByVariableLength(variables, v - 1);
      BelowStep(variables, v - 1, |variables|);
    }
  }

  lemma {:induction false} EdgesByVariablePrefix(variables: seq<uint16>, u: nat, v: nat)
    requires u <= v
    ensures EdgesByVariable(variables, u) <= EdgesByVariable(variables, v)
  {
    if u < v { EdgesByVariablePrefix(variables, u, v - 1); }
  }

  /** Each variable's slice of the transpose is its own edge list. */
  lemma EdgesByVariableSlice(variables: seq<uint16>, count: nat, v: nat)
    requires v < count
    ensures var all := EdgesByVariable(variables, count);
      && Below(variables, v, |variables|) <= Below(variables, v + 1, |variables|) <= |all|
      && all[Below(variables, v, |variables|)..Below(variables, v + 1, |variables|)] == EdgesOf(variables, v, |variables|)
  {
    EdgesByVariableLength(variables, v);
    EdgesByVariableLength(variables, v + 1);
    EdgesByVariablePrefix(variables, v + 1, count);
    var next := EdgesByVariable(variables, v + 1);
    assert next == EdgesByVariable(variables, v) + EdgesOf(variables, v, |variables|);
    assert next[|EdgesByVariable(variables, v)|..] == EdgesOf(variables, v, |variables|);
    assert EdgesByVariable(variables, count)[..|next|] == next;
  }

  /** The place of edge number k, if it is on variable v, in the transpose. */
  ghost function SlotAt(variables: seq<uint16>, v: nat, k: nat): nat
    requires k <= |variables|
  {
    Below(variables, v, |variables|) + |EdgesOf(variables, v, k)|
  }

  ghost function Slot(variables: seq<uint16>, edge: nat): nat
    requires edge < |variables|
  {
    SlotAt(variables, variables[edge] as nat, edge)
  }

  lemma {:induction false} EdgesByVariableMembers(variables: seq<uint16>, v: nat)
    ensures forall e :: e in EdgesByVariable(variables, v) <==> 0 <= e < |variables| && variables[e] as nat < v
    ensures forall i, j | 0 <= i < j < |EdgesByVariable(variables, v)| ::
      EdgesByVariable(variables, v)[i] != EdgesByVariable(variables, v)[j]
  {
    if v > 0 {
      EdgesByVariableMembers(variables, v - 1);
      EdgesOfExact(variables, v - 1, |variables|);
      var a, b := EdgesByVariable(variables, v - 1), EdgesOf(variables, v - 1, |variables|);
      forall i, j | 0 <= i < |a| && 0 <= j < |b| ensures a[i] != b[j] {
        assert a[i] in a && b[j] in b;
      }
    }
  }

  /** The transpose is a permutation of the edges: every edge once, nothing else. */
  lemma TransposePermutes(variables: seq<uint16>, count: nat)
    requires InRange(variables, count)
    ensures var all := EdgesByVariable(variables, count);
      && |all| == |variables|
      && (forall e :: e in all <==> 0 <= e < |variables|)
      && forall i, j | 0 <= i < j < |all| :: all[i] != all[j]
  {
    EdgesByVariableLength(variables, count);
    BelowAll(variables, count, |variables|);
    EdgesByVariableMembers(variables, count);
  }

  lemma SlotHoldsEdge(variables: seq<uint16>, count: nat, edge: nat)
    requires edge < |variables| && InRange(variables, count)
    ensures Slot(variables, edge) < |variables| == |EdgesByVariable(variables, count)|
    ensures EdgesByVariable(variables, count)[Slot(variables, edge)] == edge
  {
    var v := variables[edge] as nat;
    EdgesByVariableSlice(variables, count, v);
    EdgesOfPrefix(variables, v, edge + 1, |variables|);
    var list := EdgesOf(variables, v, |variables|);
    var i := |EdgesOf(variables, v, edge)|;
    assert EdgesOf(variables, v, edge + 1)[i] == edge;
    assert list[i] == edge;
    TransposePermutes(variables, count);
    var lo := Below(variables, v, |variables|);
    assert EdgesByVariable(variables, count)[lo..][i] == list[i];
  }

  /** Two arrays that put every edge in its slot are the transpose. */
  lemma SlotsFillTranspose(variables: seq<uint16>, count: nat, edges: seq<uint16>)
    requires InRange(variables, count) && |edges| == |variables|
    requires forall e | 0 <= e < |variables| :: Slot(variables, e) < |edges| && edges[Slot(variables, e)] as nat == e
    ensures Nats(edges) == EdgesByVariable(variables, count)
  {
    var all := EdgesByVariable(variables, count);
    TransposePermutes(variables, count);
    forall p | 0 <= p < |all| ensures Nats(edges)[p] == all[p] {
      assert all[p] in all;
      SlotHoldsEdge(variables, count, all[p]);
      assert Slot(variables, all[p]) == p;
    }
  }

  // ---------------------------------------------------------------- building by counting sort

  predicate HasAdjacentEqual(s: seq<uint16>) {
    exists i | 0 <= i < |s| - 1 :: s[i] == s[i + 1]
  }

  ghost predicate NoRepeats(s: seq<uint16>) {
    forall i, j | 0 <= i < j < |s| :: s[i] != s[j]
  }

  ghost predicate GoodCheck(check: seq<uint16>, count: uint16) {
    check != [] && NoRepeats(check) && InRange(check, count as nat)
  }

  /** The checks a graph can be built from. */
  ghost predicate Buildable(checks: seq<seq<uint16>>, count: uint16) {
    && count != 0 && checks != []
    && (forall c | 0 <= c < |checks| :: GoodCheck(checks[c], count))
    && |Flatten(checks)| <= 65535
  }

  function SortRows(sort: seq<uint16> -> seq<uint16>, rows: seq<seq<uint16>>): (sorted: seq<seq<uint16>>)
    ensures |sorted| == |rows|
  {
    seq(|rows|, c requires 0 <= c < |rows| => sort(rows[c]))
  }

  lemma {:induction false} RepeatsInMultiset(s: seq<uint16>)
    ensures NoRepeats(s) <==> forall x :: multiset(s)[x] <= 1
  {
    if s != [] {
      var init, last := s[..|s| - 1], s[|s| - 1];
      assert s == init + [last];
      RepeatsInMultiset(init);
      if NoRepeats(s) {
        assert NoRepeats(init);
        assert last !in init;
        assert last !in multiset(init);
      }
      if forall x :: multiset(s)[x] <= 1 {
        forall x ensures multiset(init)[x] <= 1 {
          assert multiset(s)[x] <= 1;
        }
        assert multiset(s)[last] <= 1;
        assert last !in multiset(init);
      }
    }
  }

  lemma RepeatsAfterSorting(s: seq<uint16>, t: seq<uint16>)
    requires multiset(s) == multiset(t) && Sorted(Less16(), t)
    ensures HasAdjacentEqual(t) <==> !NoRepeats(s)
  {
    RepeatsInMultiset(s);
    RepeatsInMultiset(t);
    if !NoRepeats(t) {
      var i, j :| 0 <= i < j < |t| && t[i] == t[j];
      var less := Less16();
      assert !less(t[i + 1], t[i]) && (i + 1 < j ==> !less(t[j], t[i + 1]));
      assert t[i] == t[i + 1];
    }
  }

  lemma {:induction false} FlattenLonger(rows: seq<seq<uint16>>, c: nat)
    requires c <= |rows|
    ensures |Flatten(rows[..c])| <= |Flatten(rows)|
    decreases |rows|
  {
    if c < |rows| {
      FlattenLonger(rows[..|rows| - 1], c);
      assert rows[..|rows| - 1][..c] == rows[..c];
    } else {
      assert rows[..c] == rows;
    }
  }

  lemma FlattenStart(rows: seq<seq<uint16>>)
    ensures Flatten(rows[..0]) == [] && CheckOffset(rows, 0) == 0
  {
  }

  lemma FlattenStep(rows: seq<seq<uint16>>, k: nat)
    requires k < |rows|
    ensures Flatten(rows[..k + 1]) == Flatten(rows[..k]) + rows[k]
    ensures CheckOffset(rows, k + 1) == CheckOffset(rows, k) + |rows[k]| <= |Flatten(rows)|
  {
    assert rows[..k + 1] == rows[..k] + [rows[k]];
    FlattenLonger(rows, k + 1);
  }

  lemma {:induction false} FlattenSortedLength(sort: seq<uint16> -> seq<uint16>, rows: seq<seq<uint16>>)
    requires Conforms(Less16(), sort)
    ensures |Flatten(SortRows(sort, rows))| == |Flatten(rows)|
  {
    if rows != [] {
      var last := |rows| - 1;
      FlattenSortedLength(sort, rows[..last]);
      assert SortRows(sort, rows)[..last] == SortRows(sort, rows[..last]);
      assert SortRows(sort, rows)[last] == sort(rows[last]);
      SameElements(sort(rows[last]), rows[last]);
    }
  }

  method SortCheck(input: seq<uint16>, count: uint16, sort: seq<uint16> -> seq<uint16>)
    returns (ok: bool, check: seq<uint16>)
    requires Conforms(Less16(), sort)
    ensures ok <==> GoodCheck(input, count)
    ensures check == sort(input) && (ok ==> InRange(check, count as nat))
  {
    check := sort(input);
    if input == [] { return false, check; }
    RepeatsAfterSorting(input, check);
    SameElements(check, input);
    if HasAdjacentEqual(check) { return false, check; }
    for i := 0 to |check|
      invariant forall j | 0 <= j < i :: check[j] < count
    {
      if check[i] >= count {
        assert check[i] in input;
        return false, check;
      }
    }
    forall j | 0 <= j < |input| ensures input[j] < count {
      assert input[j] in check;
    }
    return true, check;
  }

  /** The check side: sort each check, reject the bad ones, append and record the offset. */
  method CollectChecks(checks: seq<seq<uint16>>, count: uint16, sort: seq<uint16> -> seq<uint16>)
    returns (ok: bool, offsets: seq<uint16>, variables: seq<uint16>)
    requires count != 0 && checks != [] && Conforms(Less16(), sort)
    ensures ok <==> Buildable(checks, count)
    ensures ok ==> variables == Flatten(SortRows(sort, checks)) && |variables| <= 65535 && InRange(variables, count as nat)
    ensures ok ==> |offsets| == |checks| + 1
    ensures ok ==> forall c | 0 <= c <= |checks| :: offsets[c] as nat == CheckOffset(SortRows(sort, checks), c)
  {
    hide Flatten, NoRepeats;
    ghost var rows := SortRows(sort, checks);
    offsets := [0];
    variables := [];
    FlattenStart(rows);
    FlattenSortedLength(sort, checks);
    for k := 0 to |checks|
      invariant forall c | 0 <= c < k :: GoodCheck(checks[c], count)
      invariant variables == Flatten(rows[..k]) && |variables| <= 65535 && InRange(variables, count as nat)
      invariant |offsets| == k + 1 && forall c | 0 <= c <= k :: offsets[c] as nat == CheckOffset(rows, c)
    {
      var check;
      ok, check := SortCheck(checks[k], count, sort);
      if !ok { return; }
      FlattenStep(rows, k);
      variables := variables + check;
      if |variables| > 65535 { return false, offsets, variables; }
      offsets := offsets + [|variables| as uint16];
    }
    assert rows[..|checks|] == rows;
    return true, offsets, variables;
  }

  /** Counting and prefix sums: offsets[v] becomes the number of edges on variables below v. */
  method CountOffsets(variables: seq<uint16>, count: uint16) returns (offsets: array<uint16>)
    requires |variables| <= 65535 && InRange(variables, count as nat)
    ensures fresh(offsets) && offsets.Length == count as nat + 1
    ensures forall v | 0 <= v <= count as nat :: offsets[v] as nat == Below(variables, v, |variables|)
  {
    var n := count as nat;
    offsets := new uint16[n + 1](_ => 0);
    for e := 0 to |variables|
      invariant offsets[0] == 0
      invariant forall v | 0 <= v < n :: offsets[v + 1] as nat == |EdgesOf(variables, v, e)|
    {
      var v := variables[e] as nat;
      BelowStep(variables, v, e);
      offsets[v + 1] := offsets[v + 1] + 1;
    }
    BelowZero(variables, |variables|);
    for i := 0 to n
      invariant forall v | 0 <= v <= i :: offsets[v] as nat == Below(variables, v, |variables|)
      invariant forall v | i <= v < n :: offsets[v + 1] as nat == |EdgesOf(variables, v, |variables|)|
    {
      BelowStep(variables, i, |variables|);
      offsets[i + 1] := (offsets[i + 1] as nat + offsets[i] as nat) as uint16;
    }
  }

  /** The scatter pass: every edge goes to the next free slot of its variable. */
  method ScatterEdges(variables: seq<uint16>, count: uint16, offsets: array<uint16>) returns (edges: array<uint16>)
    requires |variables| <= 65535 && InRange(variables, count as nat)
    requires offsets.Length == count as nat + 1
    requires forall v | 0 <= v <= count as nat :: offsets[v] as nat == Below(variables, v, |variables|)
    ensures fresh(edges) && Nats(edges[..]) == EdgesByVariable(variables, count as nat)
  {
    hide EdgesByVariable, Below;
    var n := count as nat;
    var total := |variables|;
    edges := new uint16[total](_ => 0);
    var cursor := new uint16[n](v requires 0 <= v < n && v < offsets.Length reads offsets => offsets[v]);
    for edge := 0 to total
      invariant forall v | 0 <= v < n :: cursor[v] as nat == SlotAt(variables, v, edge)
      invariant forall e | 0 <= e < edge :: Slot(variables, e) < total && edges[Slot(variables, e)] as nat == e
    {
      var variable := variables[edge] as nat;
      SlotHoldsEdge(variables, n, edge);
      forall e | 0 <= e < edge ensures Slot(variables, e) != Slot(variables, edge) {
        SlotHoldsEdge(variables, n, e);
      }
      edges[cursor[variable]] := edge as uint16;
      cursor[variable] := cursor[variable] + 1;
    }
    SlotsFillTranspose(variables, n, edges[..]);
  }

  /** Build the graph. It fails exactly when the checks cannot be stored, and otherwise holds the
      sorted checks and their transpose. */
  method BuildGraph(checks: seq<seq<uint16>>, count: uint16, sort: seq<uint16> -> seq<uint16>)
    returns (ok: bool, graph: GraphData)
    requires Conforms(Less16(), sort)
    ensures ok <==> Buildable(checks, count)
    ensures graph.variableCount == count
    ensures !ok ==> graph == GraphData(count, [], [], [], [])
    ensures ok ==> GraphOf(SortRows(sort, checks), count as nat, Nats(graph.checkOffsets), graph.checkVariables,
                           Nats(graph.variableOffsets), Nats(graph.variableEdges))
    ensures ok ==> InRange(graph.checkVariables, count as nat)
  {
    graph := GraphData(count, [], [], [], []);
    if count == 0 || checks == [] { return false, graph; }
    var checkOffsets, variables;
    ok, checkOffsets, variables := CollectChecks(checks, count, sort);
    if !ok { return false, graph; }
    var offsets := CountOffsets(variables, count);
    var edges := ScatterEdges(variables, count, offsets);
    graph := GraphData(count, checkOffsets, variables, offsets[..], edges[..]);
  }

  // ---------------------------------------------------------------- building by appending

  ghost predicate ListsEdges(edgesOf: seq<seq<nat>>, n: nat, variables: seq<uint16>) {
    |edgesOf| == n && forall v | 0 <= v < n :: edgesOf[v] == EdgesOf(variables, v, |variables|)
  }

  lemma {:induction false} EdgesOfStable(a: seq<uint16>, b: seq<uint16>, v: nat, k: nat)
    requires a <= b && k <= |a|
    ensures EdgesOf(b, v, k) == EdgesOf(a, v, k)
  {
    if k > 0 { EdgesOfStable(a, b, v, k - 1); }
  }

  lemma AppendEdge(edgesOf: seq<seq<nat>>, n: nat, variables: seq<uint16>, v: uint16)
    requires ListsEdges(edgesOf, n, variables) && v as nat < n
    ensures ListsEdges(edgesOf[v as nat := edgesOf[v as nat] + [|variables|]], n, variables + [v])
  {
    forall u | 0 <= u < n ensures EdgesOf(variables + [v], u, |variables|) == edgesOf[u] {
      EdgesOfStable(variables, variables + [v], u, |variables|);
    }
  }

  method AppendRow(row: seq<uint16>, n: nat, edgesOf0: seq<seq<nat>>, variables0: seq<uint16>)
    returns (edgesOf: seq<seq<nat>>, variables: seq<uint16>)
    requires InRange(row, n) && ListsEdges(edgesOf0, n, variables0)
    ensures variables == variables0 + row && ListsEdges(edgesOf, n, variables)
  {
    edgesOf, variables := edgesOf0, variables0;
    for i := 0 to |row|
      invariant variables == variables0 + row[..i] && ListsEdges(edgesOf, n, variables)
    {
      var v := row[i];
      AppendEdge(edgesOf, n, variables, v);
      edgesOf := edgesOf[v as nat := edgesOf[v as nat] + [|variables|]];
      variables := variables + [v];
    }
    assert row[..|row|] == row;
  }

  method ConcatenateLists(edgesOf: seq<seq<nat>>, n: nat, ghost variables: seq<uint16>)
    returns (offsets: seq<nat>, edges: seq<nat>)
    requires ListsEdges(edgesOf, n, variables)
    ensures edges == EdgesByVariable(variables, n)
    ensures |offsets| == n + 1 && forall v | 0 <= v <= n :: offsets[v] == Below(variables, v, |variables|)
  {
    hide EdgesOf, Below;
    offsets, edges := [0], [];
    BelowZero(variables, |variables|);
    var v := 0;
    while v < n
      invariant v <= n && edges == EdgesByVariable(variables, v)
      invariant |offsets| == v + 1
      invariant forall u | 0 <= u <= v :: offsets[u] == Below(variables, u, |variables|)
    {
      edges := edges + edgesOf[v];
      v := v + 1;
      EdgesByVariableLength(variables, v);
      offsets := offsets + [|edges|];
    }
  }

  /** The generator script: one growing edge list per variable, concatenated at the end. */
  method AppendGraph(rows: seq<seq<uint16>>, n: nat)
    returns (checkOffsets: seq<nat>, checkVariables: seq<uint16>, variableOffsets: seq<nat>, variableEdges: seq<nat>)
    requires forall r | 0 <= r < |rows| :: InRange(rows[r], n)
    ensures GraphOf(rows, n, checkOffsets, checkVariables, variableOffsets, variableEdges)
  {
    checkOffsets, checkVariables := [0], [];
    var edgesOf: seq<seq<nat>> := seq(n, _ => []);
    FlattenStart(rows);
    for r := 0 to |rows|
      invariant checkVariables == Flatten(rows[..r]) && ListsEdges(edgesOf, n, checkVariables)
      invariant |checkOffsets| == r + 1 && forall c | 0 <= c <= r :: checkOffsets[c] == CheckOffset(rows, c)
    {
      FlattenStep(rows, r);
      edgesOf, checkVariables := AppendRow(rows[r], n, edgesOf, checkVariables);
      checkOffsets := checkOffsets + [|checkVariables|];
    }
    assert rows[..|rows|] == rows;
    variableOffsets, variableEdges := ConcatenateLists(edgesOf, n, checkVariables);
  }

  lemma SortedHead(s: seq<uint16>, t: seq<uint16>)
    requires s != [] && multiset(s) == multiset(t) && Sorted(Less16(), s) && Sorted(Less16(), t)
    ensures t != [] && s[0] == t[0]
  {
    SameElements(s, t);
    var less := Less16();
    assert s[0] in t && t[0] in s;
    var i :| 0 <= i < |t| && t[i] == s[0];
    var j :| 0 <= j < |s| && s[j] == t[0];
    assert i > 0 ==> !less(t[i], t[0]);
    assert j > 0 ==> !less(s[j], s[0]);
  }

  lemma MultisetTail(s: seq<uint16>)
    requires s != []
    ensures multiset(s[1..]) == multiset(s) - multiset{s[0]}
  {
    assert s == [s[0]] + s[1..];
  }

  /** There is only one sorted arrangement of given numbers. */
  lemma {:induction false} SortedUnique(s: seq<uint16>, t: seq<uint16>)
    requires multiset(s) == multiset(t) && Sorted(Less16(), s) && Sorted(Less16(), t)
    ensures s == t
  {
    if s == [] {
      SameElements(s, t);
    } else {
      SortedHead(s, t);
      MultisetTail(s);
      MultisetTail(t);
      var less := Less16();
      assert forall i, j | 0 <= i < j < |s[1..]| :: !less(s[1..][j], s[1..][i]) by {
        forall i, j | 0 <= i < j < |s[1..]| ensures !less(s[1..][j], s[1..][i]) { assert !less(s[j + 1], s[i + 1]); }
      }
      assert forall i, j | 0 <= i < j < |t[1..]| :: !less(t[1..][j], t[1..][i]) by {
        forall i, j | 0 <= i < j < |t[1..]| ensures !less(t[1..][j], t[1..][i]) { assert !less(t[j + 1], t[i + 1]); }
      }
      SortedUnique(s[1..], t[1..]);
      assert s == [s[0]] + s[1..] && t == [t[0]] + t[1..];
    }
  }

  ghost predicate StrictlyIncreasing(s: seq<uint16>) {
    forall i, j | 0 <= i < j < |s| :: s[i] < s[j]
  }

  /** On strictly increasing rows the counting sort and the appending generator agree on all
      four arrays. */
  lemma BuildersAgree(checks: seq<seq<uint16>>, count: uint16, sort: seq<uint16> -> seq<uint16>, graph: GraphData,
                      checkOffsets: seq<nat>, checkVariables: seq<uint16>,
                      variableOffsets: seq<nat>, variableEdges: seq<nat>)
    requires Conforms(Less16(), sort)
    requires forall c | 0 <= c < |checks| :: StrictlyIncreasing(checks[c])
    requires GraphOf(SortRows(sort, checks), count as nat, Nats(graph.checkOffsets), graph.checkVariables,
                     Nats(graph.variableOffsets), Nats(graph.variableEdges))
    requires GraphOf(checks, count as nat, checkOffsets, checkVariables, variableOffsets, variableEdges)
    ensures Nats(graph.checkOffsets) == checkOffsets && graph.checkVariables == checkVariables
    ensures Nats(graph.variableOffsets) == variableOffsets && Nats(graph.variableEdges) == variableEdges
  {
    forall c | 0 <= c < |checks| ensures sort(checks[c]) == checks[c] {
      SortedUnique(sort(checks[c]), checks[c]);
    }
    assert SortRows(sort, checks) == checks;
  }

  // ---------------------------------------------------------------- reading the graph back

  /** Parity of the word over a list of variables, as the decoder's graph walk computes it. */
  predicate ListParity(w: seq<bool>, list: seq<uint16>)
    requires forall i | 0 <= i < |list| :: list[i] as nat < |w|
  {
    if list == [] then false else ListParity(w, list[..|list| - 1]) != w[list[|list| - 1]]
  }

  lemma {:induction false} FlattenSlice(rows: seq<seq<uint16>>, c: nat)
    requires c < |rows|
    ensures |Flatten(rows[..c])| <= |Flatten(rows[..c + 1])| <= |Flatten(rows)|
    ensures Flatten(rows)[|Flatten(rows[..c])|..|Flatten(rows[..c + 1])|] == rows[c]
    decreases |rows|
  {
    FlattenLonger(rows, c + 1);
    assert rows[..c + 1][..c] == rows[..c];
    var last := |rows| - 1;
    if c < last {
      FlattenSlice(rows[..last], c);
      assert rows[..last][..c] == rows[..c];
      assert rows[..last][..c + 1] == rows[..c + 1];
    } else {
      assert rows[..c + 1] == rows;
    }
  }

  /** The variables the graph lists for check c. */
  function VariablesOfCheck(graph: GraphData, c: nat): seq<uint16>
    requires c + 1 < |graph.checkOffsets|
    requires graph.checkOffsets[c] <= graph.checkOffsets[c + 1]
    requires graph.checkOffsets[c + 1] as nat <= |graph.checkVariables|
  {
    graph.checkVariables[graph.checkOffsets[c]..graph.checkOffsets[c + 1]]
  }

  lemma ChecksReadBack(rows: seq<seq<uint16>>, graph: GraphData, count: nat, c: nat)
    requires GraphOf(rows, count, Nats(graph.checkOffsets), graph.checkVariables,
                     Nats(graph.variableOffsets), Nats(graph.variableEdges))
    requires c < |rows|
    ensures |graph.checkOffsets| == |rows| + 1
    ensures graph.checkOffsets[c] <= graph.checkOffsets[c + 1]
    ensures graph.checkOffsets[c + 1] as nat <= |graph.checkVariables|
    ensures VariablesOfCheck(graph, c) == rows[c]
  {
    FlattenSlice(rows, c);
    assert Nats(graph.checkOffsets)[c] == graph.checkOffsets[c] as nat;
    assert Nats(graph.checkOffsets)[c + 1] == graph.checkOffsets[c + 1] as nat;
  }

  /** On the variable side, each slice lists the edges of its variable: ascending, each edge on
      that variable and every such edge. */
  lemma VariablesReadBack(rows: seq<seq<uint16>>, graph: GraphData, count: nat, v: nat)
    requires GraphOf(rows, count, Nats(graph.checkOffsets), graph.checkVariables,
                     Nats(graph.variableOffsets), Nats(graph.variableEdges))
    requires v < count
    ensures |graph.variableOffsets| == count + 1
    ensures graph.variableOffsets[v] <= graph.variableOffsets[v + 1]
    ensures graph.variableOffsets[v + 1] as nat <= |graph.variableEdges|
    ensures var slice := graph.variableEdges[graph.variableOffsets[v]..graph.variableOffsets[v + 1]];
      && (forall e: uint16 :: e in slice <==> (e as nat < |graph.checkVariables| && graph.checkVariables[e] as nat == v))
      && forall i, j | 0 <= i < j < |slice| :: slice[i] < slice[j]
  {
    var variables := graph.checkVariables;
    EdgesByVariableSlice(variables, count, v);
    EdgesOfExact(variables, v, |variables|);
    assert Nats(graph.variableOffsets)[v] == graph.variableOffsets[v] as nat;
    assert Nats(graph.variableOffsets)[v + 1] == graph.variableOffsets[v + 1] as nat;
    var lo, hi := graph.variableOffsets[v] as nat, graph.variableOffsets[v + 1] as nat;
    var slice := graph.variableEdges[lo..hi];
    var list := EdgesOf(variables, v, |variables|);
    assert Nats(graph.variableEdges)[lo..hi] == list;
    assert |slice| == |list| && forall i | 0 <= i < |slice| :: slice[i] as nat == list[i] by {
      forall i | 0 <= i < |slice| ensures slice[i] as nat == list[i] {
        assert Nats(graph.variableEdges)[lo + i] == slice[i] as nat;
      }
    }
    forall e: uint16 ensures e in slice <==> (e as nat < |variables| && variables[e] as nat == v) {
      if e in slice {
        var i :| 0 <= i < |slice| && slice[i] == e;
        assert list[i] in list;
      }
      if e as nat < |variables| && variables[e] as nat == v {
        assert e as nat in list;
        var i :| 0 <= i < |list| && list[i] == e as nat;
        assert slice[i] == e;
      }
    }
  }
}
