/** The end-to-end harness: demap 58 data tones under a label order and one of eight bit layouts,
    count the odd checks, and search all combinations for the least count. */
module FrameSearch {
  import opened CodeSpaces
  import opened Gf2
  import opened Graphs
  import opened Labels
  import opened Reconstruction
  import opened Sorting
  import opened TopK
  import opened ToneMaps

  const TONES := 58
  const LAYOUTS := 8

  predicate LsbFirst(layout: nat) { layout % 2 == 1 }
  predicate Swapped(layout: nat) { layout / 2 % 2 == 1 }
  predicate Reversed(layout: nat) { layout / 4 % 2 == 1 }

  /** Where stream bit i lands in the codeword. */
  function Place(layout: nat, i: nat): (j: nat)
    requires i < BITS
    ensures j < BITS
  {
    var v := if Reversed(layout) then BITS - 1 - i else i;
    if Swapped(layout) then (v + 87) % BITS else v
  }

  /** Every layout is its own inverse, so it moves the bits without losing any. */
  lemma PlaceInvolution(layout: nat, i: nat)
    requires i < BITS
    ensures Place(layout, Place(layout, i)) == i
  {
  }

  ghost predicate IsTones(tones: seq<nat>) {
    |tones| == TONES && forall s | 0 <= s < TONES :: tones[s] < 8
  }

  /** Bit b of a tone's label in the order the layout sends it. */
  predicate StreamBit(value: nat, layout: nat, b: nat)
    requires value < 8 && b < 3
  {
    if LsbFirst(layout) then LabelBit(value, 2 - b) else LabelBit(value, b)
  }

  ghost function Demap(tones: seq<nat>, labels: ToneLabels, layout: nat): (code: seq<bool>)
    requires IsTones(tones) && ValidLabels(labels)
    ensures |code| == BITS
  {
    seq(BITS, j requires 0 <= j < BITS =>
      var i := Place(layout, j); StreamBit(labels[tones[i / 3]], layout, i % 3))
  }

  method BitsFor(tones: seq<nat>, labels: ToneLabels, layout: nat) returns (code: array<bool>)
    requires IsTones(tones) && ValidLabels(labels) && layout < LAYOUTS
    ensures fresh(code) && code[..] == Demap(tones, labels, layout)
  {
    hide LabelBit;
    code := new bool[BITS](_ => false);
    for s := 0 to TONES
      invariant forall i: nat | i < 3 * s :: code[Place(layout, i)] == StreamBit(labels[tones[i / 3]], layout, i % 3)
    {
      var value := labels[tones[s]];
      for b := 0 to 3
        invariant forall i: nat | i < 3 * s + b :: code[Place(layout, i)] == StreamBit(labels[tones[i / 3]], layout, i % 3)
      {
        var bit := StreamBit(value, layout, b);
        var i := 3 * s + b;
        PlaceInvolution(layout, i);
        forall k: nat | k < i ensures Place(layout, k) != Place(layout, i) {
          PlaceInvolution(layout, k);
        }
        code[Place(layout, i)] := bit;
      }
    }
    forall j | 0 <= j < BITS ensures code[j] == Demap(tones, labels, layout)[j] {
      PlaceInvolution(layout, j);
    }
  }

  // ---------------------------------------------------------------- the eight layouts

  /** Layout 0: the three bits of each tone's label, highest first, tone after tone. */
  lemma LayoutNatural(tones: seq<nat>, labels: ToneLabels, s: nat)
    requires IsTones(tones) && ValidLabels(labels) && s < 58
    ensures var code, value := Demap(tones, labels, 0), labels[tones[s]];
      && code[3 * s] == (value >= 4)
      && code[3 * s + 1] == (value == 2 || value == 3 || value == 6 || value == 7)
      && code[3 * s + 2] == (value == 1 || value == 3 || value == 5 || value == 7)
  {
    hide LabelBit;
    LabelBitCases(labels[tones[s]]);
    forall b | 0 <= b < 3 ensures Demap(tones, labels, 0)[3 * s + b] == LabelBit(labels[tones[s]], b) {
      assert (3 * s + b) / 3 == s && (3 * s + b) % 3 == b;
    }
  }

  /** Layout 1 turns the three bits of each tone around. */
  lemma LayoutLowFirst(tones: seq<nat>, labels: ToneLabels, s: nat, b: nat)
    requires IsTones(tones) && ValidLabels(labels) && s < 58 && b < 3
    ensures Demap(tones, labels, 1)[3 * s + b] == Demap(tones, labels, 0)[3 * s + 2 - b]
  {
    hide LabelBit;
    assert (3 * s + b) / 3 == s && (3 * s + b) % 3 == b;
    assert (3 * s + 2 - b) / 3 == s && (3 * s + 2 - b) % 3 == 2 - b;
  }

  lemma PlacesMove(order: nat, j: nat)
    requires order < 2 && j < 174
    ensures Place(order, j) == j && Place(order + 2, j) == (j + 87) % 174
    ensures Place(order + 4, j) == 173 - j && Place(order + 6, j) == (173 - j + 87) % 174
    ensures LsbFirst(order + 2) == LsbFirst(order + 4) == LsbFirst(order + 6) == LsbFirst(order)
  {
  }

  lemma SamePlaceSameBit(tones: seq<nat>, labels: ToneLabels, l: nat, j: nat, m: nat, k: nat)
    requires IsTones(tones) && ValidLabels(labels) && j < 174 && k < 174
    requires LsbFirst(l) == LsbFirst(m) && Place(l, j) == Place(m, k)
    ensures Demap(tones, labels, l)[j] == Demap(tones, labels, m)[k]
  {
    hide LabelBit;
  }

  /** In either bit order, layout + 2 swaps the halves of the word, layout + 4 reverses it, and
      layout + 6 does both. */
  lemma LayoutsMove(tones: seq<nat>, labels: ToneLabels, order: nat, j: nat)
    requires IsTones(tones) && ValidLabels(labels) && order < 2 && j < 174
    ensures Demap(tones, labels, order + 2)[j] == Demap(tones, labels, order)[(j + 87) % 174]
    ensures Demap(tones, labels, order + 4)[j] == Demap(tones, labels, order)[173 - j]
    ensures Demap(tones, labels, order + 6)[j] == Demap(tones, labels, order + 4)[(j + 87) % 174]
  {
    hide Demap, Place, LsbFirst;
    var k := (j + 87) % 174;
    PlacesMove(order, j);
    PlacesMove(order, k);
    PlacesMove(order, 173 - j);
    SamePlaceSameBit(tones, labels, order + 2, j, order, k);
    SamePlaceSameBit(tones, labels, order + 4, j, order, 173 - j);
    assert (173 - j + 87) % 174 == 173 - k;
    SamePlaceSameBit(tones, labels, order + 6, j, order + 4, k);
  }

  // ---------------------------------------------------------------- the modulator

  /** The label of tone position s, gathered from the codeword. */
  function SentLabel(code: seq<bool>, layout: nat, s: nat): (value: nat)
    requires |code| == BITS && s < TONES
    ensures value < 8
  {
    var x, y, z := code[Place(layout, 3 * s)], code[Place(layout, 3 * s + 1)], code[Place(layout, 3 * s + 2)];
    if LsbFirst(layout) then LabelOf(z, y, x) else LabelOf(x, y, z)
  }

  /** The tones carry the codeword: each one has the label its three bits ask for. */
  ghost predicate Carries(tones: seq<nat>, code: seq<bool>, labels: ToneLabels, layout: nat)
    requires |code| == BITS && ValidLabels(labels)
  {
    IsTones(tones) && forall s | 0 <= s < TONES :: labels[tones[s]] == SentLabel(code, layout, s)
  }

  method Modulate(code: seq<bool>, labels: ToneLabels, layout: nat) returns (tones: seq<nat>)
    requires |code| == BITS && ValidLabels(labels) && layout < LAYOUTS
    ensures Carries(tones, code, labels, layout)
  {
    hide LabelOf;
    var inverse := new nat[8](_ => 0);
    for t := 0 to 8
      invariant forall u | 0 <= u < t :: inverse[labels[u]] == u
    {
      assert forall u | 0 <= u < t :: labels[u] != labels[t];
      inverse[labels[t]] := t;
    }
    tones := [];
    for s := 0 to TONES
      invariant |tones| == s
      invariant forall u | 0 <= u < 8 :: inverse[labels[u]] == u
      invariant forall k | 0 <= k < s :: tones[k] < 8 && labels[tones[k]] == SentLabel(code, layout, k)
    {
      var value := SentLabel(code, layout, s);
      var t := LabelUsed(labels, value);
      tones := tones + [inverse[value]];
    }
  }

  lemma SentBit(code: seq<bool>, layout: nat, s: nat, b: nat)
    requires |code| == BITS && s < TONES && b < 3
    ensures StreamBit(SentLabel(code, layout, s), layout, b) == code[Place(layout, 3 * s + b)]
  {
    hide LabelBit, LabelOf, Place;
    var x, y, z := code[Place(layout, 3 * s)], code[Place(layout, 3 * s + 1)], code[Place(layout, 3 * s + 2)];
    LabelOfBits(x, y, z);
    LabelOfBits(z, y, x);
  }

  /** Demapping what the modulator sent gives the codeword back, for every word, label order and
      layout. */
  lemma DemapCarried(code: seq<bool>, labels: ToneLabels, layout: nat, tones: seq<nat>)
    requires |code| == BITS && ValidLabels(labels) && Carries(tones, code, labels, layout)
    ensures Demap(tones, labels, layout) == code
  {
    hide StreamBit, SentLabel, Place;
    forall j | 0 <= j < BITS ensures Demap(tones, labels, layout)[j] == code[j] {
      PlaceInvolution(layout, j);
      var i := Place(layout, j);
      SentBit(code, layout, i / 3, i % 3);
    }
  }

  // ---------------------------------------------------------------- the search

  predicate Fits(check: seq<uint16>) {
    forall i | 0 <= i < |check| :: check[i] as nat < BITS
  }

  ghost predicate ChecksFit(checks: seq<seq<uint16>>) {
    forall c | 0 <= c < |checks| :: Fits(checks[c])
  }

  /** How many of the checks the word leaves odd. */
  ghost function OddChecks(checks: seq<seq<uint16>>, code: seq<bool>): (w: nat)
    requires ChecksFit(checks) && |code| == BITS
    ensures w <= |checks|
    ensures w == 0 <==> forall c | 0 <= c < |checks| :: !ListParity(code, checks[c])
  {
    if checks == [] then 0 else
      var last := |checks| - 1;
      OddChecks(checks[..last], code) + if ListParity(code, checks[last]) then 1 else 0
  }

  method ListParityLoop(code: array<bool>, check: seq<uint16>) returns (parity: bool)
    requires code.Length == BITS && Fits(check)
    ensures parity == ListParity(code[..], check)
  {
    parity := false;
    for i := 0 to |check|
      invariant parity == ListParity(code[..], check[..i])
    {
      assert check[..i + 1][..i] == check[..i];
      parity := parity != code[check[i]];
    }
    assert check[..|check|] == check;
  }

  method Unsatisfied(checks: seq<seq<uint16>>, code: array<bool>) returns (bad: nat)
    requires ChecksFit(checks) && code.Length == BITS
    ensures bad == OddChecks(checks, code[..])
  {
    bad := 0;
    for c := 0 to |checks|
      invariant bad == OddChecks(checks[..c], code[..])
    {
      assert checks[..c + 1][..c] == checks[..c];
      var odd := ListParityLoop(code, checks[c]);
      bad := bad + if odd then 1 else 0;
    }
    assert checks[..|checks|] == checks;
  }

  datatype Hit = Hit(weight: nat, labels: ToneLabels, layout: nat)

  function WeightKey(): Hit -> nat {
    (h: Hit) => h.weight
  }

  ghost function HitOf(checks: seq<seq<uint16>>, tones: seq<nat>, labels: ToneLabels, layout: nat): Hit
    requires ChecksFit(checks) && IsTones(tones) && ValidLabels(labels)
  {
    Hit(OddChecks(checks, Demap(tones, labels, layout)), labels, layout)
  }

  /** Every combination in the order the loops visit them: the first k label orders with all
      layouts, then the next one with its first few. */
  ghost function Visited(checks: seq<seq<uint16>>, tones: seq<nat>, order: seq<ToneLabels>, k: nat): (all: seq<Hit>)
    requires ChecksFit(checks) && IsTones(tones) && k <= LAYOUTS * |order|
    requires forall i | 0 <= i < |order| :: ValidLabels(order[i])
    ensures |all| == k
  {
    seq(k, i requires 0 <= i < k => HitOf(checks, tones, order[i / LAYOUTS], i % LAYOUTS))
  }

  lemma VisitedStep(checks: seq<seq<uint16>>, tones: seq<nat>, order: seq<ToneLabels>, k: nat, layout: nat)
    requires ChecksFit(checks) && IsTones(tones) && k < |order| && layout < LAYOUTS
    requires forall i | 0 <= i < |order| :: ValidLabels(order[i])
    ensures Visited(checks, tones, order, LAYOUTS * k + layout + 1)
         == Visited(checks, tones, order, LAYOUTS * k + layout) + [HitOf(checks, tones, order[k], layout)]
  {
    hide HitOf;
    var i := LAYOUTS * k + layout;
    assert i / LAYOUTS == k && i % LAYOUTS == layout;
  }

  /** What has been kept: smallest hits in ascending order, all of them while there is room. */
  ghost predicate Keeps(keep: nat, best: seq<Hit>, all: seq<Hit>) {
    && Smallest(WeightKey(), best, all)
    && (|all| <= keep ==> multiset(best) == multiset(all) && |best| == |all|)
    && (|all| > keep ==> |best| == keep)
  }

  /** One combination: a hit comes in while there is room or when it is lighter than the last one
      kept, then the list is sorted and cut. */
  function TakeIn(keep: nat, sort: seq<Hit> -> seq<Hit>, best: seq<Hit>, h: Hit): seq<Hit>
    requires keep >= 1
  {
    if |best| < keep || h.weight < best[|best| - 1].weight then
      var sorted := sort(best + [h]);
      if |sorted| > keep then sorted[..|sorted| - 1] else sorted
    else best
  }

  /** What is kept of a list of hits, taken in one after the other. */
  ghost function Kept(keep: nat, sort: seq<Hit> -> seq<Hit>, all: seq<Hit>): (best: seq<Hit>)
    requires keep >= 1
  {
    if all == [] then [] else TakeIn(keep, sort, Kept(keep, sort, all[..|all| - 1]), all[|all| - 1])
  }

  lemma KeptStep(keep: nat, sort: seq<Hit> -> seq<Hit>, all: seq<Hit>, h: Hit)
    requires keep >= 1
    ensures Kept(keep, sort, []) == []
    ensures Kept(keep, sort, all + [h]) == TakeIn(keep, sort, Kept(keep, sort, all), h)
  {
    hide TakeIn;
    assert (all + [h])[..|all|] == all;
  }

  lemma NothingKept(keep: nat)
    ensures Keeps(keep, [], [])
  {
    assert Splits(WeightKey(), [], [], []);
  }

  /** What is kept are smallest hits in ascending order, for every conforming sort. */
  lemma {:induction false} KeptKeeps(keep: nat, sort: seq<Hit> -> seq<Hit>, all: seq<Hit>)
    requires keep >= 1 && Conforms(LessBy(WeightKey()), sort)
    ensures Keeps(keep, Kept(keep, sort, all), all)
  {
    hide Smallest, Conforms;
    if all == [] {
      NothingKept(keep);
    } else {
      var init, h := all[..|all| - 1], all[|all| - 1];
      KeptKeeps(keep, sort, init);
      var best := Kept(keep, sort, init);
      assert all == init + [h];
      if |best| < keep {
        Grow(WeightKey(), sort, best, init, h);
      } else if h.weight < best[|best| - 1].weight {
        GrowAndDrop(WeightKey(), sort, best, init, h);
      } else {
        Skip(WeightKey(), best, init, h);
      }
    }
  }

  /** Once the list is full, a hit that is not lighter than the last one kept changes nothing: of equal
      hits the earlier ones stay. A lighter one is sorted in, and the last of the longer list goes. */
  lemma LateTiesAreDropped(keep: nat, sort: seq<Hit> -> seq<Hit>, all: seq<Hit>, h: Hit)
    requires keep >= 1 && Conforms(LessBy(WeightKey()), sort)
    ensures var best := Kept(keep, sort, all);
      && (|all| < keep ==> Kept(keep, sort, all + [h]) == sort(best + [h]))
      && (|all| >= keep && h.weight >= best[|best| - 1].weight ==> Kept(keep, sort, all + [h]) == best)
      && (|all| >= keep && h.weight < best[|best| - 1].weight ==>
            |sort(best + [h])| == keep + 1 && Kept(keep, sort, all + [h]) == sort(best + [h])[..keep])
  {
    hide Smallest, Kept;
    KeptKeeps(keep, sort, all);
    KeptStep(keep, sort, all, h);
    SortAscends(WeightKey(), sort, Kept(keep, sort, all) + [h]);
  }

  method Search(checks: seq<seq<uint16>>, tones: seq<nat>, keep: nat, order: seq<ToneLabels>, sort: seq<Hit> -> seq<Hit>)
    returns (best: seq<Hit>)
    requires ChecksFit(checks) && IsTones(tones) && keep >= 1
    requires forall i | 0 <= i < |order| :: ValidLabels(order[i])
    requires Conforms(LessBy(WeightKey()), sort)
    ensures best == Kept(keep, sort, Visited(checks, tones, order, 8 * |order|))
    ensures Keeps(keep, best, Visited(checks, tones, order, 8 * |order|))
  {
    hide Conforms, Keeps, Kept, Demap, OddChecks;
    best := [];
    KeptStep(keep, sort, [], Hit(0, [], 0));
    assert Visited(checks, tones, order, 0) == [];
    for k := 0 to |order|
      invariant best == Kept(keep, sort, Visited(checks, tones, order, LAYOUTS * k))
    {
      for layout := 0 to LAYOUTS
        invariant best == Kept(keep, sort, Visited(checks, tones, order, LAYOUTS * k + layout))
      {
        var code := BitsFor(tones, order[k], layout);
        var w := Unsatisfied(checks, code);
        ghost var all := Visited(checks, tones, order, LAYOUTS * k + layout);
        VisitedStep(checks, tones, order, k, layout);
        var h := Hit(w, order[k], layout);
        KeptStep(keep, sort, all, h);
        if |best| < keep || h.weight < best[|best| - 1].weight {
          best := best + [h];
          best := sort(best);
          if |best| > keep { best := best[..|best| - 1]; }
        }
      }
    }
    KeptKeeps(keep, sort, Visited(checks, tones, order, LAYOUTS * |order|));
  }

  lemma VisitedContains(checks: seq<seq<uint16>>, tones: seq<nat>, order: seq<ToneLabels>, labels: ToneLabels, layout: nat)
    requires ChecksFit(checks) && IsTones(tones) && Enumerates(order) && ValidLabels(labels) && layout < LAYOUTS
    ensures HitOf(checks, tones, labels, layout) in Visited(checks, tones, order, LAYOUTS * |order|)
  {
    hide HitOf;
    var k :| 0 <= k < |order| && order[k] == labels;
    var i := LAYOUTS * k + layout;
    assert i / LAYOUTS == k && i % LAYOUTS == layout;
    assert Visited(checks, tones, order, LAYOUTS * |order|)[i] == HitOf(checks, tones, labels, layout);
  }

  /** The combinations visited are all label orders with all of the layouts 0 to 7, and no others. */
  lemma VisitedIsEverything(checks: seq<seq<uint16>>, tones: seq<nat>, order: seq<ToneLabels>, h: Hit)
    requires ChecksFit(checks) && IsTones(tones) && Enumerates(order)
    ensures h in Visited(checks, tones, order, 8 * |order|) <==>
            ValidLabels(h.labels) && h.layout < 8 && h.weight == OddChecks(checks, Demap(tones, h.labels, h.layout))
  {
    hide Demap, OddChecks;
    var all := Visited(checks, tones, order, 8 * |order|);
    if h in all {
      var i :| 0 <= i < |all| && all[i] == h;
      assert h == HitOf(checks, tones, order[i / LAYOUTS], i % LAYOUTS);
    }
    if ValidLabels(h.labels) && h.layout < 8 {
      VisitedContains(checks, tones, order, h.labels, h.layout);
    }
  }

  /** The search always finds a transmitted codeword: for any checks, any word that satisfies
      them, any label order and any layout, the first hit for its tones has weight 0. */
  lemma SearchFindsCodeword(checks: seq<seq<uint16>>, code: seq<bool>, labels: ToneLabels, layout: nat, tones: seq<nat>,
                            keep: nat, order: seq<ToneLabels>, best: seq<Hit>)
    requires ChecksFit(checks) && |code| == BITS && OddChecks(checks, code) == 0
    requires ValidLabels(labels) && layout < LAYOUTS && Carries(tones, code, labels, layout)
    requires keep >= 1 && Enumerates(order)
    requires Keeps(keep, best, Visited(checks, tones, order, LAYOUTS * |order|))
    ensures best != [] && best[0].weight == 0
    ensures Demap(tones, labels, layout) == code
  {
    hide Demap, OddChecks;
    DemapCarried(code, labels, layout, tones);
    VisitedContains(checks, tones, order, labels, layout);
    FirstIsMinimum(WeightKey(), best, Visited(checks, tones, order, LAYOUTS * |order|), HitOf(checks, tones, labels, layout));
  }

  /** Every kept hit is genuine: its weight is the number of checks its own demapping leaves odd. */
  lemma HitsAreGenuine(checks: seq<seq<uint16>>, tones: seq<nat>, keep: nat, order: seq<ToneLabels>, best: seq<Hit>, k: nat)
    requires ChecksFit(checks) && IsTones(tones) && keep >= 1 && Enumerates(order)
    requires Keeps(keep, best, Visited(checks, tones, order, LAYOUTS * |order|)) && k < |best|
    ensures ValidLabels(best[k].labels) && best[k].layout < LAYOUTS
    ensures best[k].weight == OddChecks(checks, Demap(tones, best[k].labels, best[k].layout))
  {
    hide Demap, OddChecks;
    var all := Visited(checks, tones, order, LAYOUTS * |order|);
    var i := KeptWasSeen(WeightKey(), best, all, k);
    assert all[i] == HitOf(checks, tones, order[i / LAYOUTS], i % LAYOUTS);
  }

  // ---------------------------------------------------------------- the runner-up

  /** A label with its three bits in the opposite order. */
  function ReverseLabel(value: nat): (r: nat)
    requires value < 8
    ensures r < 8
  {
    LabelOf(LabelBit(value, 2), LabelBit(value, 1), LabelBit(value, 0))
  }

  function ReverseLabels(labels: ToneLabels): (r: ToneLabels)
    requires forall t | 0 <= t < |labels| :: labels[t] < 8
    ensures |r| == |labels|
  {
    seq(|labels|, t requires 0 <= t < |labels| => ReverseLabel(labels[t]))
  }

  /** The layout that differs only in the order of bits within a tone. */
  function OtherBitOrder(layout: nat): nat {
    if LsbFirst(layout) then layout - 1 else layout + 1
  }

  lemma ReverseLabelTwice(value: nat)
    requires value < 8
    ensures ReverseLabel(ReverseLabel(value)) == value
  {
    LabelOfBits(LabelBit(value, 2), LabelBit(value, 1), LabelBit(value, 0));
    LabelRoundTrip(value);
  }

  lemma ReverseLabelsValid(labels: ToneLabels)
    requires ValidLabels(labels)
    ensures ValidLabels(ReverseLabels(labels))
  {
    hide ReverseLabel;
    var r := ReverseLabels(labels);
    forall t, u | 0 <= t < u < 8 ensures r[t] != r[u] {
      ReverseLabelTwice(labels[t]);
      ReverseLabelTwice(labels[u]);
    }
  }

  lemma ReversedStreamBit(value: nat, layout: nat, b: nat)
    requires value < 8 && b < 3
    ensures StreamBit(ReverseLabel(value), OtherBitOrder(layout), b) == StreamBit(value, layout, b)
  {
    hide LabelBit, LabelOf;
    LabelOfBits(LabelBit(value, 2), LabelBit(value, 1), LabelBit(value, 0));
    assert LsbFirst(OtherBitOrder(layout)) == !LsbFirst(layout);
  }

  /** Reversing every label and the bit order within a tone describes the same stream. */
  lemma SameStream(tones: seq<nat>, labels: ToneLabels, layout: nat)
    requires IsTones(tones) && ValidLabels(labels) && layout < LAYOUTS
    ensures ValidLabels(ReverseLabels(labels)) && OtherBitOrder(layout) < LAYOUTS && OtherBitOrder(layout) != layout
    ensures Demap(tones, ReverseLabels(labels), OtherBitOrder(layout)) == Demap(tones, labels, layout)
  {
    hide ReverseLabel, StreamBit;
    ReverseLabelsValid(labels);
    forall j | 0 <= j < BITS
      ensures Demap(tones, ReverseLabels(labels), OtherBitOrder(layout))[j] == Demap(tones, labels, layout)[j]
    {
      var i := Place(layout, j);
      assert Place(OtherBitOrder(layout), j) == i;
      ReversedStreamBit(labels[tones[i / 3]], layout, i % 3);
    }
  }

  /** Whatever the frame and the checks, the runner-up the tool prints beside the best hit has
      exactly the best weight: the gap between them carries no evidence. */
  lemma RunnerUpAlwaysTies(checks: seq<seq<uint16>>, tones: seq<nat>, keep: nat, order: seq<ToneLabels>, best: seq<Hit>)
    requires ChecksFit(checks) && IsTones(tones) && keep >= 2 && Enumerates(order)
    requires Keeps(keep, best, Visited(checks, tones, order, LAYOUTS * |order|))
    ensures |best| >= 2 && best[1].weight == best[0].weight
  {
    hide Demap, OddChecks, Smallest;
    var all := Visited(checks, tones, order, LAYOUTS * |order|);
    var identity: ToneLabels := [0, 1, 2, 3, 4, 5, 6, 7];
    assert ValidLabels(identity);
    VisitedContains(checks, tones, order, identity, 0);
    assert |order| >= 1;
    assert |best| >= 2;
    HitsAreGenuine(checks, tones, keep, order, best, 0);
    var labels, layout := best[0].labels, best[0].layout;
    SameStream(tones, labels, layout);
    VisitedContains(checks, tones, order, labels, layout);
    VisitedContains(checks, tones, order, ReverseLabels(labels), OtherBitOrder(layout));
    var twin := HitOf(checks, tones, ReverseLabels(labels), OtherBitOrder(layout));
    forall x | x in all ensures best[0].weight <= x.weight {
      FirstIsMinimum(WeightKey(), best, all, x);
    }
    SmallestPrefix(WeightKey(), best, all, 2);
    EnoughTies(WeightKey(), best[..2], all, {best[0], twin}, best[0].weight);
    assert best[..2][1] == best[1];
  }

  // ---------------------------------------------------------------- agreement with the other tools

  /** In the first layout the harness demaps exactly as the tone-map tool does. */
  lemma FirstLayoutIsToneMap(tones: seq<nat>, labels: ToneLabels)
    requires IsTones(tones) && ValidLabels(labels)
    ensures Demap(tones, labels, 0) == MappedBits(tones, labels)
  {
    hide LabelBit;
    assert !LsbFirst(0) && forall j | 0 <= j < BITS :: Place(0, j) == j;
  }

  /** With the checks of a complete reconstruction, the harness finds no odd check exactly on the
      XORs of the reconstructed words: a weight of 0 means a word of the code. */
  lemma NoOddChecksMeansCodeword(words: seq<Vec>, maxChecks: nat, report: Report, code: seq<bool>)
    requires ReportOf(BITS, words, maxChecks, report) && !report.incomplete && |code| == BITS
    ensures ChecksFit(Lines(report.checks))
    ensures OddChecks(Lines(report.checks), code) == 0 <==> code in Span(BITS, words)
  {
    hide OddChecks, Describes;
    var lines := Lines(report.checks);
    forall c | 0 <= c < |lines|
      ensures Fits(lines[c]) && ListParity(code, lines[c]) == Dot(code, report.checks[c])
    {
      IndicesParity(code, report.checks[c], BITS);
      IndicesExact(report.checks[c], BITS);
    }
    EnoughChecks(BITS, words, report.code, report.checks, report.checkSpace, code);
  }
}
