/** The lock-free DSP counters: workers run `block_done` as a series of atomic steps, a reader
    takes and clears each counter with an exchange, and the steps interleave in any order. */
module DspStats {
  import opened AtomicMaximum

  const MODULUS := 0x1_0000_0000

  // ---------------------------------------------------------------- the machine

  /** A counter that is added to, and what the reader has taken from it, window by window. */
  datatype SumCell = SumCell(value: nat, taken: seq<nat>)

  function Add(c: SumCell, x: nat): SumCell {
    c.(value := (c.value + x) % MODULUS)
  }

  function TakeSum(c: SumCell): SumCell {
    SumCell(0, c.taken + [c.value])
  }

  /** Where a worker stands in `block_done`. */
  datatype Place = AddBlock | AddTotal | AddSamples | StoreTime | StoreDepth | AddBacklog | Finished

  /** One call of `block_done`. Its block time and queue depth are the values of its two raises. */
  datatype Call = Call(samples: nat, time: Raise, depth: Raise, place: Place)

  datatype State = State(
    blocks: SumCell, total: SumCell, samples: SumCell, backlog: SumCell,
    time: MaxCell, depth: MaxCell, calls: seq<Call>)

  datatype Tally = Blocks | Total | Samples | Backlog
  datatype Peak = BlockTime | QueueDepth

  datatype Step =
    | Begin(us: nat, samples: nat, depth: nat, timeKnown: nat, depthKnown: nat)
    | Work(id: nat, spurious: bool, place: nat)
    | TakeTally(tally: Tally)
    | TakePeak(peak: Peak)

  const NO_SUM := SumCell(0, [])
  const NO_MAX := MaxCell(0, [], [])
  const INITIAL := State(NO_SUM, NO_SUM, NO_SUM, NO_SUM, NO_MAX, NO_MAX, [])

  function WorkOn(s: State, id: nat, spurious: bool, place: nat): State
    requires id < |s.calls|
  {
    var c := s.calls[id];
    match c.place
    case AddBlock => s.(blocks := Add(s.blocks, 1), calls := s.calls[id := c.(place := AddTotal)])
    case AddTotal => s.(total := Add(s.total, c.time.value), calls := s.calls[id := c.(place := AddSamples)])
    case AddSamples => s.(samples := Add(s.samples, c.samples), calls := s.calls[id := c.(place := StoreTime)])
    case StoreTime =>
      var (cell, raise) := StoreMax(s.time, c.time, spurious, place);
      var next := if Over(raise.phase) then StoreDepth else StoreTime;
      s.(time := cell, calls := s.calls[id := c.(time := raise, place := next)])
    case StoreDepth =>
      var (cell, raise) := StoreMax(s.depth, c.depth, spurious, place);
      var next := if !Over(raise.phase) then StoreDepth else if c.depth.value > 0 then AddBacklog else Finished;
      s.(depth := cell, calls := s.calls[id := c.(depth := raise, place := next)])
    case AddBacklog => s.(backlog := Add(s.backlog, 1), calls := s.calls[id := c.(place := Finished)])
    case Finished => s
  }

  /** A step of the machine; a step that is not possible changes nothing. Arguments are 32 bits. */
  function Apply(s: State, step: Step): State {
    match step
    case Begin(us, samples, depth, timeKnown, depthKnown) =>
      if us >= MODULUS || samples >= MODULUS || depth >= MODULUS then s
      else
        var c := Call(samples, NewRaise(s.time, us, timeKnown), NewRaise(s.depth, depth, depthKnown), AddBlock);
        s.(calls := s.calls + [c])
    case Work(id, spurious, place) => if id < |s.calls| then WorkOn(s, id, spurious, place) else s
    case TakeTally(Blocks) => s.(blocks := TakeSum(s.blocks))
    case TakeTally(Total) => s.(total := TakeSum(s.total))
    case TakeTally(Samples) => s.(samples := TakeSum(s.samples))
    case TakeTally(Backlog) => s.(backlog := TakeSum(s.backlog))
    case TakePeak(BlockTime) => s.(time := TakeMax(s.time))
    case TakePeak(QueueDepth) => s.(depth := TakeMax(s.depth))
  }

  function Run(steps: seq<Step>): State {
    if steps == [] then INITIAL else Apply(Run(steps[..|steps| - 1]), steps[|steps| - 1])
  }

  // ---------------------------------------------------------------- the maxima of the machine

  function CellOf(s: State, peak: Peak): MaxCell {
    match peak
    case BlockTime => s.time
    case QueueDepth => s.depth
  }

  function RaiseOf(c: Call, peak: Peak): Raise {
    match peak
    case BlockTime => c.time
    case QueueDepth => c.depth
  }

  ghost function Raises(s: State, peak: Peak): (raises: seq<Raise>)
    ensures |raises| == |s.calls|
  {
    seq(|s.calls|, id requires 0 <= id < |s.calls| => RaiseOf(s.calls[id], peak))
  }

  /** What a step does to one of the maxima. */
  function MoveOf(s: State, step: Step, peak: Peak): Move {
    match step
    case Begin(us, samples, depth, timeKnown, depthKnown) =>
      if us >= MODULUS || samples >= MODULUS || depth >= MODULUS then Stay
      else if peak == BlockTime then Arrive(us, timeKnown) else Arrive(depth, depthKnown)
    case Work(id, spurious, place) =>
      if id < |s.calls| && s.calls[id].place == (if peak == BlockTime then StoreTime else StoreDepth)
      then Store(id, spurious, place) else Stay
    case TakeTally(_) => Stay
    case TakePeak(p) => if p == peak then Take else Stay
  }

  lemma StepIsMove(s: State, step: Step, peak: Peak)
    ensures var (cell, raises) := AfterMove(CellOf(s, peak), Raises(s, peak), MoveOf(s, step, peak));
      CellOf(Apply(s, step), peak) == cell && Raises(Apply(s, step), peak) == raises
  {
    hide StoreMax, NewRaise;
    var s' := Apply(s, step);
    var raises' := AfterMove(CellOf(s, peak), Raises(s, peak), MoveOf(s, step, peak)).1;
    assert |Raises(s', peak)| == |raises'|;
    forall id | 0 <= id < |raises'| ensures Raises(s', peak)[id] == raises'[id] {
    }
    assert Raises(s', peak) == raises';
  }

  /** A call is past a `store_max` only when that run is over, and counts a backlog only if there
      is one. */
  predicate PlaceFits(c: Call) {
    && (c.place == AddBacklog ==> c.depth.value > 0)
    && (c.place == StoreDepth || c.place == AddBacklog || c.place == Finished ==> Over(c.time.phase))
    && (c.place == AddBacklog || c.place == Finished ==> Over(c.depth.phase))
  }

  lemma StepFits(s: State, step: Step)
    requires forall id | 0 <= id < |s.calls| :: PlaceFits(s.calls[id])
    ensures forall id | 0 <= id < |Apply(s, step).calls| :: PlaceFits(Apply(s, step).calls[id])
  {
  }

  lemma InitialSound(peak: Peak)
    ensures PeakSound(CellOf(INITIAL, peak), Raises(INITIAL, peak))
  {
  }

  lemma {:induction false} RunSound(steps: seq<Step>, peak: Peak)
    ensures PeakSound(CellOf(Run(steps), peak), Raises(Run(steps), peak))
    ensures forall id | 0 <= id < |Run(steps).calls| :: PlaceFits(Run(steps).calls[id])
  {
    hide Apply, PeakSound, PlaceFits, AfterMove;
    if steps == [] {
      InitialSound(peak);
    } else {
      var s, step := Run(steps[..|steps| - 1]), steps[|steps| - 1];
      RunSound(steps[..|steps| - 1], peak);
      StepIsMove(s, step, peak);
      MoveSound(CellOf(s, peak), Raises(s, peak), MoveOf(s, step, peak));
      StepFits(s, step);
    }
  }

  /** No measurement is lost: in every interleaving, when a call has finished, some window from the
      one its thread last knew of reports at least the block time it passed, or the value still held
      does; the queue depth likewise. */
  lemma FinishedIsCovered(steps: seq<Step>, id: nat, peak: Peak)
    requires id < |Run(steps).calls| && Run(steps).calls[id].place == Finished
    ensures Covered(CellOf(Run(steps), peak), RaiseOf(Run(steps).calls[id], peak).start,
                    RaiseOf(Run(steps).calls[id], peak).value)
  {
    hide Run, Covered;
    RunSound(steps, peak);
    assert PlaceFits(Run(steps).calls[id]);
    assert RaiseSound(CellOf(Run(steps), peak), Raises(Run(steps), peak)[id]);
  }

  /** Every report is the largest value swapped in during its own window, 0 if there was none. A
      run of `store_max` swaps at most once, so no two windows report the same call. */
  lemma WindowsReportMaxima(steps: seq<Step>, peak: Peak, k: nat)
    requires k <= |CellOf(Run(steps), peak).taken|
    ensures var s := Run(steps);
      && (Report(CellOf(s, peak), k) != 0 ==>
            exists id :: 0 <= id < |s.calls| && RaiseOf(s.calls[id], peak).phase == Swapped(k)
              && RaiseOf(s.calls[id], peak).value == Report(CellOf(s, peak), k))
      && (forall id | 0 <= id < |s.calls| && RaiseOf(s.calls[id], peak).phase == Swapped(k) ::
            0 < RaiseOf(s.calls[id], peak).value <= Report(CellOf(s, peak), k)
            && RaiseOf(s.calls[id], peak).start <= k)
  {
    hide Run, Ordered, Covered;
    var s := Run(steps);
    RunSound(steps, peak);
    assert Witnessed(CellOf(s, peak), Raises(s, peak), k);
    if Report(CellOf(s, peak), k) != 0 {
      var id :| 0 <= id < |s.calls| && Raises(s, peak)[id].phase == Swapped(k)
        && Raises(s, peak)[id].value == Report(CellOf(s, peak), k);
      assert RaiseOf(s.calls[id], peak) == Raises(s, peak)[id];
    }
    forall id | 0 <= id < |s.calls| && RaiseOf(s.calls[id], peak).phase == Swapped(k)
      ensures 0 < RaiseOf(s.calls[id], peak).value <= Report(CellOf(s, peak), k)
      ensures RaiseOf(s.calls[id], peak).start <= k
    {
      assert RaiseSound(CellOf(s, peak), Raises(s, peak)[id]);
    }
  }

  // ---------------------------------------------------------------- the sums

  function SumOf(s: State, tally: Tally): SumCell {
    match tally
    case Blocks => s.blocks
    case Total => s.total
    case Samples => s.samples
    case Backlog => s.backlog
  }

  function Sum(list: seq<nat>): nat {
    if list == [] then 0 else Sum(list[..|list| - 1]) + list[|list| - 1]
  }

  /** What a call has added to a sum so far. */
  function Share(c: Call, tally: Tally): nat {
    match tally
    case Blocks => if c.place == AddBlock then 0 else 1
    case Total => if c.place == AddBlock || c.place == AddTotal then 0 else c.time.value
    case Samples => if c.place == AddBlock || c.place == AddTotal || c.place == AddSamples then 0 else c.samples
    case Backlog => if c.place == Finished && c.depth.value > 0 then 1 else 0
  }

  function Shares(calls: seq<Call>, tally: Tally): nat {
    if calls == [] then 0 else Shares(calls[..|calls| - 1], tally) + Share(calls[|calls| - 1], tally)
  }

  /** Taken in all windows plus held is what the calls have added, modulo 2^32. */
  ghost predicate Conserved(c: SumCell, added: nat) {
    (Sum(c.taken) + c.value) % MODULUS == added % MODULUS
  }

  lemma SameRemainder(a: nat, b: nat, q: int)
    requires a == b + MODULUS * q
    ensures a % MODULUS == b % MODULUS
  {
  }

  lemma AddConserves(c: SumCell, added: nat, x: nat)
    requires Conserved(c, added)
    ensures Conserved(Add(c, x), added + x)
  {
    var t, v := Sum(c.taken), c.value;
    var wraps, ahead := (v + x) / MODULUS, (t + v) / MODULUS - added / MODULUS;
    assert t + v == added + MODULUS * ahead;
    SameRemainder(t + Add(c, x).value, added + x, ahead - wraps);
  }

  lemma TakeConserves(c: SumCell, added: nat)
    requires Conserved(c, added)
    ensures Conserved(TakeSum(c), added)
  {
    assert (c.taken + [c.value])[..|c.taken|] == c.taken;
  }

  lemma {:induction false} SharesUpdate(calls: seq<Call>, id: nat, c: Call, tally: Tally)
    requires id < |calls|
    ensures Shares(calls[id := c], tally) + Share(calls[id], tally) == Shares(calls, tally) + Share(c, tally)
  {
    var last := |calls| - 1;
    if id < last {
      SharesUpdate(calls[..last], id, c, tally);
      assert calls[id := c][..last] == calls[..last][id := c];
    } else {
      assert calls[id := c][..last] == calls[..last];
    }
  }

  /** What one call adds to a sum by its next step. */
  function Gain(c: Call, tally: Tally): nat {
    match tally
    case Blocks => if c.place == AddBlock then 1 else 0
    case Total => if c.place == AddTotal then c.time.value else 0
    case Samples => if c.place == AddSamples then c.samples else 0
    case Backlog => if c.place == AddBacklog then 1 else 0
  }

  /** The sum is told of exactly what the call's share grows by. */
  lemma WorkShares(s: State, id: nat, spurious: bool, place: nat, tally: Tally)
    requires id < |s.calls| && PlaceFits(s.calls[id])
    ensures var (c, s') := (s.calls[id], WorkOn(s, id, spurious, place));
      && |s'.calls| == |s.calls| && s'.calls == s.calls[id := s'.calls[id]]
      && Share(s'.calls[id], tally) == Share(c, tally) + Gain(c, tally)
      && (SumOf(s', tally) == Add(SumOf(s, tally), Gain(c, tally))
          || (Gain(c, tally) == 0 && SumOf(s', tally) == SumOf(s, tally)))
  {
  }

  ghost predicate Balanced(s: State, tally: Tally) {
    Conserved(SumOf(s, tally), Shares(s.calls, tally))
  }

  lemma WorkBalanced(s: State, id: nat, spurious: bool, place: nat, tally: Tally)
    requires id < |s.calls| && PlaceFits(s.calls[id]) && Balanced(s, tally)
    ensures Balanced(WorkOn(s, id, spurious, place), tally)
  {
    hide Conserved, WorkOn, Share, Add, PlaceFits, SumOf, Shares;
    var s' := WorkOn(s, id, spurious, place);
    WorkShares(s, id, spurious, place, tally);
    SharesUpdate(s.calls, id, s'.calls[id], tally);
    AddConserves(SumOf(s, tally), Shares(s.calls, tally), Gain(s.calls[id], tally));
  }

  lemma NewCallShares(calls: seq<Call>, c: Call, tally: Tally)
    requires c.place == AddBlock
    ensures Shares(calls + [c], tally) == Shares(calls, tally)
  {
    assert (calls + [c])[..|calls|] == calls;
  }

  lemma StepBalanced(s: State, step: Step, tally: Tally)
    requires forall id | 0 <= id < |s.calls| :: PlaceFits(s.calls[id])
    requires Balanced(s, tally)
    ensures Balanced(Apply(s, step), tally)
  {
    hide Conserved, WorkOn, Add, PlaceFits, Shares, NewRaise;
    var s' := Apply(s, step);
    match step
    case Begin(_, _, _, _, _) => if s' != s { NewCallShares(s.calls, s'.calls[|s.calls|], tally); }
    case Work(id, spurious, place) => if id < |s.calls| { WorkBalanced(s, id, spurious, place, tally); }
    case TakeTally(t) => if t == tally { TakeConserves(SumOf(s, tally), Shares(s.calls, tally)); }
    case TakePeak(_) =>
  }

  // ---------------------------------------------------------------- what the calls were passed

  /** A step that begins a call; its arguments are 32 bits wide. */
  predicate Begins(step: Step) {
    step.Begin? && step.us < 0x1_0000_0000 && step.samples < 0x1_0000_0000 && step.depth < 0x1_0000_0000
  }

  /** The steps that began a call, in order. */
  function Begun(steps: seq<Step>): (list: seq<Step>)
    ensures forall i | 0 <= i < |list| :: list[i].Begin?
  {
    if steps == [] then [] else
      Begun(steps[..|steps| - 1]) + if Begins(steps[|steps| - 1]) then [steps[|steps| - 1]] else []
  }

  predicate HoldsArguments(c: Call, begin: Step) {
    begin.Begin? && c.time.value == begin.us && c.samples == begin.samples && c.depth.value == begin.depth
  }

  ghost predicate HoldArguments(calls: seq<Call>, begun: seq<Step>) {
    |calls| == |begun| && forall i | 0 <= i < |calls| :: HoldsArguments(calls[i], begun[i])
  }

  lemma WorkKeepsArguments(s: State, id: nat, spurious: bool, place: nat, begin: Step)
    requires id < |s.calls| && HoldsArguments(s.calls[id], begin)
    ensures var s' := WorkOn(s, id, spurious, place);
      |s'.calls| == |s.calls| && s'.calls == s.calls[id := s'.calls[id]] && HoldsArguments(s'.calls[id], begin)
  {
  }

  /** A call begins with its arguments, each of its raises in the window its thread had last seen. */
  lemma NewHoldsArguments(s: State, step: Step)
    requires Begins(step)
    ensures var calls := Apply(s, step).calls;
      && calls != [] && calls[..|calls| - 1] == s.calls && HoldsArguments(calls[|calls| - 1], step)
      && calls[|calls| - 1].place == AddBlock
      && calls[|calls| - 1].time.start == MarkAt(s.time, step.timeKnown).window
      && calls[|calls| - 1].depth.start == MarkAt(s.depth, step.depthKnown).window
  {
  }

  lemma StepKeepsArguments(s: State, step: Step, begun: seq<Step>)
    requires HoldArguments(s.calls, begun)
    ensures HoldArguments(Apply(s, step).calls, begun + if Begins(step) then [step] else [])
  {
    hide WorkOn, HoldsArguments;
    assert begun + [] == begun;
    match step
    case Begin(_, _, _, _, _) => if Begins(step) { NewHoldsArguments(s, step); }
    case Work(id, spurious, place) =>
      if id < |s.calls| { WorkKeepsArguments(s, id, spurious, place, begun[id]); }
    case TakeTally(_) =>
    case TakePeak(_) =>
  }

  lemma NoCalls()
    ensures HoldArguments(INITIAL.calls, [])
  {
  }

  /** The i-th call works with the block time, sample count and queue depth it was passed. */
  lemma {:induction false} CallsHoldArguments(steps: seq<Step>)
    ensures HoldArguments(Run(steps).calls, Begun(steps))
  {
    hide Apply, HoldArguments;
    if steps != [] {
      CallsHoldArguments(steps[..|steps| - 1]);
      StepKeepsArguments(Run(steps[..|steps| - 1]), steps[|steps| - 1], Begun(steps[..|steps| - 1]));
    } else {
      NoCalls();
    }
  }

  /** What the calls were passed in all: one block each, their block times, their samples, and one for
      each queue depth above zero. */
  function Passed(begun: seq<Step>, tally: Tally): nat
    requires forall i | 0 <= i < |begun| :: begun[i].Begin?
  {
    if begun == [] then 0 else
      var last := begun[|begun| - 1];
      Passed(begun[..|begun| - 1], tally) +
        match tally
        case Blocks => 1
        case Total => last.us
        case Samples => last.samples
        case Backlog => if last.depth > 0 then 1 else 0
  }

  lemma {:induction false} FinishedShares(calls: seq<Call>, begun: seq<Step>, tally: Tally)
    requires HoldArguments(calls, begun) && forall id | 0 <= id < |calls| :: calls[id].place == Finished
    ensures Shares(calls, tally) == Passed(begun, tally)
  {
    if calls != [] {
      var last := |calls| - 1;
      assert forall i | 0 <= i < last :: calls[..last][i] == calls[i] && begun[..last][i] == begun[i];
      FinishedShares(calls[..last], begun[..last], tally);
    }
  }

  /** Taking a sum reports the value held, clears it, and touches nothing else. */
  lemma TakeTallyAlone(s: State, tally: Tally)
    ensures var s' := Apply(s, TakeTally(tally));
      && s'.blocks == (if tally == Blocks then SumCell(0, s.blocks.taken + [s.blocks.value]) else s.blocks)
      && s'.total == (if tally == Total then SumCell(0, s.total.taken + [s.total.value]) else s.total)
      && s'.samples == (if tally == Samples then SumCell(0, s.samples.taken + [s.samples.value]) else s.samples)
      && s'.backlog == (if tally == Backlog then SumCell(0, s.backlog.taken + [s.backlog.value]) else s.backlog)
      && s'.time == s.time && s'.depth == s.depth && s'.calls == s.calls
  {
  }

  /** Taking a maximum reports the value held, clears it, and touches nothing else. */
  lemma TakePeakAlone(s: State, peak: Peak)
    ensures var s' := Apply(s, TakePeak(peak));
      && s'.time.value == (if peak == BlockTime then 0 else s.time.value)
      && s'.time.taken == s.time.taken + (if peak == BlockTime then [s.time.value] else [])
      && s'.depth.value == (if peak == QueueDepth then 0 else s.depth.value)
      && s'.depth.taken == s.depth.taken + (if peak == QueueDepth then [s.depth.value] else [])
      && s'.blocks == s.blocks && s'.total == s.total && s'.samples == s.samples && s'.backlog == s.backlog
      && s'.calls == s.calls
  {
  }

  /** In every interleaving, the counts of all windows plus the count still held are what the calls
      have added, modulo 2^32; when all calls have finished, that is what they were passed. */
  lemma {:induction false} CountersAreConserved(steps: seq<Step>, tally: Tally)
    ensures var (s, c) := (Run(steps), SumOf(Run(steps), tally));
      && (Sum(c.taken) + c.value) % 0x1_0000_0000 == Shares(s.calls, tally) % 0x1_0000_0000
      && ((forall id | 0 <= id < |s.calls| :: s.calls[id].place == Finished) ==>
            (Sum(c.taken) + c.value) % 0x1_0000_0000 == Passed(Begun(steps), tally) % 0x1_0000_0000)
  {
    hide Apply, PlaceFits, HoldArguments;
    var s := Run(steps);
    if steps != [] {
      var before := Run(steps[..|steps| - 1]);
      CountersAreConserved(steps[..|steps| - 1], tally);
      RunSound(steps[..|steps| - 1], BlockTime);
      assert Balanced(before, tally);
      StepBalanced(before, steps[|steps| - 1], tally);
      assert Balanced(s, tally);
    }
    if forall id | 0 <= id < |s.calls| :: s.calls[id].place == Finished {
      CallsHoldArguments(steps);
      FinishedShares(s.calls, Begun(steps), tally);
    }
  }
}
