/** A shared maximum as a lock-free counter keeps it: threads raise it with a compare-exchange loop, a
    reader takes and clears it with an exchange. Relaxed loads may return values that have been
    overwritten since, as long as the loading thread has not seen a later one; a weak
    compare-exchange may fail for no reason. */
module AtomicMaximum {

  // ---------------------------------------------------------------- the counter

  /** A value that a maximum held, and the window in which it was stored. */
  datatype Mark = Mark(value: nat, window: nat)

  /** A counter that is raised: its value, the values it held before in order, and what the reader
      has taken from it. */
  datatype MaxCell = MaxCell(value: nat, earlier: seq<Mark>, taken: seq<nat>)

  function Latest(c: MaxCell): Mark {
    Mark(c.value, |c.taken|)
  }

  /** The value at a place in the order of modifications; the latest from there on. */
  function MarkAt(c: MaxCell, place: nat): Mark {
    if place < |c.earlier| then c.earlier[place] else Latest(c)
  }

  function Swap(c: MaxCell, x: nat): MaxCell {
    c.(value := x, earlier := c.earlier + [Latest(c)])
  }

  function TakeMax(c: MaxCell): MaxCell {
    MaxCell(0, c.earlier + [Latest(c)], c.taken + [c.value])
  }

  /** What window k reports; for the window still open, what it would report now. */
  function Report(c: MaxCell, k: nat): nat
    requires k <= |c.taken|
  {
    if k < |c.taken| then c.taken[k] else c.value
  }

  // ---------------------------------------------------------------- storing a maximum

  datatype Phase = Idle | Trying(previous: nat) | Enough | Swapped(window: nat)

  /** One run of `store_max`: the value it brings, the window of the last modification its thread
      had seen when it began, and the place of the last modification it has seen by now. */
  datatype Raise = Raise(value: nat, start: nat, seen: nat, phase: Phase)

  predicate Over(phase: Phase) {
    phase.Enough? || phase.Swapped?
  }

  function Min(a: nat, b: nat): nat {
    if a <= b then a else b
  }

  function Max(a: nat, b: nat): nat {
    if a <= b then b else a
  }

  /** A run whose thread has seen the modification at `known`. A thread that has seen them all starts
      in the window now open. */
  function NewRaise(c: MaxCell, value: nat, known: nat): Raise {
    Raise(value, MarkAt(c, known).window, Min(known, |c.earlier|), Idle)
  }

  /** A load: any place in the order of modifications that is not before one already seen. */
  function Load(c: MaxCell, r: Raise, place: nat): Raise {
    var p := Min(Max(r.seen, place), |c.earlier|);
    r.(seen := p, phase := Trying(MarkAt(c, p).value))
  }

  /** One step of `store_max`: load, or give up when the value seen is enough, or swap, or, when
      the compare-exchange fails, load again. A swap compares with the latest value. */
  function StoreMax(c: MaxCell, r: Raise, spurious: bool, place: nat): (MaxCell, Raise) {
    match r.phase
    case Idle => (c, Load(c, r, place))
    case Trying(previous) =>
      if r.value <= previous then (c, r.(phase := Enough))
      else if c.value == previous && !spurious then (Swap(c, r.value), r.(phase := Swapped(|c.taken|)))
      else (c, Load(c, r, place))
    case Enough => (c, r)
    case Swapped(_) => (c, r)
  }

  /** The order of modifications: each new value goes behind the one it overwrites, which keeps the
      window it was stored in. */
  lemma HistoryGrows(c: MaxCell, x: nat, place: nat)
    ensures place < |c.earlier| ==> MarkAt(c, place) == MarkAt(Swap(c, x), place) == MarkAt(TakeMax(c), place)
    ensures MarkAt(c, |c.earlier|) == Mark(c.value, |c.taken|)
    ensures MarkAt(Swap(c, x), |c.earlier|) == MarkAt(TakeMax(c), |c.earlier|) == Mark(c.value, |c.taken|)
    ensures MarkAt(Swap(c, x), |c.earlier| + 1) == Mark(x, |c.taken|)
    ensures MarkAt(TakeMax(c), |c.earlier| + 1) == Mark(0, |c.taken| + 1)
  {
  }

  /** A relaxed load may return any modification from the last one seen on, and is then not taken back
      behind it. */
  lemma LoadMayReturn(c: MaxCell, r: Raise, place: nat)
    requires r.seen <= place <= |c.earlier|
    ensures Load(c, r, place) == Raise(r.value, r.start, place, Trying(MarkAt(c, place).value))
  {
  }

  /** The turns of the loop: enough was seen, the swap succeeds on the value seen, or it loads again,
      which a weak compare-exchange may do even when the value matches. */
  lemma TurnsOfStoreMax(c: MaxCell, r: Raise, spurious: bool, place: nat)
    requires r.phase.Trying? && r.seen <= place <= |c.earlier|
    ensures var (c', r') := StoreMax(c, r, spurious, place);
      if r.value <= r.phase.previous then c' == c && r'.phase == Enough
      else if c.value == r.phase.previous && !spurious
      then c'.value == r.value && c'.taken == c.taken && r'.phase == Swapped(|c.taken|)
      else c' == c && r'.phase == Trying(MarkAt(c, place).value) && r'.seen == place
  {
  }

  // ---------------------------------------------------------------- one maximum

  /** x is covered: some window from `start` on reports at least x, or would if taken now. */
  ghost predicate Covered(c: MaxCell, start: nat, x: nat) {
    exists k | start <= k <= |c.taken| :: x <= Report(c, k)
  }

  /** Windows follow the order of modifications, and no window held more than it reports. */
  ghost predicate Ordered(c: MaxCell) {
    && (forall p, q | 0 <= p <= q <= |c.earlier| :: MarkAt(c, p).window <= MarkAt(c, q).window)
    && (forall p | 0 <= p <= |c.earlier| ::
          MarkAt(c, p).window <= |c.taken| && MarkAt(c, p).value <= Report(c, MarkAt(c, p).window))
  }

  /** What one run of `store_max` knows, and what it has achieved. */
  ghost predicate RaiseSound(c: MaxCell, r: Raise) {
    && r.seen <= |c.earlier|
    && r.start <= MarkAt(c, r.seen).window
    && (r.phase.Trying? ==> Covered(c, r.start, r.phase.previous))
    && (Over(r.phase) ==> Covered(c, r.start, r.value))
    && (r.phase.Swapped? ==>
          r.start <= r.phase.window <= |c.taken| && 0 < r.value <= Report(c, r.phase.window))
  }

  /** How a maximum may change: windows that were taken keep their report, the open one can only
      rise, and what was stored stays in its place. */
  ghost predicate Carries(c: MaxCell, c': MaxCell) {
    && |c.taken| <= |c'.taken| && |c.earlier| <= |c'.earlier|
    && (forall k | 0 <= k <= |c.taken| :: Report(c, k) <= Report(c', k))
    && (forall k | 0 <= k < |c.taken| :: Report(c, k) == Report(c', k))
    && (forall p | 0 <= p <= |c.earlier| :: MarkAt(c, p).window == MarkAt(c', p).window)
  }

  lemma CoveredCarries(c: MaxCell, c': MaxCell, start: nat, x: nat)
    requires Covered(c, start, x) && Carries(c, c')
    ensures Covered(c', start, x)
  {
    var k :| start <= k <= |c.taken| && x <= Report(c, k);
    assert x <= Report(c', k);
  }

  lemma RaiseCarries(c: MaxCell, c': MaxCell, r: Raise)
    requires RaiseSound(c, r) && Carries(c, c')
    ensures RaiseSound(c', r)
  {
    hide Covered;
    if r.phase.Trying? { CoveredCarries(c, c', r.start, r.phase.previous); }
    if Over(r.phase) { CoveredCarries(c, c', r.start, r.value); }
  }

  lemma SwapOrdered(c: MaxCell, x: nat)
    requires Ordered(c) && c.value <= x
    ensures Ordered(Swap(c, x)) && Carries(c, Swap(c, x))
  {
    var c' := Swap(c, x);
    forall p: nat | p <= |c'.earlier|
      ensures MarkAt(c', p) == if p <= |c.earlier| then MarkAt(c, p) else Latest(c')
    {
    }
  }

  lemma TakeOrdered(c: MaxCell)
    requires Ordered(c)
    ensures Ordered(TakeMax(c)) && Carries(c, TakeMax(c))
  {
    var c' := TakeMax(c);
    forall p: nat | p <= |c'.earlier|
      ensures MarkAt(c', p) == if p <= |c.earlier| then MarkAt(c, p) else Latest(c')
    {
    }
  }

  /** Whatever a load returns is covered from the start of the run. */
  lemma LoadSound(c: MaxCell, r: Raise, place: nat)
    requires Ordered(c) && RaiseSound(c, r)
    ensures RaiseSound(c, Load(c, r, place))
    ensures Load(c, r, place).value == r.value && Load(c, r, place).start == r.start
  {
    var r' := Load(c, r, place);
    var mark := MarkAt(c, r'.seen);
    assert r.start <= MarkAt(c, r.seen).window <= mark.window;
    assert mark.value <= Report(c, mark.window);
  }

  lemma StoreMaxSound(c: MaxCell, r: Raise, spurious: bool, place: nat)
    requires Ordered(c) && RaiseSound(c, r)
    ensures var (c', r') := StoreMax(c, r, spurious, place);
      && Ordered(c') && Carries(c, c') && RaiseSound(c', r')
      && r'.value == r.value && r'.start == r.start
  {
    hide Ordered, Load, MarkAt;
    match r.phase
    case Idle => LoadSound(c, r, place);
    case Trying(previous) =>
      if r.value <= previous {
        var k :| r.start <= k <= |c.taken| && previous <= Report(c, k);
        assert r.value <= Report(c, k);
      } else if c.value == previous && !spurious {
        SwapOrdered(c, r.value);
        RaiseCarries(c, Swap(c, r.value), r);
        assert r.value <= Report(Swap(c, r.value), |c.taken|);
      } else {
        LoadSound(c, r, place);
      }
    case Enough =>
    case Swapped(_) =>
  }

  // ---------------------------------------------------------------- one maximum and every run on it

  /** What can happen to a maximum: nothing, a new run of `store_max`, a step of one, an exchange. */
  datatype Move = Stay | Arrive(value: nat, known: nat) | Store(id: nat, spurious: bool, place: nat) | Take

  function AfterMove(c: MaxCell, raises: seq<Raise>, move: Move): (MaxCell, seq<Raise>) {
    match move
    case Stay => (c, raises)
    case Arrive(value, known) => (c, raises + [NewRaise(c, value, known)])
    case Store(id, spurious, place) =>
      if id < |raises| then
        var (c', r') := StoreMax(c, raises[id], spurious, place);
        (c', raises[id := r'])
      else (c, raises)
    case Take => (TakeMax(c), raises)
  }

  /** The report of window k was swapped in during window k. */
  ghost predicate Witnessed(c: MaxCell, raises: seq<Raise>, k: nat)
    requires k <= |c.taken|
  {
    Report(c, k) != 0 ==>
      exists id :: 0 <= id < |raises| && raises[id].phase == Swapped(k) && raises[id].value == Report(c, k)
  }

  ghost predicate PeakSound(c: MaxCell, raises: seq<Raise>) {
    && Ordered(c)
    && (forall id | 0 <= id < |raises| :: RaiseSound(c, raises[id]))
    && (forall k | 0 <= k <= |c.taken| :: Witnessed(c, raises, k))
  }

  lemma ArriveSound(c: MaxCell, raises: seq<Raise>, value: nat, known: nat)
    requires PeakSound(c, raises)
    ensures PeakSound(c, raises + [NewRaise(c, value, known)])
  {
    hide Ordered, Covered;
    var all := raises + [NewRaise(c, value, known)];
    forall k | 0 <= k <= |c.taken| ensures Witnessed(c, all, k) {
      assert Witnessed(c, raises, k);
      if Report(c, k) != 0 {
        var id :| 0 <= id < |raises| && raises[id].phase == Swapped(k) && raises[id].value == Report(c, k);
        assert all[id] == raises[id];
      }
    }
  }

  /** Only a run that is under way changes, so whoever swapped a report in still stands for it. */
  lemma StoreWitnessed(c: MaxCell, raises: seq<Raise>, id: nat, spurious: bool, place: nat, k: nat)
    requires id < |raises| && k <= |c.taken| && Witnessed(c, raises, k)
    ensures var (c', raises') := AfterMove(c, raises, Store(id, spurious, place));
      |c'.taken| == |c.taken| && Witnessed(c', raises', k)
  {
    var (c', raises') := AfterMove(c, raises, Store(id, spurious, place));
    if Report(c', k) != 0 {
      if Report(c', k) == Report(c, k) {
        var w :| 0 <= w < |raises| && raises[w].phase == Swapped(k) && raises[w].value == Report(c, k);
        assert raises'[w] == raises[w];
      } else {
        assert raises'[id].phase == Swapped(k) && raises'[id].value == Report(c', k);
      }
    }
  }

  lemma StoreSound(c: MaxCell, raises: seq<Raise>, id: nat, spurious: bool, place: nat)
    requires PeakSound(c, raises) && id < |raises|
    ensures var (c', raises') := AfterMove(c, raises, Store(id, spurious, place)); PeakSound(c', raises')
  {
    hide Ordered, Carries, RaiseSound, Witnessed, StoreMax;
    var (c', raises') := AfterMove(c, raises, Store(id, spurious, place));
    StoreMaxSound(c, raises[id], spurious, place);
    forall i | 0 <= i < |raises'| ensures RaiseSound(c', raises'[i]) {
      if i != id { RaiseCarries(c, c', raises[i]); }
    }
    StoreWitnessed(c, raises, id, spurious, place, 0);
    forall k | 0 <= k <= |c'.taken| ensures Witnessed(c', raises', k) {
      StoreWitnessed(c, raises, id, spurious, place, k);
    }
  }

  lemma TakeSound(c: MaxCell, raises: seq<Raise>)
    requires PeakSound(c, raises)
    ensures PeakSound(TakeMax(c), raises)
  {
    hide Ordered, Carries, RaiseSound;
    var c' := TakeMax(c);
    TakeOrdered(c);
    forall i | 0 <= i < |raises| ensures RaiseSound(c', raises[i]) {
      RaiseCarries(c, c', raises[i]);
    }
    forall k | 0 <= k <= |c'.taken| ensures Witnessed(c', raises, k) {
      if k <= |c.taken| { assert Witnessed(c, raises, k) && Report(c', k) == Report(c, k); }
    }
  }

  lemma MoveSound(c: MaxCell, raises: seq<Raise>, move: Move)
    requires PeakSound(c, raises)
    ensures var (c', raises') := AfterMove(c, raises, move); PeakSound(c', raises')
  {
    hide PeakSound;
    match move
    case Stay =>
    case Arrive(value, known) => ArriveSound(c, raises, value, known);
    case Store(id, spurious, place) => if id < |raises| { StoreSound(c, raises, id, spurious, place); }
    case Take => TakeSound(c, raises);
  }
}
