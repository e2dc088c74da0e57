/** The dial's detent backlog: turns that a busy link refuses are summed and sent later. The link
    may refuse any command; every theorem holds for every pattern of refusals. */
module DetentBacklog {

  newtype int32 = x: int | -0x8000_0000 <= x < 0x8000_0000

  datatype ActionKind =
    | None | Tune | Step | Gain | Squelch | Volume | Channel | RadarRange
    | Aircraft | LoraSlot | Node | Event | P25Candidate | Talkgroup
    | Message | Identity | WifiAp | WifiChannel | Setting | View | Activate
    | Span | Filter | Ft8Band | Ft8Item | Ft8Hunter | Ft8Fine
    | SstvSave | SstvAbort | SstvDemod | SstvGainAuto

  datatype Action = Action(kind: ActionKind, value: int32)

  const LIMIT: int := 1_000_000_000
  const FLUSH_LIMIT: int32 := 20

  predicate Coalescible(kind: ActionKind) {
    kind == Tune || kind == Ft8Band || kind == Ft8Item
  }

  datatype Backlog = Backlog(kind: ActionKind, delta: int32)

  const NO_BACKLOG := Backlog(Tune, 0)

  function Clamp(sum: int): (r: int32)
  {
    if sum > LIMIT then LIMIT as int32 else if sum < -LIMIT then (-LIMIT) as int32 else sum as int32
  }

  /** The backlog after an action made while connected. */
  function AfterAct(b: Backlog, action: Action, accepted: bool): Backlog {
    if action.kind == None then b else
      var kept := if Coalescible(action.kind) then b.delta else 0;
      if accepted || !Coalescible(action.kind) then b.(delta := kept)
      else Backlog(action.kind, Clamp((if b.kind == action.kind then kept as int else 0) + action.value as int))
  }

  /** What a flush offers: all of a tune backlog, at most twenty steps of another. */
  function Offered(b: Backlog): int32 {
    if b.kind == Tune then b.delta
    else if b.delta > FLUSH_LIMIT then FLUSH_LIMIT
    else if b.delta < -FLUSH_LIMIT then -FLUSH_LIMIT
    else b.delta
  }

  function AfterFlush(b: Backlog, accepted: bool): Backlog {
    if b.delta != 0 && accepted then b.(delta := b.delta - Offered(b)) else b
  }

  /** The two static variables of the control loop. */
  class Dial {
    var pendingKind: ActionKind
    var pendingDelta: int32

    function Pending(): Backlog
      reads this
    {
      Backlog(pendingKind, pendingDelta)
    }

    constructor ()
      ensures Pending() == NO_BACKLOG
    {
      pendingKind, pendingDelta := Tune, 0;
    }

    /** An action while connected; `accepted` is the link's answer to the command. */
    method Act(action: Action, accepted: bool) returns (sent: bool)
      modifies this
      ensures Pending() == AfterAct(old(Pending()), action, accepted)
      ensures sent <==> accepted && action.kind != None
    {
      if action.kind == None { return false; }
      if !Coalescible(action.kind) { pendingDelta := 0; }
      if !accepted && Coalescible(action.kind) {
        if pendingKind != action.kind { pendingDelta := 0; }
        pendingKind := action.kind;
        var sum := pendingDelta as int + action.value as int;
        pendingDelta := if sum > LIMIT then LIMIT as int32 else if sum < -LIMIT then (-LIMIT) as int32 else sum as int32;
      }
      return accepted;
    }

    /** One pass of the flush; the command it offers carries the pending kind. */
    method Flush(online: bool, accepted: bool) returns (offered: bool, command: Action)
      modifies this
      ensures Pending() == if online then AfterFlush(old(Pending()), accepted) else old(Pending())
      ensures offered <==> online && old(pendingDelta) != 0
      ensures offered ==> command == Action(old(pendingKind), Offered(old(Pending())))
    {
      offered, command := false, Action(None, 0);
      if online && pendingDelta != 0 {
        var send := if pendingKind == Tune then pendingDelta
                    else if pendingDelta > FLUSH_LIMIT then FLUSH_LIMIT
                    else if pendingDelta < -FLUSH_LIMIT then -FLUSH_LIMIT else pendingDelta;
        offered, command := true, Action(pendingKind, send);
        if accepted { pendingDelta := pendingDelta - send; }
      }
    }

    /** Another dashboard, an activation in the device menu and the pairing and disconnect
        commands forget the amount. A link that merely drops keeps it. */
    method Forget()
      modifies this
      ensures Pending() == old(Pending()).(delta := 0)
    {
      pendingDelta := 0;
    }
  }

  // ---------------------------------------------------------------- which turns are kept

  /** A refused turn of the dial or of the two FT8 lists is kept, whatever the backlog was: added to
      turns of its own kind, in place of turns of another, and cut off at a thousand million. */
  lemma RefusedTurnIsHeld(b: Backlog, kind: ActionKind, v: int32)
    requires kind == Tune || kind == Ft8Band || kind == Ft8Item
    ensures var held := AfterAct(b, Action(kind, v), false);
      var sum := if b.kind == kind then b.delta as int + v as int else v as int;
      && held.kind == kind
      && held.delta as int == if sum > 1_000_000_000 then 1_000_000_000
                              else if sum < -1_000_000_000 then -1_000_000_000 else sum
  {
  }

  /** Any other action drops the amount, accepted or not; an accepted turn and no action at all leave
      the backlog alone. */
  lemma OtherActionsHoldNothing(b: Backlog, kind: ActionKind, v: int32, accepted: bool)
    ensures kind !in {None, Tune, Ft8Band, Ft8Item} ==> AfterAct(b, Action(kind, v), accepted) == Backlog(b.kind, 0)
    ensures kind in {Tune, Ft8Band, Ft8Item} ==> AfterAct(b, Action(kind, v), true) == b
    ensures AfterAct(b, Action(None, v), accepted) == b
  {
  }

  /** What a flush offers and leaves: all of a tune backlog, else no more than twenty steps. */
  lemma FlushedAmount(b: Backlog)
    ensures b.kind == Tune ==> Offered(b) == b.delta
    ensures b.kind != Tune && b.delta > 20 ==> Offered(b) == 20
    ensures b.kind != Tune && b.delta < -20 ==> Offered(b) == -20
    ensures b.kind != Tune && -20 <= b.delta <= 20 ==> Offered(b) == b.delta
    ensures AfterFlush(b, true) == Backlog(b.kind, b.delta - Offered(b)) && AfterFlush(b, false) == b
  {
  }

  // ---------------------------------------------------------------- runs

  datatype Happening =
    | Acted(action: Action, accepted: bool)
    | Flushed(accepted: bool)
    | Forgot

  function After(b: Backlog, h: Happening): Backlog {
    match h
    case Acted(action, accepted) => AfterAct(b, action, accepted)
    case Flushed(accepted) => AfterFlush(b, accepted)
    case Forgot => b.(delta := 0)
  }

  /** The backlog after a whole run. */
  function Replayed(run: seq<Happening>): Backlog {
    if run == [] then NO_BACKLOG else After(Replayed(run[..|run| - 1]), run[|run| - 1])
  }

  /** The backlog of one kind. */
  function Held(b: Backlog, kind: ActionKind): int {
    if b.kind == kind then b.delta as int else 0
  }

  /** How much of a kind the user asked for in one happening. */
  function Asked(h: Happening, kind: ActionKind): int {
    if h.Acted? && h.action.kind == kind then h.action.value as int else 0
  }

  /** How much of a kind went out over the link in one happening, starting from a backlog. */
  function Sent(b: Backlog, h: Happening, kind: ActionKind): int {
    match h
    case Acted(action, accepted) => if accepted && action.kind == kind then action.value as int else 0
    case Flushed(accepted) => if accepted && b.kind == kind then Offered(b) as int else 0
    case Forgot => 0
  }

  /** How much of a kind was given up: forgotten, dropped for another action, or cut off at the
      limit. */
  function GivenUp(b: Backlog, h: Happening, kind: ActionKind): int {
    match h
    case Acted(action, accepted) =>
      if action.kind == None then 0
      else if !Coalescible(action.kind) then Held(b, kind)
      else if accepted then 0
      else if action.kind != kind then Held(b, kind)
      else
        var sum := Held(b, kind) + action.value as int;
        sum - Clamp(sum) as int
    case Flushed(_) => 0
    case Forgot => Held(b, kind)
  }

  function TotalAsked(run: seq<Happening>, kind: ActionKind): int {
    if run == [] then 0 else TotalAsked(run[..|run| - 1], kind) + Asked(run[|run| - 1], kind)
  }

  function TotalSent(run: seq<Happening>, kind: ActionKind): int {
    if run == [] then 0 else
      TotalSent(run[..|run| - 1], kind) + Sent(Replayed(run[..|run| - 1]), run[|run| - 1], kind)
  }

  function TotalGivenUp(run: seq<Happening>, kind: ActionKind): int {
    if run == [] then 0 else
      TotalGivenUp(run[..|run| - 1], kind) + GivenUp(Replayed(run[..|run| - 1]), run[|run| - 1], kind)
  }

  lemma StepBalances(b: Backlog, h: Happening, kind: ActionKind)
    requires kind == Tune || kind == Ft8Band || kind == Ft8Item
    ensures Held(b, kind) + Asked(h, kind) == Sent(b, h, kind) + Held(After(b, h), kind) + GivenUp(b, h, kind)
  {
  }

  /** The books balance for every run, every refusal pattern and every kind that can wait: what was
      asked for is what was sent under that very kind, plus what is held, plus what was given up. */
  lemma {:induction false} DetentsConserved(run: seq<Happening>, kind: ActionKind)
    requires kind == Tune || kind == Ft8Band || kind == Ft8Item
    ensures TotalAsked(run, kind) == TotalSent(run, kind) + Held(Replayed(run), kind) + TotalGivenUp(run, kind)
  {
    if run != [] {
      var init, last := run[..|run| - 1], run[|run| - 1];
      DetentsConserved(init, kind);
      StepBalances(Replayed(init), last, kind);
    }
  }

  /** A happening that gives nothing up: a flush, or a turn of the one kind whose sum stays within
      the limit if it is refused. */
  ghost predicate Harmless(b: Backlog, h: Happening, kind: ActionKind) {
    match h
    case Acted(action, accepted) =>
      action.kind == None ||
      (action.kind == kind && (accepted || -1_000_000_000 <= Held(b, kind) + action.value as int <= 1_000_000_000))
    case Flushed(_) => true
    case Forgot => false
  }

  ghost predicate HarmlessRun(run: seq<Happening>, kind: ActionKind) {
    forall i | 0 <= i < |run| :: Harmless(Replayed(run[..i]), run[i], kind)
  }

  lemma {:induction false} NothingGivenUp(run: seq<Happening>, kind: ActionKind)
    requires kind == Tune || kind == Ft8Band || kind == Ft8Item
    requires HarmlessRun(run, kind)
    ensures TotalGivenUp(run, kind) == 0
  {
    if run != [] {
      var last := |run| - 1;
      forall i | 0 <= i < last ensures Harmless(Replayed(run[..last][..i]), run[..last][i], kind) {
        assert run[..last][..i] == run[..i];
        assert Harmless(Replayed(run[..i]), run[i], kind);
      }
      NothingGivenUp(run[..last], kind);
      assert Harmless(Replayed(run[..last]), run[last], kind);
    }
  }

  /** Over turns of one kind, without a clear and within the limit, whatever the link refuses:
      accepted values plus backlog equal requested values. */
  lemma SameKindRunLosesNothing(run: seq<Happening>, kind: ActionKind)
    requires kind == Tune || kind == Ft8Band || kind == Ft8Item
    requires HarmlessRun(run, kind)
    ensures TotalSent(run, kind) + Held(Replayed(run), kind) == TotalAsked(run, kind)
  {
    DetentsConserved(run, kind);
    NothingGivenUp(run, kind);
  }

  /** The backlog never leaves the limit and always has a kind that can wait. */
  lemma {:induction false} BacklogBounded(run: seq<Happening>)
    ensures -1_000_000_000 <= Replayed(run).delta <= 1_000_000_000
    ensures Replayed(run).kind in {Tune, Ft8Band, Ft8Item}
  {
    if run != [] { BacklogBounded(run[..|run| - 1]); }
  }

  function Size(b: Backlog): nat {
    if b.delta < 0 then -(b.delta as int) else b.delta as int
  }

  /** A flush moves the backlog toward zero, never past it, and offers at most twenty steps of
      anything but tuning. */
  lemma FlushTowardZero(b: Backlog)
    ensures b.kind != Tune ==> -20 <= Offered(b) <= 20
    ensures b.delta >= 0 ==> 0 <= Offered(b) <= b.delta
    ensures b.delta <= 0 ==> b.delta <= Offered(b) <= 0
    ensures AfterFlush(b, false) == b
    ensures Size(AfterFlush(b, true)) == if b.kind == Tune || Size(b) <= 20 then 0 else Size(b) - 20
    ensures AfterFlush(b, true).delta == 0 || (AfterFlush(b, true).delta > 0 <==> b.delta > 0)
  {
  }

  function AfterFlushes(b: Backlog, k: nat): Backlog {
    if k == 0 then b else AfterFlush(AfterFlushes(b, k - 1), true)
  }

  /** An accepting link drains the backlog: after k flushes 20k steps are gone, or everything. */
  lemma {:induction false} AcceptingLinkDrains(b: Backlog, k: nat)
    ensures AfterFlushes(b, k).kind == b.kind
    ensures b.kind != Tune ==> Size(AfterFlushes(b, k)) == if Size(b) <= 20 * k then 0 else Size(b) - 20 * k
    ensures b.kind == Tune && k > 0 ==> Size(AfterFlushes(b, k)) == 0
  {
    if k > 0 {
      AcceptingLinkDrains(b, k - 1);
      FlushTowardZero(AfterFlushes(b, k - 1));
    }
  }
}
