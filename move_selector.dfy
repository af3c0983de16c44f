/** The two-phase move selector (game/util/TwoPhaseMoveSelector.java): it
    collects a move in two selections, first its source and then its
    target, checking each against the game state, and then makes it. */
module MoveSelector {
  import opened Wrappers
  import opened MoveState

  /** `Phase`: what the next selection chooses, or that the move is ready. */
  datatype Phase = SelectFrom | SelectTo | ReadyToMove

  /** The `IllegalStateException` thrown when the phase does not allow an
      operation. */
  datatype Failure = IllegalState

  /** How far a selection has got: phases are passed in this order. */
  function Rank(phase: Phase): nat {
    match phase
    case SelectFrom => 0
    case SelectTo => 1
    case ReadyToMove => 2
  }

  /** The selector's fields as a value: the phase, whether the last
      selection was invalid, and the source and target selected, `None`
      standing for null. */
  datatype Selection<T> = Selection(phase: Phase, invalid: bool, from: Option<T>, to: Option<T>)

  /** The selection of a new or reset selector: nothing selected, no
      invalid selection. */
  function Cleared<T>(): Selection<T> {
    Selection(SelectFrom, false, None, None)
  }

  /** What the fields hold in each phase: nothing is selected before a
      source is, and a target only once the move is ready. */
  predicate Shaped<T>(s: Selection<T>) {
    match s.phase
    case SelectFrom => s.from.None? && s.to.None?
    case SelectTo => s.from.Some? && s.to.None?
    case ReadyToMove => s.from.Some? && s.to.Some?
  }

  /** The selection also agrees with the game at position `p`: a selected
      source may be moved from, and a source and target ready to move make
      a legal move. */
  predicate Consistent<P, T>(rules: Rules<P, T>, p: P, s: Selection<T>) {
    && Shaped(s)
    && match s.phase
       case SelectFrom => true
       case SelectTo => rules.legalFrom(p, s.from.value)
       case ReadyToMove => rules.legalFrom(p, s.from.value) && rules.legalMove(p, s.from.value, s.to.value)
  }

  /** `selectFrom(from)`: a source the state allows to move from is recorded
      and the target is chosen next; another leaves the selection as it was
      and marks it invalid. */
  function SelectedFrom<P, T>(rules: Rules<P, T>, p: P, s: Selection<T>, from: T): Selection<T> {
    if rules.legalFrom(p, from) then s.(from := Some(from), phase := SelectTo, invalid := false)
    else s.(invalid := true)
  }

  /** `selectTo(to)`: a target that makes a legal move with the selected
      source is recorded and the move is ready; another leaves the selection
      as it was and marks it invalid. */
  function SelectedTo<P, T>(rules: Rules<P, T>, p: P, s: Selection<T>, to: T): Selection<T>
    requires s.from.Some?
  {
    if rules.legalMove(p, s.from.value, to) then s.(to := Some(to), phase := ReadyToMove, invalid := false)
    else s.(invalid := true)
  }

  /** `select(action)`: a source or a target, as the phase says; a move
      that is ready takes no further selection. */
  function Selected<P, T>(rules: Rules<P, T>, p: P, s: Selection<T>, action: T): (r: Result<Selection<T>, Failure>)
    requires Shaped(s)
    ensures r.Failure? <==> s.phase == ReadyToMove
  {
    match s.phase
    case SelectFrom => Success(SelectedFrom(rules, p, s, action))
    case SelectTo => Success(SelectedTo(rules, p, s, action))
    case ReadyToMove => Failure(IllegalState)
  }

  /** A selection before the move is ready keeps the fields in shape, and
      consistent with the game when they were. An invalid one changes
      nothing but the flag; a valid one clears the flag, records the action
      as source or target and moves on to the next phase. */
  lemma SelectedKeepsConsistent<P, T>(rules: Rules<P, T>, p: P, s: Selection<T>, action: T)
    requires Shaped(s) && s.phase != ReadyToMove
    ensures Selected(rules, p, s, action).Success?
    ensures var r := Selected(rules, p, s, action).value;
      && Shaped(r)
      && (Consistent(rules, p, s) ==> Consistent(rules, p, r))
      && (r.invalid <==> if s.phase == SelectFrom then !rules.legalFrom(p, action) else !rules.legalMove(p, s.from.value, action))
      && (r.invalid ==> r.phase == s.phase && r.from == s.from && r.to == s.to)
      && (!r.invalid ==> Rank(r.phase) == Rank(s.phase) + 1 && (if s.phase == SelectFrom then r.from else r.to) == Some(action))
  {
  }

  /** The selection after the selections `actions`, in order, from `s`; the
      first that throws ends them. */
  function SelectedAll<P, T>(rules: Rules<P, T>, p: P, s: Selection<T>, actions: seq<T>): Result<Selection<T>, Failure>
    requires Shaped(s)
    decreases |actions|
  {
    if actions == [] then Success(s)
    else
      var next := Selected(rules, p, s, actions[0]);
      if next.Failure? then Failure(next.error)
      else
        SelectedKeepsConsistent(rules, p, s, actions[0]);
        SelectedAll(rules, p, next.value, actions[1..])
  }

  /** However the selections go, the fields stay in shape, and consistent
      with the game when they were, and the phase never goes back; they can
      only throw when there are more selections than phases left. */
  lemma {:induction false} SelectedAllKeepsConsistent<P, T>(rules: Rules<P, T>, p: P, s: Selection<T>, actions: seq<T>)
    requires Shaped(s)
    ensures var r := SelectedAll(rules, p, s, actions);
      r.Success? ==> Shaped(r.value) && (Consistent(rules, p, s) ==> Consistent(rules, p, r.value)) && Rank(s.phase) <= Rank(r.value.phase)
    ensures SelectedAll(rules, p, s, actions).Failure? ==> |actions| > 2 - Rank(s.phase)
    decreases |actions|
  {
    if actions != [] && s.phase != ReadyToMove {
      SelectedKeepsConsistent(rules, p, s, actions[0]);
      SelectedAllKeepsConsistent(rules, p, Selected(rules, p, s, actions[0]).value, actions[1..]);
    }
  }

  /** From a cleared selection, two selections make the move from `a` to
      `b` ready exactly when `a` may be moved from and `a` to `b` is a legal
      move. */
  lemma TwoSelectionsMakeReady<P, T>(rules: Rules<P, T>, p: P, a: T, b: T)
    ensures var r := SelectedAll(rules, p, Cleared(), [a, b]);
      && r.Success?
      && (r.value.phase == ReadyToMove <==> rules.legalFrom(p, a) && rules.legalMove(p, a, b))
      && (r.value.phase == ReadyToMove ==> r.value == Selection(ReadyToMove, false, Some(a), Some(b)))
  {
    var s1 := SelectedFrom(rules, p, Cleared(), a);
    assert SelectedAll(rules, p, Cleared(), [a, b]) == SelectedAll(rules, p, s1, [b]);
    if rules.legalFrom(p, a) {
      assert SelectedAll(rules, p, s1, [b]) == SelectedAll(rules, p, SelectedTo(rules, p, s1, b), []);
    } else {
      assert SelectedAll(rules, p, s1, [b]) == SelectedAll(rules, p, SelectedFrom(rules, p, s1, b), []);
    }
  }

  /** The selector, for the game state `state`. */
  class TwoPhaseMoveSelector<P, T> {
    const state: TwoPhaseMoveState<P, T>
    var phase: Phase
    var invalidSelection: bool
    var from: Option<T>
    var to: Option<T>

    /** The fields as a value. */
    function Current(): Selection<T>
      reads this
    {
      Selection(phase, invalidSelection, from, to)
    }

    /** The fields agree with the phase; every method keeps this. */
    ghost predicate WellFormed()
      reads this
    {
      Shaped(Current())
    }

    /** The fields also agree with the game's current position. */
    ghost predicate Valid()
      reads this, state
    {
      Consistent(state.rules, state.position, Current())
    }

    /** `TwoPhaseMoveSelector(state)`: nothing selected yet. */
    constructor (state: TwoPhaseMoveState<P, T>)
      ensures this.state == state && Current() == Cleared()
      ensures WellFormed() && Valid()
    {
      this.state := state;
      phase := Phase.SelectFrom;
      invalidSelection := false;
      from := None;
      to := None;
    }

    /** `getPhase()`. */
    function GetPhase(): Phase
      reads this
    {
      phase
    }

    /** `isReadyToMove()`: a source and a target are selected, and when the
        game has not moved since, they make a legal move. */
    predicate IsReadyToMove()
      reads this, state
      ensures IsReadyToMove() <==> phase == Phase.ReadyToMove
      ensures WellFormed() && IsReadyToMove() ==> from.Some? && to.Some?
      ensures Valid() && IsReadyToMove() ==> state.IsLegalToMoveFrom(from.value) && state.IsLegalMove(from.value, to.value)
    {
      phase == Phase.ReadyToMove
    }

    /** `isInvalidSelection()`. */
    function IsInvalidSelection(): bool
      reads this
    {
      invalidSelection
    }

    /** `select(action)`: the state of the game is not touched; the fields
        become those `Selected` gives, or stay as they were when the move
        is ready, and then `IllegalStateException` is thrown. */
    method Select(action: T) returns (outcome: Outcome<Failure>)
      requires WellFormed()
      modifies this
      ensures WellFormed()
      ensures old(Valid()) ==> Valid()
      ensures var r := Selected(state.rules, state.position, old(Current()), action);
        if r.Success? then outcome == Pass && Current() == r.value
        else outcome == Fail(r.error) && Current() == old(Current())
    {
      match phase
      case SelectFrom =>
        SelectFrom(action);
        outcome := Pass;
      case SelectTo =>
        SelectTo(action);
        outcome := Pass;
      case ReadyToMove =>
        outcome := Fail(IllegalState);
    }

    /** `selectFrom(from)`. */
    method SelectFrom(action: T)
      requires WellFormed() && phase == Phase.SelectFrom
      modifies this
      ensures WellFormed()
      ensures old(Valid()) ==> Valid()
      ensures Current() == SelectedFrom(state.rules, state.position, old(Current()), action)
    {
      if state.IsLegalToMoveFrom(action) {
        from := Some(action);
        phase := Phase.SelectTo;
        invalidSelection := false;
      } else {
        invalidSelection := true;
      }
    }

    /** `selectTo(to)`. */
    method SelectTo(action: T)
      requires WellFormed() && phase == Phase.SelectTo
      modifies this
      ensures WellFormed()
      ensures old(Valid()) ==> Valid()
      ensures Current() == SelectedTo(state.rules, state.position, old(Current()), action)
    {
      if state.IsLegalMove(from.value, action) {
        to := Some(action);
        phase := Phase.ReadyToMove;
        invalidSelection := false;
      } else {
        invalidSelection := true;
      }
    }

    /** `getFrom()`: the source, once one is selected. */
    function GetFrom(): (r: Result<T, Failure>)
      reads this, state
      requires WellFormed()
      ensures r.Failure? <==> phase == Phase.SelectFrom
      ensures r.Success? ==> from == Some(r.value)
      ensures r.Success? && Valid() ==> state.IsLegalToMoveFrom(r.value)
    {
      if phase == Phase.SelectFrom then Failure(IllegalState) else Success(from.value)
    }

    /** `getTo()`: the target, once the move is ready. */
    function GetTo(): (r: Result<T, Failure>)
      reads this, state
      requires WellFormed()
      ensures r.Failure? <==> phase != Phase.ReadyToMove
      ensures r.Success? ==> to == Some(r.value)
      ensures r.Success? && Valid() ==> state.IsLegalMove(GetFrom().value, r.value)
    {
      if phase == Phase.SelectFrom || phase == Phase.SelectTo then Failure(IllegalState) else Success(to.value)
    }

    /** `makeMove()`: when the move is ready, it is made on the game state,
        once, with the source and target selected, and the selection is
        reset; otherwise `IllegalStateException` is thrown and nothing
        changes. The game state's `makeMove` is to be called with a legal
        move only, so a ready move must still be legal. */
    method MakeMove() returns (outcome: Outcome<Failure>)
      requires WellFormed()
      requires phase == Phase.ReadyToMove ==> state.IsLegalMove(from.value, to.value)
      modifies this, state
      ensures WellFormed()
      ensures outcome.Fail? <==> old(phase) != Phase.ReadyToMove
      ensures outcome.Fail? ==>
                && outcome.error == IllegalState
                && Current() == old(Current())
                && state.position == old(state.position) && state.made == old(state.made)
      ensures outcome.Pass? ==>
                && state.made == old(state.made) + [(old(from).value, old(to).value)]
                && state.position == state.rules.apply(old(state.position), old(from).value, old(to).value)
                && Current() == Cleared() && Valid()
    {
      if phase != Phase.ReadyToMove {
        return Fail(IllegalState);
      }
      state.MakeMove(from.value, to.value);
      Reset();
      outcome := Pass;
    }

    /** `reset()`: whatever was selected, the selection is cleared, so a
        second reset changes nothing; the game state is not touched. */
    method Reset()
      modifies this
      ensures Current() == Cleared()
      ensures WellFormed() && Valid()
    {
      from := None;
      to := None;
      phase := Phase.SelectFrom;
      invalidSelection := false;
    }
  }
}
