/** The contract a puzzle state offers to the solver (puzzle/State.java).

    A puzzle is modelled by its move graph: for each state the legal moves
    and the state each of them produces, plus the set of solved states.
    States are values, so cloning a state and applying a move to the clone
    is computing the successor value: the original is untouched by
    construction. The graph is a finite map, so only finitely many states
    can ever be reached. */
module PuzzleState {
  import opened Wrappers

  /** `moves[s][m]` is the state that making move `m` in state `s` leads to,
      for exactly the legal moves `m` of `s`; a state without an entry has
      no legal move. `goals` holds the states for which `isSolved()` holds. */
  datatype Puzzle<S(!new), M(!new)> = Puzzle(goals: set<S>, moves: map<S, map<M, S>>)
  {
    /** `isSolved()`. */
    predicate IsSolved(s: S) {
      s in goals
    }

    /** `isLegalMove(move)`. */
    predicate IsLegalMove(s: S, m: M) {
      s in moves && m in moves[s]
    }

    /** `makeMove(move)` applied to a copy of `s`; it may only be called with
        a legal move. */
    function MakeMove(s: S, m: M): (t: S)
      requires IsLegalMove(s, m)
      ensures t in States()
    {
      moves[s][m]
    }

    /** Every state of the graph: those with moves and those moves lead to. */
    ghost function States(): set<S> {
      moves.Keys + set s, m | s in moves && m in moves[s] :: moves[s][m]
    }

    /** No legal move leads out of `u`: every legal move from a state of `u`
        leads to a state of `u`. */
    ghost predicate ClosedUnder(u: set<S>) {
      forall s, m :: s in u && IsLegalMove(s, m) ==> MakeMove(s, m) in u
    }

    /** From any state only finitely many states can be reached: some finite
        set holds the state, is closed under legal moves, and so holds the
        end of every legal sequence of moves from it. */
    lemma FiniteSpace(init: S) returns (u: set<S>)
      ensures init in u && ClosedUnder(u)
      ensures forall ms :: Run(init, ms).Some? ==> Run(init, ms).value in u
    {
      u := States() + {init};
      forall ms | Run(init, ms).Some?
        ensures Run(init, ms).value in u
      {
        RunStaysInside(u, init, ms);
      }
    }

    /** `getLegalMoves()`: exactly the moves `isLegalMove` accepts. */
    function GetLegalMoves(s: S): (legal: set<M>)
      ensures forall m :: m in legal <==> IsLegalMove(s, m)
    {
      if s in moves then moves[s].Keys else {}
    }

    /** The state reached from `s` by making the moves of `ms` in order, or
        nothing if some move is not legal where it is made. */
    function Run(s: S, ms: seq<M>): Option<S>
      decreases |ms|
    {
      if ms == [] then Some(s)
      else match Run(s, ms[..|ms| - 1])
        case None => None
        case Some(t) => if IsLegalMove(t, ms[|ms| - 1]) then Some(MakeMove(t, ms[|ms| - 1])) else None
    }

    /** `ms` is legal from `s` and ends in a solved state. */
    predicate Solves(s: S, ms: seq<M>) {
      Run(s, ms).Some? && IsSolved(Run(s, ms).value)
    }

    /** A legal sequence followed by a legal move is legal, and ends where
        that move leads. */
    lemma ExtendRun(s: S, ms: seq<M>, m: M)
      requires Run(s, ms).Some? && IsLegalMove(Run(s, ms).value, m)
      ensures Run(s, ms + [m]) == Some(MakeMove(Run(s, ms).value, m))
    {
      assert (ms + [m])[..|ms|] == ms;
    }

    /** A legal sequence of moves from a state of a set closed under legal
        moves ends in that set. */
    lemma {:induction false} RunStaysInside(u: set<S>, s: S, ms: seq<M>)
      requires ClosedUnder(u) && s in u && Run(s, ms).Some?
      ensures Run(s, ms).value in u
      decreases |ms|
    {
      if ms != [] {
        RunStaysInside(u, s, ms[..|ms| - 1]);
      }
    }
  }
}
