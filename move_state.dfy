/** The game state a two-phase move selector works on
    (game/TwoPhaseMoveState.java): a move goes from a source to a target,
    and the state answers whether a source may be moved from, whether a
    pair is a legal move, and makes a move. */
module MoveState {

  /** The rules of a game, as functions of its position `P`: which sources
      may be moved from, which source-target pairs are legal moves, and the
      position a move leads to. */
  datatype Rules<!P, !T> = Rules(legalFrom: (P, T) -> bool, legalMove: (P, T, T) -> bool, apply: (P, T, T) -> P)

  /** A game state: a position that moves change in place. `made` records
      every move made on it so far, oldest first. */
  class TwoPhaseMoveState<P, T> {
    const rules: Rules<P, T>
    var position: P
    ghost var made: seq<(T, T)>

    constructor (rules: Rules<P, T>, position: P)
      ensures this.rules == rules && this.position == position && made == []
    {
      this.rules := rules;
      this.position := position;
      made := [];
    }

    /** `isLegalToMoveFrom(from)`. */
    predicate IsLegalToMoveFrom(from: T)
      reads this
    {
      rules.legalFrom(position, from)
    }

    /** `isLegalMove(from, to)`. */
    predicate IsLegalMove(from: T, to: T)
      reads this
    {
      rules.legalMove(position, from, to)
    }

    /** `makeMove(from, to)`, to be called only with a legal move: the
        position becomes the one the move leads to. */
    method MakeMove(from: T, to: T)
      requires IsLegalMove(from, to)
      modifies this
      ensures position == rules.apply(old(position), from, to)
      ensures made == old(made) + [(from, to)]
    {
      position := rules.apply(position, from, to);
      made := made + [(from, to)];
    }
  }
}
