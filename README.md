# A verified model of the puzzle solver and move selector of homework-project-utils

The library gives student projects two reusable pieces, and this project
models both in Dafny and proves what they promise.

- **A breadth-first puzzle solver.** A puzzle state (`puzzle.State`) can say
  whether it is solved, which moves are legal, and how to make a move on a
  copy of itself. A search node (`Node`) wraps a state, the legal moves not
  yet turned into children, and, unless it is the root, its parent and the
  move that led to it. `BreadthFirstSearch.solve` keeps a FIFO frontier and a
  seen-set. It returns the first solved node it takes from the frontier, or
  nothing once the frontier is empty.
- **A two-phase move selector for games** (`TwoPhaseMoveSelector`). It
  collects a move in two clicks, a source and then a target. It checks each
  one against the game state (`game.TwoPhaseMoveState`), and then makes the
  move on that state. The players and the game status come from
  `game.State`: `Player.opponent()` and `isWinner`.

Files:

- `wrappers.dfy`: `Option`, `Result`, and `Outcome`, the result of a method
  that may fail and otherwise returns nothing.
- `puzzle_state.dfy`: a puzzle as a finite move graph. There is a map from
  each state to its legal moves and the state each move leads to, plus the
  set of solved states.
  - States are values. Cloning a state and making a move on the clone is
    computing the successor, and the original cannot change.
  - `Run` makes a sequence of moves. `Solves` says a sequence is legal and
    ends in a solved state.
- `search_node.dfy`: `Node` as a class.
  - Its only mutable field is `moves`, which `NextChild` drains one move at
    a time.
  - A ghost `depth` and the predicate `Linked` describe the parent chain.
  - `PathTo` is the sequence of moves that `printPathTo` walks, root first.
  - `Equals` keeps the source's quirk: a node is never equal to itself.
- `breadth_first_search.dfy`: `solve` as the method `Solve`.
  - The inner loop is the method `GenerateChildren`. Each of its turns is
    `Offer`. `Expand` is `GenerateChildren` plus the bookkeeping around it.
  - The proof keeps a ghost arena of every node ever put in the frontier,
    with a ghost map from each state to its position there. The frontier is
    always a suffix of the arena, and every node before it has been
    expanded.
  - `Solve` proves four things about its result. A returned node is
    solved. Its recorded moves lead from the initial state to it. No legal
    sequence shorter than its path reaches a solved state. An empty result
    means no legal sequence reaches one.
  - That no node enters the frontier twice, and no state twice, is a loop
    invariant of `Solve`. The ghost arena is returned, and the contract says
    three things of it. Its nodes hold pairwise distinct states. Each node is
    reached from the initial state by its recorded moves. When nothing is
    found, they hold every reachable state.
  - The loop ends because the move graph is finite.
- `move_state.dfy`: the game state the selector works on, as a class. Its
  position changes in place. The position's rules (`isLegalToMoveFrom`,
  `isLegalMove`, `makeMove`) are functions supplied with the state. A ghost
  log records every move made.
- `move_selector.dfy`: the selector as a class with the source's five
  fields: the game state, the phase, the invalid-selection flag, and the
  source and target selected.
  - `null` is `None`, and an `IllegalStateException` is a `Fail` or
    `Failure` result that leaves everything unchanged.
  - The value-level function `Selected` gives the selection after one
    `select`. Lemmas about it show three things. Selections keep the fields
    in shape, and consistent with the game when they were. The phase never
    goes back. Two selections from a cleared selector make a move ready
    exactly when the source may be moved from and the move from it to the
    target is legal.
  - `WellFormed` is the invariant every method of the class keeps: no
    target before the move is ready, and no source before one is selected.
    `Valid` adds that the selected source and move are legal in the current
    position.
  - `getPhase` and `isInvalidSelection` are plain field reads.
  - The doc comment of `getFrom` says it throws whenever the move is not
    ready to be made. The code throws only in `SELECT_FROM`, and still
    returns the source in `SELECT_TO`. The model follows the code.
- `game_state.dfy`: `Player`, `Status`, `opponent` and `isWinner`.
  `isWinner` takes the status that `getStatus()` would return.

## Model

| member | source | states |
|---|---|---|
| PuzzleState.Puzzle.IsSolved | src/main/java/puzzle/State.java:12-15 | `isSolved()`: the state is one of the puzzle's goal states |
| PuzzleState.Puzzle.IsLegalMove | src/main/java/puzzle/State.java:17-22 | `isLegalMove(move)`: the move graph has an edge for the move from the state |
| PuzzleState.Puzzle.MakeMove | src/main/java/puzzle/State.java:24-30 | `makeMove` on a copy, callable only with a legal move; the state it leads to is a state of the graph |
| PuzzleState.Puzzle.GetLegalMoves | src/main/java/puzzle/State.java:17-35 | `getLegalMoves()` holds exactly the moves `isLegalMove` accepts |
| PuzzleState.Puzzle.ExtendRun | src/main/java/puzzle/State.java:24-30 | a legal move made after a legal sequence extends the sequence, and it leads where `makeMove` leads |
| PuzzleState.Puzzle.RunStaysInside | src/main/java/puzzle/State.java:24-35 | a legal sequence of moves from a state in a set closed under legal moves ends inside that set |
| PuzzleState.Puzzle.FiniteSpace | src/main/java/puzzle/solver/BreadthFirstSearch.java:32-44 | some finite set holds the initial state, is closed under legal moves, and holds the end of every legal sequence from it, which bounds what the search can see |
| SearchNode.Node.Root | src/main/java/puzzle/solver/Node.java:26-31 | a root has no parent and no move, its remaining moves are all the legal moves of its state, and its chain is well formed at depth 0 |
| SearchNode.Node.Child | src/main/java/puzzle/solver/Node.java:40-44 | a child has its parent and move, its remaining moves are all the legal moves of its own state, and it sits one level below its parent |
| SearchNode.Node.GetParent | src/main/java/puzzle/solver/Node.java:59-61 | empty exactly for the root; otherwise a well-formed node one level up |
| SearchNode.Node.GetMove | src/main/java/puzzle/solver/Node.java:71-73 | empty exactly when there is no parent; otherwise a move legal in the parent's state that turns it into this node's state |
| SearchNode.Node.HasNextChild | src/main/java/puzzle/solver/Node.java:79-81 | true exactly when some move remains to be turned into a child |
| SearchNode.Node.NextChild | src/main/java/puzzle/solver/Node.java:91-101 | empty, with nothing changed, exactly when no move remains; otherwise it removes exactly one remaining move and returns a fresh child. The child's state is that move applied to this state, its parent is this node, it has all its own legal moves, and it has the same root |
| SearchNode.Node.RootNode | src/main/java/puzzle/solver/BreadthFirstSearch.java:65-68 | following parent links from a well-formed node ends at a well-formed root |
| SearchNode.Node.PathTo | src/main/java/puzzle/solver/BreadthFirstSearch.java:65-68 | the moves along the parent chain, root first, one per level of depth |
| SearchNode.Node.PathToReplays | src/main/java/puzzle/solver/BreadthFirstSearch.java:65-68 | making those moves in order from the root's state is legal at every step and ends in the node's state |
| SearchNode.Node.Equals | src/main/java/puzzle/solver/Node.java:103-109 | `equals(o)`: only a node other than this one, with an equal state, is equal to it |
| SearchNode.EqualsIsStateEquality | src/main/java/puzzle/solver/Node.java:103-109 | two distinct nodes are equal exactly when their states are, whatever their parents and moves, and symmetrically |
| SearchNode.EqualsIrreflexive | src/main/java/puzzle/solver/Node.java:105-107 | `equals` is false for the node itself |
| SearchNode.HashSetContains | src/main/java/puzzle/solver/BreadthFirstSearch.java:39 | `seen.contains(node)` on a hash set of nodes: some element is the node itself or equal to it |
| SearchNode.FreshNodeContainment | src/main/java/puzzle/solver/BreadthFirstSearch.java:39-41 | for a node that is not itself in a hash set of nodes, `contains` is membership of its state among the elements' states, so a set of states stands for `seen` |
| BreadthFirstSearch.Solve | src/main/java/puzzle/solver/BreadthFirstSearch.java:26-46 | a returned node is solved and descends from the root. Its recorded moves lead from the initial state to it, and no legal sequence solving the puzzle is shorter. If the initial state is solved, the root is returned. Nothing is returned only when no legal sequence solves the puzzle. The returned ghost arena of enqueued nodes holds distinct states, each reached from the initial state by its node's moves, and, when nothing is found, every reachable state |
| BreadthFirstSearch.Expand | src/main/java/puzzle/solver/BreadthFirstSearch.java:37-43 | after all children of the dequeued node are generated, the node counts as expanded and the search invariants hold. The frontier only grew, by fresh nodes that have all their moves |
| BreadthFirstSearch.GenerateChildren | src/main/java/puzzle/solver/BreadthFirstSearch.java:37-43 | the loop drains every move of the node, and every legal move leads to a seen state at most one level deeper. The frontier only grew, by fresh nodes |
| BreadthFirstSearch.Offer | src/main/java/puzzle/solver/BreadthFirstSearch.java:38-42 | one `nextChild` removes exactly one remaining move and returns a fresh child of the node, made by that legal move. The child is appended to the frontier and its state to `seen` exactly when the state was unseen; otherwise both stay as they were. The search invariants are kept |
| BreadthFirstSearch.StartSearching | src/main/java/puzzle/solver/BreadthFirstSearch.java:29-31 | with the root in the frontier and its state in `seen`, the search invariants hold |
| BreadthFirstSearch.StartExpanding | src/main/java/puzzle/solver/BreadthFirstSearch.java:37 | before the first child is generated, every legal move is pending |
| BreadthFirstSearch.KeepChild | src/main/java/puzzle/solver/BreadthFirstSearch.java:39-41 | appending a child with an unseen state to the frontier and to `seen` keeps the invariants and covers its move |
| BreadthFirstSearch.DropChild | src/main/java/puzzle/solver/BreadthFirstSearch.java:39 | a child whose state was seen is dropped, and its move is covered all the same |
| BreadthFirstSearch.FinishExpanding | src/main/java/puzzle/solver/BreadthFirstSearch.java:37-43 | once no move is pending, the node counts as expanded, and the deepest node is at most one level below the new front |
| BreadthFirstSearch.SearchingAppend | src/main/java/puzzle/solver/BreadthFirstSearch.java:40-41 | appending a new state's node keeps the search invariants, including that `seen` holds one state per node |
| BreadthFirstSearch.LayeredAppend | src/main/java/puzzle/solver/BreadthFirstSearch.java:40 | appending at the back of the FIFO frontier a node no shallower than the last keeps depths non-decreasing |
| BreadthFirstSearch.ReachedNoDeeper | src/main/java/puzzle/solver/BreadthFirstSearch.java:37-43 | once every node shallower than a bound is expanded, every state a legal sequence within the bound reaches is held by a node no deeper than the sequence |
| BreadthFirstSearch.FrontIsShallowest | src/main/java/puzzle/solver/BreadthFirstSearch.java:33-40 | no legal sequence shorter than the depth of the frontier's first node solves the puzzle |
| BreadthFirstSearch.FoundIsShortest | src/main/java/puzzle/solver/BreadthFirstSearch.java:33-35 | a solved node at the front descends from the root and is reached by its recorded moves, and no shorter solution exists. If the initial state is solved, it is the root |
| BreadthFirstSearch.ExhaustedHasNoSolution | src/main/java/puzzle/solver/BreadthFirstSearch.java:32-45 | when every node has been expanded and none was solved, every state a legal sequence reaches is held by a node, and no legal sequence solves the puzzle |
| BreadthFirstSearch.ArenaReplays | src/main/java/puzzle/solver/BreadthFirstSearch.java:65-68 | every node the search has put in the frontier descends from the root, and its recorded moves lead from the initial state to its state |
| BreadthFirstSearch.PositionedStatesDistinct | src/main/java/puzzle/solver/BreadthFirstSearch.java:39-42 | nodes at different positions of the frontier's history hold different states |
| GameState.Player.Opponent | src/main/java/game/State.java:45-50 | the opponent is never the player itself |
| GameState.OpponentInvolution | src/main/java/game/State.java:45-50 | the opponent of the opponent is the player |
| GameState.WinStatus | src/main/java/game/State.java:57-62 | a win status is neither `IN_PROGRESS` nor `DRAW` |
| GameState.WinStatusInjective | src/main/java/game/State.java:57-62 | different players have different win statuses |
| GameState.IsWinner | src/main/java/game/State.java:27-33 | `isWinner(p)` of a state with that status; it never holds while the game goes on or after a draw |
| GameState.WinnerIsWinStatus | src/main/java/game/State.java:27-33 | `isWinner(p)` holds exactly when the status is the win of `p` |
| GameState.UndecidedHasNoWinner | src/main/java/game/State.java:27-33 | under `IN_PROGRESS` and `DRAW` nobody has won |
| GameState.AtMostOneWinner | src/main/java/game/State.java:27-33 | two winners are the same player, and a winner's opponent has not won |
| GameState.WinnerExists | src/main/java/game/State.java:27-33 | someone has won exactly when the status is neither `IN_PROGRESS` nor `DRAW` |
| MoveState.TwoPhaseMoveState.IsLegalToMoveFrom | src/main/java/game/TwoPhaseMoveState.java:14-20 | `isLegalToMoveFrom(from)`: the game's rule on sources, at the current position |
| MoveState.TwoPhaseMoveState.IsLegalMove | src/main/java/game/TwoPhaseMoveState.java:22-28 | `isLegalMove(from, to)`: the game's rule on moves, at the current position |
| MoveState.TwoPhaseMoveState.MakeMove | src/main/java/game/TwoPhaseMoveState.java:30-37 | called with a legal move only, it moves the position to the one the move leads to and logs the move |
| MoveSelector.Selected | src/main/java/game/util/TwoPhaseMoveSelector.java:69-75 | `select` fails exactly when the move is ready |
| MoveSelector.SelectedFrom | src/main/java/game/util/TwoPhaseMoveSelector.java:77-85 | `selectFrom` on the fields as a value; what it does is stated by `SelectedKeepsConsistent` |
| MoveSelector.SelectedTo | src/main/java/game/util/TwoPhaseMoveSelector.java:87-95 | `selectTo` on the fields as a value; what it does is stated by `SelectedKeepsConsistent` |
| MoveSelector.SelectedKeepsConsistent | src/main/java/game/util/TwoPhaseMoveSelector.java:77-95 | before the move is ready, a selection succeeds and keeps the fields in shape, and consistent with the game when they were. It is invalid exactly when the state rejects it, and then only the flag changes. A valid selection clears the flag, records the action and advances the phase by one |
| MoveSelector.SelectedAllKeepsConsistent | src/main/java/game/util/TwoPhaseMoveSelector.java:69-95 | any run of selections keeps the fields in shape and consistent, and the phase never goes back. A run can only fail when it has more selections than phases left |
| MoveSelector.TwoSelectionsMakeReady | src/main/java/game/util/TwoPhaseMoveSelector.java:69-95 | from a cleared selector, selecting `a` then `b` never fails. It makes the move ready exactly when `a` may be moved from and `a` to `b` is legal, with `a` and `b` recorded and the flag clear |
| MoveSelector.TwoPhaseMoveSelector.constructor | src/main/java/game/util/TwoPhaseMoveSelector.java:25-39 | a new selector is in `SELECT_FROM` with nothing selected and no invalid selection |
| MoveSelector.TwoPhaseMoveSelector.GetPhase | src/main/java/game/util/TwoPhaseMoveSelector.java:44-46 | `getPhase()`: the phase field |
| MoveSelector.TwoPhaseMoveSelector.IsReadyToMove | src/main/java/game/util/TwoPhaseMoveSelector.java:58-60 | true exactly in `READY_TO_MOVE`, where a source and a target are selected. While the game has not moved, the source may be moved from and they make a legal move |
| MoveSelector.TwoPhaseMoveSelector.IsInvalidSelection | src/main/java/game/util/TwoPhaseMoveSelector.java:123-125 | `isInvalidSelection()`: the flag that the last selection set or cleared |
| MoveSelector.TwoPhaseMoveSelector.Select | src/main/java/game/util/TwoPhaseMoveSelector.java:69-75 | the fields become what `Selected` gives, or stay unchanged with `IllegalStateException` once the move is ready. The game state is untouched, and consistency with it is kept |
| MoveSelector.TwoPhaseMoveSelector.SelectFrom | src/main/java/game/util/TwoPhaseMoveSelector.java:77-85 | a source the state accepts is recorded, with phase `SELECT_TO` and the flag clear. Otherwise only the flag is set |
| MoveSelector.TwoPhaseMoveSelector.SelectTo | src/main/java/game/util/TwoPhaseMoveSelector.java:87-95 | a target making a legal move with the source is recorded, with phase `READY_TO_MOVE` and the flag clear. Otherwise only the flag is set |
| MoveSelector.TwoPhaseMoveSelector.GetFrom | src/main/java/game/util/TwoPhaseMoveSelector.java:101-106 | fails exactly in `SELECT_FROM`. Otherwise it returns the selected source, which may be moved from while the game has not moved |
| MoveSelector.TwoPhaseMoveSelector.GetTo | src/main/java/game/util/TwoPhaseMoveSelector.java:112-117 | fails exactly before `READY_TO_MOVE`. Otherwise it returns the selected target, which makes a legal move with the source while the game has not moved |
| MoveSelector.TwoPhaseMoveSelector.MakeMove | src/main/java/game/util/TwoPhaseMoveSelector.java:131-137 | fails, changing nothing, exactly when the move is not ready. Otherwise the state makes exactly the selected move, once, and the selector is cleared |
| MoveSelector.TwoPhaseMoveSelector.Reset | src/main/java/game/util/TwoPhaseMoveSelector.java:143-148 | the selection is cleared whatever it was, so a second reset changes nothing, and the game state is untouched |

## Left out

- `solveAndPrintSolution`, the printing in `printPathTo`, and `Node.toString`: console output and formatting. `printPathTo` prints every node from the root down: the root as its state, and each child as its move and its state. The model keeps only the moves of that walk, as `PathTo`, and the states they lead through, by `PathToReplays`.
- `Node.hashCode`: hashing is not modelled. `seen` is a set of states, and `FreshNodeContainment` shows that this is what `HashSet.contains` decides for the fresh children the search offers.
- `Node.getState`: the state is the constant field `state`, read directly.
- `State.clone` and the in-place `makeMove` of a puzzle state: puzzle states are values, so a copy cannot alias its original. The model does not capture a `clone` that shares mutable parts.
- The set `getLegalMoves()` returns: `Node` keeps that very set and removes moves from it in place. So the source relies on each call returning a fresh, modifiable set. A state that returned its own internal set would have it drained by the search. One that returned an unmodifiable set would make `nextChild` throw `UnsupportedOperationException`. The model's sets are values, so a node always works on its own copy, and neither case is captured.
- The order of `moves.iterator()`: `NextChild` takes any remaining move. Every property holds whichever move comes first.
- Puzzles with infinitely many reachable states, on which `solve` may not end: the move graph is a finite map.
- `phaseProperty` and the JavaFX `ReadOnlyObjectWrapper` around the phase: the phase is a plain field.
- `getNextPlayer`, `isGameOver` and `getStatus` of `game.State`: abstract methods with no code. `IsWinner` takes the status as a parameter.
- The effect of a game move: the rules a game state is built with supply its legality checks and the effect of a move, as functions of the position.
- `null` passed as an action to `select`: actions are values of the action type. A `null` source or target is modelled only as "not selected".
- MoveSelector.TwoPhaseMoveSelector.MakeMove: requires that a ready move still be legal. The game state's `makeMove` may only be called with a legal move, and the source breaks that rule if the game was moved through another reference after the selection.
- The console games, `BasicState`, the puzzle-side `TwoPhaseMoveState` and the image storage classes are not part of this model.
