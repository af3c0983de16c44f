/** The nodes of the search graph (puzzle/solver/Node.java). */
module SearchNode {
  import opened Wrappers
  import opened PuzzleState

  /** A node wraps a state, the legal moves of that state not yet turned into
      children, and, unless it is the root, its parent and the move that led
      from the parent's state to its own. Only `moves` ever changes. */
  class Node<S(==, !new), M(==, !new)> {
    const puzzle: Puzzle<S, M>
    const state: S
    var moves: set<M>
    const parent: Option<Node<S, M>>
    const move: Option<M>
    /** The number of parent links between this node and its root. */
    ghost const depth: nat

    /** The parent chain is well formed: each move was legal in the parent's
        state and produced this node's state, down to a root at depth 0. */
    ghost predicate Linked()
      decreases depth
    {
      match parent
      case None => move.None? && depth == 0
      case Some(p) =>
        && move.Some?
        && p.depth + 1 == depth
        && p.puzzle == puzzle
        && puzzle.IsLegalMove(p.state, move.value)
        && state == puzzle.MakeMove(p.state, move.value)
        && p.Linked()
    }

    /** The remaining moves are legal moves of the state. */
    ghost predicate Valid()
      reads this
    {
      moves <= puzzle.GetLegalMoves(state)
    }

    /** `Node(S state)`: a root node. */
    constructor Root(puzzle: Puzzle<S, M>, state: S)
      ensures this.puzzle == puzzle && this.state == state
      ensures parent == None && move == None
      ensures moves == puzzle.GetLegalMoves(state) && Unexpanded()
      ensures depth == 0 && Linked()
    {
      this.puzzle := puzzle;
      this.state := state;
      parent := None;
      move := None;
      moves := puzzle.GetLegalMoves(state);
      depth := 0;
    }

    /** `Node(S state, Node parent, T move)`: a node with a parent. */
    constructor Child(state: S, parent: Node<S, M>, move: M)
      ensures puzzle == parent.puzzle && this.state == state
      ensures this.parent == Some(parent) && this.move == Some(move)
      ensures moves == puzzle.GetLegalMoves(state) && Unexpanded()
      ensures depth == parent.depth + 1
    {
      puzzle := parent.puzzle;
      this.state := state;
      this.parent := Some(parent);
      this.move := Some(move);
      moves := parent.puzzle.GetLegalMoves(state);
      depth := parent.depth + 1;
    }

    /** `getParent()`: empty exactly for a root. */
    function GetParent(): (p: Option<Node<S, M>>)
      requires Linked()
      ensures p.None? <==> depth == 0
      ensures p.Some? ==> p.value.Linked() && p.value.depth + 1 == depth
    {
      parent
    }

    /** `getMove()`: the move that turned the parent's state into this one,
        empty exactly when there is no parent. */
    function GetMove(): (m: Option<M>)
      requires Linked()
      ensures m.None? <==> parent.None?
      ensures m.Some? ==>
                puzzle.IsLegalMove(parent.value.state, m.value)
                && state == puzzle.MakeMove(parent.value.state, m.value)
    {
      move
    }

    /** No child has been generated yet: every legal move remains. */
    ghost predicate Unexpanded()
      reads this
    {
      moves == puzzle.GetLegalMoves(state)
    }

    /** `hasNextChild()`. */
    predicate HasNextChild()
      reads this
      ensures HasNextChild() <==> exists m :: m in moves
    {
      moves != {}
    }

    /** `nextChild()`: takes one remaining move out of `moves` (whichever the
        set's iterator yields first), applies it to a copy of this node's
        state and wraps the result in a new node whose parent is this one. */
    method NextChild() returns (child: Option<Node<S, M>>)
      requires Valid()
      modifies this
      ensures Valid()
      ensures child.None? <==> old(moves) == {}
      ensures child.None? ==> moves == old(moves)
      ensures child.Some? ==>
                && fresh(child.value)
                && child.value.move.Some?
                && child.value.move.value in old(moves)
                && moves == old(moves) - {child.value.move.value}
                && child.value.state == puzzle.MakeMove(state, child.value.move.value)
                && child.value.parent == Some(this)
                && child.value.puzzle == puzzle
                && child.value.Unexpanded()
                && child.value.depth == depth + 1
      ensures child.Some? && Linked() ==> child.value.Linked() && child.value.RootNode() == RootNode()
    {
      if !HasNextChild() {
        return None;
      }
      var m :| m in moves;
      moves := moves - {m};
      var newState := puzzle.MakeMove(state, m);
      var c := new Node.Child(newState, this, m);
      child := Some(c);
    }

    /** `equals(o)`: equality by state alone, except that the source answers
        false when `o` is this very node. */
    predicate Equals(o: Node?<S, M>)
      ensures Equals(o) ==> o != null && o != this && o.state == state
    {
      if o == this then false else o != null && state == o.state
    }

    /** The root reached by following parent links. */
    ghost function RootNode(): (r: Node<S, M>)
      requires Linked()
      ensures r.Linked() && r.parent.None?
      decreases depth
    {
      match parent
      case None => this
      case Some(p) => p.RootNode()
    }

    /** The moves recorded along the parent chain, from the root down to this
        node: the path `printPathTo` walks. */
    function PathTo(): (path: seq<M>)
      requires Linked()
      ensures |path| == depth
      decreases depth
    {
      match parent
      case None => []
      case Some(p) => p.PathTo() + [move.value]
    }

    /** Making the recorded moves, in root-to-node order, from the root's
        state is legal at every step and ends in this node's state. */
    lemma {:induction false} PathToReplays()
      requires Linked()
      ensures puzzle.Run(RootNode().state, PathTo()) == Some(state)
      decreases depth
    {
      match parent
      case None =>
      case Some(p) =>
        p.PathToReplays();
        puzzle.ExtendRun(RootNode().state, p.PathTo(), move.value);
    }
  }

  /** Two distinct nodes are equal exactly when their states are, whatever
      their parents and moves, and this equality is symmetric. */
  lemma EqualsIsStateEquality<S(!new), M(!new)>(a: Node<S, M>, b: Node<S, M>)
    requires a != b
    ensures a.Equals(b) <==> a.state == b.state
    ensures a.Equals(b) <==> b.Equals(a)
  {
  }

  /** No node equals itself. */
  lemma EqualsIrreflexive<S(!new), M(!new)>(a: Node<S, M>)
    ensures !a.Equals(a)
  {
  }

  /** `HashSet.contains(x)` over a set of nodes: some element is `x` itself or
      equal to it (the hash set looks for the same object before calling
      `equals`). */
  ghost predicate HashSetContains<S(!new), M(!new)>(elements: set<Node<S, M>>, x: Node<S, M>) {
    exists e :: e in elements && (e == x || x.Equals(e))
  }

  /** For a node that is not itself an element, as every freshly made child
      is, membership in a set of nodes is membership of its state among the
      elements' states: the search may key its seen-set on states. */
  lemma FreshNodeContainment<S(!new), M(!new)>(elements: set<Node<S, M>>, x: Node<S, M>)
    requires x !in elements
    ensures HashSetContains(elements, x) <==> x.state in (set e | e in elements :: e.state)
  {
    if x.state in (set e | e in elements :: e.state) {
      var e :| e in elements && e.state == x.state;
      assert x.Equals(e);
    }
  }
}
