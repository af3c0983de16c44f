/** The breadth-first search solver (puzzle/solver/BreadthFirstSearch.java).

    The proof keeps a ghost arena `nodes`: every node ever put in the
    frontier, in the order it was put there. The frontier is always a suffix
    of the arena, and the nodes before it have been expanded. */
module BreadthFirstSearch {
  import opened Wrappers
  import opened PuzzleState
  import opened SearchNode

  /** `where` indexes the sequence `nodes` by state: every node's state maps
      to that node's position, and no two nodes share a state. */
  ghost predicate Indexed<S(!new), M(!new)>(nodes: seq<Node<S, M>>, where: map<S, nat>) {
    && (forall k :: 0 <= k < |nodes| ==> nodes[k].state in where && where[nodes[k].state] == k)
    && (forall s :: s in where ==> where[s] < |nodes| && nodes[where[s]].state == s)
  }

  /** The depth of the node at position `i`. Comparisons of depths by
      position go through this function, so that they are only drawn where
      a proof names it. */
  ghost function DepthAt<S(!new), M(!new)>(nodes: seq<Node<S, M>>, i: nat): nat
    requires i < |nodes|
  {
    nodes[i].depth
  }

  /** Depths never decrease along `nodes`. */
  ghost predicate Layered<S(!new), M(!new)>(nodes: seq<Node<S, M>>) {
    forall i, j :: 0 <= i <= j < |nodes| ==> DepthAt(nodes, i) <= DepthAt(nodes, j)
  }

  /** Each legal move of `n`'s state outside `pending` leads to a state held
      by some node of `nodes` at most one level deeper than `n`. */
  ghost predicate Covered<S(!new), M(!new)>(puzzle: Puzzle<S, M>, n: Node<S, M>, pending: set<M>, nodes: seq<Node<S, M>>, where: map<S, nat>)
    requires Indexed(nodes, where)
  {
    forall m {:trigger puzzle.IsLegalMove(n.state, m)} :: puzzle.IsLegalMove(n.state, m) && m !in pending ==>
      && puzzle.MakeMove(n.state, m) in where
      && nodes[where[puzzle.MakeMove(n.state, m)]].depth <= n.depth + 1
  }

  /** All children of `n` have been generated: every legal move is covered. */
  ghost predicate Expanded<S(!new), M(!new)>(puzzle: Puzzle<S, M>, n: Node<S, M>, nodes: seq<Node<S, M>>, where: map<S, nat>)
    requires Indexed(nodes, where)
  {
    Covered(puzzle, n, {}, nodes, where)
  }

  /** The node at position `k` descends, through well-formed parent links,
      from `root`. */
  ghost predicate DescendsAt<S(!new), M(!new)>(puzzle: Puzzle<S, M>, root: Node<S, M>, nodes: seq<Node<S, M>>, k: nat)
    requires k < |nodes|
  {
    nodes[k].Linked() && nodes[k].RootNode() == root && nodes[k].puzzle == puzzle
  }

  /** Every node descends from `root`. */
  ghost predicate Rooted<S(!new), M(!new)>(puzzle: Puzzle<S, M>, root: Node<S, M>, nodes: seq<Node<S, M>>) {
    forall k :: 0 <= k < |nodes| ==> DescendsAt(puzzle, root, nodes, k)
  }

  /** The node at position `i` was not solved and had all its children
      generated. */
  ghost predicate ExpandedAt<S(!new), M(!new)>(puzzle: Puzzle<S, M>, nodes: seq<Node<S, M>>, where: map<S, nat>, i: nat)
    requires Indexed(nodes, where) && i < |nodes|
  {
    !puzzle.IsSolved(nodes[i].state) && Expanded(puzzle, nodes[i], nodes, where)
  }

  /** The search so far: `nodes` starts with the root for `init`, and the
      first `done` nodes have been taken out of the frontier, were not
      solved, and had all their children generated. */
  ghost predicate Explored<S(!new), M(!new)>(puzzle: Puzzle<S, M>, init: S, nodes: seq<Node<S, M>>, where: map<S, nat>, done: nat) {
    && |nodes| > 0
    && nodes[0].state == init
    && nodes[0].depth == 0
    && done <= |nodes|
    && Indexed(nodes, where)
    && (forall i :: 0 <= i < done ==> ExpandedAt(puzzle, nodes, where, i))
  }

  /** Every state reachable from `init` by a legal sequence no longer than
      `bound` is held by a node no deeper than that sequence, provided that
      every node shallower than `bound` has been expanded. */
  lemma {:induction false} ReachedNoDeeper<S(!new), M(!new)>(
    puzzle: Puzzle<S, M>, init: S, nodes: seq<Node<S, M>>, where: map<S, nat>, done: nat, bound: nat, ms: seq<M>)
    requires Explored(puzzle, init, nodes, where, done)
    requires forall i :: 0 <= i < |nodes| && nodes[i].depth < bound ==> i < done
    requires puzzle.Run(init, ms).Some? && |ms| <= bound
    ensures puzzle.Run(init, ms).value in where
    ensures nodes[where[puzzle.Run(init, ms).value]].depth <= |ms|
    decreases |ms|
  {
    if ms == [] {
      assert nodes[0].state in where;
    } else {
      var prefix, m := ms[..|ms| - 1], ms[|ms| - 1];
      ReachedNoDeeper(puzzle, init, nodes, where, done, bound, prefix);
      var u := puzzle.Run(init, prefix).value;
      var j := where[u];
      assert nodes[j].state == u;
      assert j < done && ExpandedAt(puzzle, nodes, where, j);
      assert puzzle.IsLegalMove(u, m);
      assert puzzle.Run(init, ms).value == puzzle.MakeMove(u, m);
    }
  }

  /** When the frontier's first node sits at position `front`, no legal
      sequence from `init` shorter than that node's depth reaches a solved
      state: the node is a shortest solution if it is solved. */
  lemma FrontIsShallowest<S(!new), M(!new)>(puzzle: Puzzle<S, M>, init: S, nodes: seq<Node<S, M>>, where: map<S, nat>, front: nat)
    requires Explored(puzzle, init, nodes, where, front)
    requires Layered(nodes) && front < |nodes|
    ensures forall ms :: puzzle.Solves(init, ms) ==> nodes[front].depth <= |ms|
  {
    var bound := nodes[front].depth;
    forall i | 0 <= i < |nodes| && nodes[i].depth < bound
      ensures i < front
    {
      assert front <= i ==> DepthAt(nodes, front) <= DepthAt(nodes, i);
    }
    forall ms | puzzle.Solves(init, ms)
      ensures bound <= |ms|
    {
      if |ms| <= bound {
        // the node holding the solved end state is no shallower than the front
        ReachedNoDeeper(puzzle, init, nodes, where, front, bound, ms);
        var j := where[puzzle.Run(init, ms).value];
        assert nodes[j].state == puzzle.Run(init, ms).value;
        assert DepthAt(nodes, j) < DepthAt(nodes, front) ==> j < front;
        assert j < front ==> ExpandedAt(puzzle, nodes, where, j);
        assert front <= j;
      }
    }
  }

  /** When every node has been expanded and the frontier is empty, every
      state a legal sequence from `init` reaches is held by a node, and none
      of them is solved. */
  lemma ExhaustedHasNoSolution<S(!new), M(!new)>(puzzle: Puzzle<S, M>, init: S, nodes: seq<Node<S, M>>, where: map<S, nat>)
    requires Explored(puzzle, init, nodes, where, |nodes|)
    ensures forall ms :: puzzle.Run(init, ms).Some? ==> puzzle.Run(init, ms).value in where
    ensures forall ms :: !puzzle.Solves(init, ms)
  {
    forall ms | puzzle.Run(init, ms).Some?
      ensures puzzle.Run(init, ms).value in where
      ensures !puzzle.IsSolved(puzzle.Run(init, ms).value)
    {
      ReachedNoDeeper(puzzle, init, nodes, where, |nodes|, |ms|, ms);
      var j := where[puzzle.Run(init, ms).value];
      assert nodes[j].state == puzzle.Run(init, ms).value && ExpandedAt(puzzle, nodes, where, j);
    }
  }

  /** The node at position `k` descends from the first node, and its
      recorded moves lead from `init` to its state. */
  ghost predicate ReachedAt<S(!new), M(!new)>(puzzle: Puzzle<S, M>, init: S, nodes: seq<Node<S, M>>, k: nat)
    requires k < |nodes|
  {
    && nodes[k].Linked()
    && nodes[k].RootNode() == nodes[0]
    && puzzle.Run(init, nodes[k].PathTo()) == Some(nodes[k].state)
  }

  /** Everything the search keeps about its nodes apart from their move sets:
      they are `Explored` up to `done`, descend from `start` and have
      non-decreasing depths, and their states are exactly `seen`, a subset of
      `universe` with as many states as there are nodes. */
  ghost predicate Searching<S(!new), M(!new)>(
    puzzle: Puzzle<S, M>, init: S, universe: set<S>, start: Node<S, M>,
    nodes: seq<Node<S, M>>, where: map<S, nat>, seen: set<S>, done: nat)
  {
    && Explored(puzzle, init, nodes, where, done)
    && nodes[0] == start
    && Rooted(puzzle, start, nodes)
    && Layered(nodes)
    && seen == where.Keys
    && seen <= universe
    && |seen| == |nodes| <= |universe|
  }

  /** A solved node at the front of the frontier is a shortest solution,
      reached from the root by its recorded moves; if `init` itself is
      solved, it is the root. */
  lemma FoundIsShortest<S(!new), M(!new)>(
    puzzle: Puzzle<S, M>, init: S, universe: set<S>, start: Node<S, M>,
    nodes: seq<Node<S, M>>, where: map<S, nat>, seen: set<S>, head: nat)
    requires Searching(puzzle, init, universe, start, nodes, where, seen, head)
    requires head < |nodes| && puzzle.IsSolved(nodes[head].state)
    ensures nodes[head].Linked() && nodes[head].RootNode() == start
    ensures puzzle.Run(init, nodes[head].PathTo()) == Some(nodes[head].state)
    ensures forall ms :: puzzle.Solves(init, ms) ==> |nodes[head].PathTo()| <= |ms|
    ensures puzzle.IsSolved(init) ==> head == 0
  {
    FrontIsShallowest(puzzle, init, nodes, where, head);
    assert DescendsAt(puzzle, start, nodes, head);
    nodes[head].PathToReplays();
  }

  /** Every node the search has put in the frontier is reached from `init`
      by its recorded moves. */
  lemma ArenaReplays<S(!new), M(!new)>(
    puzzle: Puzzle<S, M>, init: S, universe: set<S>, start: Node<S, M>,
    nodes: seq<Node<S, M>>, where: map<S, nat>, seen: set<S>, done: nat)
    requires Searching(puzzle, init, universe, start, nodes, where, seen, done)
    ensures forall k :: 0 <= k < |nodes| ==> ReachedAt(puzzle, init, nodes, k)
  {
    forall k | 0 <= k < |nodes|
      ensures ReachedAt(puzzle, init, nodes, k)
    {
      assert DescendsAt(puzzle, start, nodes, k);
      nodes[k].PathToReplays();
    }
  }

  /** The frontier `open` is the arena `nodes` from position `from` on. */
  ghost predicate Frontier<T>(open: seq<T>, nodes: seq<T>, from: nat) {
    && from + |open| == |nodes|
    && forall i :: 0 <= i < |open| ==> open[i] == nodes[from + i]
  }

  /** Nodes at different positions of an arena whose states map to their
      positions hold different states. */
  lemma PositionedStatesDistinct<S(!new), M(!new)>(nodes: seq<Node<S, M>>, where: map<S, nat>)
    requires forall k :: 0 <= k < |nodes| ==> nodes[k].state in where && where[nodes[k].state] == k
    ensures forall i, j :: 0 <= i < j < |nodes| ==> nodes[i].state != nodes[j].state
  {
  }

  /** A subset has no more elements than its superset. */
  lemma {:induction false} SubsetCardinality<T>(a: set<T>, b: set<T>)
    requires a <= b
    ensures |a| <= |b|
    decreases |a|
  {
    if a != {} {
      var x :| x in a;
      SubsetCardinality(a - {x}, b - {x});
    }
  }

  /** The search invariants hold for the arena holding only the root node for
      `init`, before anything has been taken from the frontier. */
  lemma StartSearching<S(!new), M(!new)>(puzzle: Puzzle<S, M>, init: S, universe: set<S>, start: Node<S, M>)
    requires init in universe
    requires start.state == init && start.Linked() && start.parent.None? && start.puzzle == puzzle
    ensures Searching(puzzle, init, universe, start, [start], map[init := 0], {init}, 0)
  {
    SubsetCardinality({init}, universe);
  }

  /** The bookkeeping while the node at position `h` has its children
      generated: the search invariants hold with `h` nodes done, the
      frontier is the arena after `h`, the last node is at most one level
      deeper than node `h`, and every legal move of node `h` outside
      `pending` is covered. */
  ghost predicate Expanding<S(!new), M(!new)>(
    puzzle: Puzzle<S, M>, init: S, universe: set<S>, start: Node<S, M>, h: nat,
    nodes: seq<Node<S, M>>, where: map<S, nat>, seen: set<S>, open: seq<Node<S, M>>, pending: set<M>)
  {
    && Searching(puzzle, init, universe, start, nodes, where, seen, h)
    && h < |nodes|
    && Frontier(open, nodes, h + 1)
    && nodes[|nodes| - 1].depth <= nodes[h].depth + 1
    && Covered(puzzle, nodes[h], pending, nodes, where)
  }

  /** Before the first child of the node at position `h` is generated, every
      legal move is pending. */
  lemma StartExpanding<S(!new), M(!new)>(
    puzzle: Puzzle<S, M>, init: S, universe: set<S>, start: Node<S, M>,
    nodes: seq<Node<S, M>>, where: map<S, nat>, seen: set<S>, open: seq<Node<S, M>>, h: nat)
    requires Searching(puzzle, init, universe, start, nodes, where, seen, h)
    requires h < |nodes| && Frontier(open, nodes, h + 1)
    requires nodes[|nodes| - 1].depth <= nodes[h].depth + 1
    ensures Expanding(puzzle, init, universe, start, h, nodes, where, seen, open, puzzle.GetLegalMoves(nodes[h].state))
  {
  }

  /** The node at position `h` is being expanded and its child `c`, made by
      move `m`, has a state no node holds yet: appending `c` to the arena and
      the frontier keeps the bookkeeping and covers `m`. */
  lemma KeepChild<S(!new), M(!new)>(
    puzzle: Puzzle<S, M>, init: S, universe: set<S>, start: Node<S, M>, h: nat,
    nodes: seq<Node<S, M>>, where: map<S, nat>, seen: set<S>, open: seq<Node<S, M>>,
    pending: set<M>, m: M, c: Node<S, M>)
    requires Expanding(puzzle, init, universe, start, h, nodes, where, seen, open, pending)
    requires puzzle.ClosedUnder(universe)
    requires puzzle.IsLegalMove(nodes[h].state, m)
    requires c.state == puzzle.MakeMove(nodes[h].state, m) && c.depth == nodes[h].depth + 1
    requires c.Linked() && c.RootNode() == start && c.puzzle == puzzle
    requires c.state !in seen
    ensures Expanding(puzzle, init, universe, start, h,
                      nodes + [c], where[c.state := |nodes|], seen + {c.state}, open + [c], pending - {m})
  {
    SearchingAppend(puzzle, init, universe, start, nodes, where, seen, h, c);
    AppendKeeps(nodes, h, open, c);
    CoverChild(puzzle, nodes, where, h, pending, m, c);
  }

  /** Appending a child of the node at position `h` whose state is new and
      lies in `universe` keeps the search invariants. */
  lemma SearchingAppend<S(!new), M(!new)>(
    puzzle: Puzzle<S, M>, init: S, universe: set<S>, start: Node<S, M>,
    nodes: seq<Node<S, M>>, where: map<S, nat>, seen: set<S>, h: nat, c: Node<S, M>)
    requires Searching(puzzle, init, universe, start, nodes, where, seen, h) && h < |nodes|
    requires nodes[|nodes| - 1].depth <= c.depth
    requires c.Linked() && c.RootNode() == start && c.puzzle == puzzle
    requires c.state in universe && c.state !in seen
    ensures Searching(puzzle, init, universe, start, nodes + [c], where[c.state := |nodes|], seen + {c.state}, h)
  {
    ExploredAppend(puzzle, init, nodes, where, h, c);
    RootedAppend(puzzle, start, nodes, c);
    LayeredAppend(nodes, c);
    assert |seen + {c.state}| == |seen| + 1;
    SubsetCardinality(seen + {c.state}, universe);
  }

  /** Appending a node with a new state keeps the index and every expansion. */
  lemma ExploredAppend<S(!new), M(!new)>(puzzle: Puzzle<S, M>, init: S, nodes: seq<Node<S, M>>, where: map<S, nat>, done: nat, c: Node<S, M>)
    requires Explored(puzzle, init, nodes, where, done)
    requires c.state !in where
    ensures Explored(puzzle, init, nodes + [c], where[c.state := |nodes|], done)
  {
    var nodes', where' := nodes + [c], where[c.state := |nodes|];
    IndexedAppend(nodes, where, c);
    forall i | 0 <= i < done
      ensures ExpandedAt(puzzle, nodes', where', i)
    {
      assert ExpandedAt(puzzle, nodes, where, i) && nodes'[i] == nodes[i];
      CoveredAppend(puzzle, nodes, where, nodes[i], {}, c);
    }
  }

  lemma IndexedAppend<S(!new), M(!new)>(nodes: seq<Node<S, M>>, where: map<S, nat>, c: Node<S, M>)
    requires Indexed(nodes, where) && c.state !in where
    ensures Indexed(nodes + [c], where[c.state := |nodes|])
  {
  }

  lemma CoveredAppend<S(!new), M(!new)>(puzzle: Puzzle<S, M>, nodes: seq<Node<S, M>>, where: map<S, nat>, n: Node<S, M>, pending: set<M>, c: Node<S, M>)
    requires Indexed(nodes, where) && c.state !in where
    requires Covered(puzzle, n, pending, nodes, where)
    ensures Indexed(nodes + [c], where[c.state := |nodes|])
    ensures Covered(puzzle, n, pending, nodes + [c], where[c.state := |nodes|])
  {
    IndexedAppend(nodes, where, c);
  }

  lemma RootedAppend<S(!new), M(!new)>(puzzle: Puzzle<S, M>, start: Node<S, M>, nodes: seq<Node<S, M>>, c: Node<S, M>)
    requires Rooted(puzzle, start, nodes)
    requires c.Linked() && c.RootNode() == start && c.puzzle == puzzle
    ensures Rooted(puzzle, start, nodes + [c])
  {
    forall k | 0 <= k < |nodes| + 1
      ensures DescendsAt(puzzle, start, nodes + [c], k)
    {
      if k < |nodes| {
        assert DescendsAt(puzzle, start, nodes, k) && (nodes + [c])[k] == nodes[k];
      }
    }
  }

  lemma LayeredAppend<S(!new), M(!new)>(nodes: seq<Node<S, M>>, c: Node<S, M>)
    requires Layered(nodes) && |nodes| > 0 && nodes[|nodes| - 1].depth <= c.depth
    ensures Layered(nodes + [c])
  {
    var nodes' := nodes + [c];
    forall i, j | 0 <= i <= j < |nodes'|
      ensures DepthAt(nodes', i) <= DepthAt(nodes', j)
    {
      if j < |nodes| {
        assert DepthAt(nodes, i) <= DepthAt(nodes, j);
      } else if i < |nodes| {
        assert DepthAt(nodes, i) <= DepthAt(nodes, |nodes| - 1);
      }
    }
  }

  /** Appending to the arena appends to the frontier after position `h`. */
  lemma AppendKeeps<T>(nodes: seq<T>, h: nat, open: seq<T>, c: T)
    requires h < |nodes| && Frontier(open, nodes, h + 1)
    ensures Frontier(open + [c], nodes + [c], h + 1)
    ensures (nodes + [c])[h] == nodes[h]
  {
    assert forall k :: 0 <= k < |nodes| ==> (nodes + [c])[k] == nodes[k];
  }

  /** The child `c` of the node at position `h`, appended with its new
      state, covers the move that made it. */
  lemma CoverChild<S(!new), M(!new)>(
    puzzle: Puzzle<S, M>, nodes: seq<Node<S, M>>, where: map<S, nat>, h: nat,
    pending: set<M>, m: M, c: Node<S, M>)
    requires Indexed(nodes, where) && c.state !in where && h < |nodes|
    requires Covered(puzzle, nodes[h], pending, nodes, where)
    requires puzzle.IsLegalMove(nodes[h].state, m)
    requires c.state == puzzle.MakeMove(nodes[h].state, m) && c.depth == nodes[h].depth + 1
    ensures Indexed(nodes + [c], where[c.state := |nodes|])
    ensures Covered(puzzle, (nodes + [c])[h], pending - {m}, nodes + [c], where[c.state := |nodes|])
  {
    CoveredAppend(puzzle, nodes, where, nodes[h], pending, c);
    assert (nodes + [c])[h] == nodes[h] && (nodes + [c])[|nodes|] == c;
  }

  /** As `KeepChild`, for a child whose state some node already holds: the
      child is dropped and `m` is covered all the same. */
  lemma DropChild<S(!new), M(!new)>(
    puzzle: Puzzle<S, M>, init: S, universe: set<S>, start: Node<S, M>, h: nat,
    nodes: seq<Node<S, M>>, where: map<S, nat>, seen: set<S>, open: seq<Node<S, M>>,
    pending: set<M>, m: M, c: Node<S, M>)
    requires Expanding(puzzle, init, universe, start, h, nodes, where, seen, open, pending)
    requires puzzle.IsLegalMove(nodes[h].state, m)
    requires c.state == puzzle.MakeMove(nodes[h].state, m)
    requires c.state in seen
    ensures Expanding(puzzle, init, universe, start, h, nodes, where, seen, open, pending - {m})
  {
    assert DepthAt(nodes, where[c.state]) <= DepthAt(nodes, |nodes| - 1);
  }

  /** Once no legal move of the node at position `h` is pending and it is
      not solved, the search invariants hold with `h + 1` nodes done, the
      deepest node is at most one level below the new front. */
  lemma FinishExpanding<S(!new), M(!new)>(
    puzzle: Puzzle<S, M>, init: S, universe: set<S>, start: Node<S, M>, h: nat,
    nodes: seq<Node<S, M>>, where: map<S, nat>, seen: set<S>, open: seq<Node<S, M>>)
    requires h < |nodes|
    requires Expanding(puzzle, init, universe, start, h, nodes, where, seen, open, {})
    requires !puzzle.IsSolved(nodes[h].state)
    ensures Searching(puzzle, init, universe, start, nodes, where, seen, h + 1)
    ensures Frontier(open, nodes, h + 1)
    ensures h + 1 < |nodes| ==> nodes[|nodes| - 1].depth <= nodes[h + 1].depth + 1
  {
    if h + 1 < |nodes| {
      assert DepthAt(nodes, h) <= DepthAt(nodes, h + 1);
    }
  }

  /** One turn of the inner loop of `solve`: takes the next child of
      `selected`, the node at position `h`, and offers it to the frontier
      unless its state has been seen. Exactly one move is taken away; the
      child is appended to the frontier and its state added to `seen`
      exactly when that state was unseen, and otherwise both stay as they
      were. */
  method Offer<S(==, !new), M(==, !new)>(
    puzzle: Puzzle<S, M>, ghost init: S, ghost universe: set<S>, ghost start: Node<S, M>, ghost h: nat,
    selected: Node<S, M>, open: seq<Node<S, M>>, seen: set<S>, ghost nodes: seq<Node<S, M>>, ghost where: map<S, nat>)
    returns (child: Node<S, M>, open': seq<Node<S, M>>, seen': set<S>, ghost nodes': seq<Node<S, M>>, ghost where': map<S, nat>)
    requires puzzle.ClosedUnder(universe)
    requires Expanding(puzzle, init, universe, start, h, nodes, where, seen, open, selected.moves)
    requires nodes[h] == selected && selected.Valid() && selected.HasNextChild()
    modifies selected
    ensures fresh(child) && child.parent == Some(selected) && child.move.Some?
    ensures child.move.value in old(selected.moves) && selected.moves == old(selected.moves) - {child.move.value}
    ensures puzzle.IsLegalMove(selected.state, child.move.value)
    ensures child.state == puzzle.MakeMove(selected.state, child.move.value)
    ensures if child.state !in seen then open' == open + [child] && seen' == seen + {child.state}
            else open' == open && seen' == seen
    ensures Expanding(puzzle, init, universe, start, h, nodes', where', seen', open', selected.moves)
    ensures selected.Valid() && |selected.moves| < old(|selected.moves|)
    ensures |nodes| <= |nodes'| && forall k :: 0 <= k < |nodes| ==> nodes'[k] == nodes[k]
    ensures |open| <= |open'| && forall i :: 0 <= i < |open| ==> open'[i] == open[i]
    ensures forall i :: |open| <= i < |open'| ==> fresh(open'[i]) && open'[i].Unexpanded()
  {
    ghost var pending := selected.moves;
    var next := selected.NextChild();
    child := next.value;
    ghost var m := child.move.value;
    assert DescendsAt(puzzle, start, nodes, h);
    if child.state !in seen {
      open', seen', nodes', where' := open + [child], seen + {child.state}, nodes + [child], where[child.state := |nodes|];
      assert forall k :: 0 <= k < |nodes| ==> nodes'[k] == nodes[k];
      assert nodes'[|nodes|] == child;
      KeepChild(puzzle, init, universe, start, h, nodes, where, seen, open, pending, m, child);
    } else {
      open', seen', nodes', where' := open, seen, nodes, where;
      DropChild(puzzle, init, universe, start, h, nodes, where, seen, open, pending, m, child);
    }
  }

  /** The inner loop of `solve`: generates every remaining child of
      `selected`, the node at position `h`, and appends to the frontier those
      whose state has not been seen. Afterwards every legal move of
      `selected` is covered and the arena only grew, by fresh nodes that
      have all their moves. */
  method GenerateChildren<S(==, !new), M(==, !new)>(
    puzzle: Puzzle<S, M>, ghost init: S, ghost universe: set<S>, ghost start: Node<S, M>,
    selected: Node<S, M>, open: seq<Node<S, M>>, seen: set<S>,
    ghost nodes: seq<Node<S, M>>, ghost where: map<S, nat>, ghost h: nat)
    returns (open': seq<Node<S, M>>, seen': set<S>, ghost nodes': seq<Node<S, M>>, ghost where': map<S, nat>)
    requires puzzle.ClosedUnder(universe)
    requires Expanding(puzzle, init, universe, start, h, nodes, where, seen, open, selected.moves)
    requires nodes[h] == selected && selected.Valid()
    modifies selected
    ensures Expanding(puzzle, init, universe, start, h, nodes', where', seen', open', selected.moves)
    ensures selected.moves == {}
    ensures |nodes| <= |nodes'| && forall k :: 0 <= k < |nodes| ==> nodes'[k] == nodes[k]
    ensures |open| <= |open'| && forall i :: 0 <= i < |open| ==> open'[i] == open[i]
    ensures forall i :: |open| <= i < |open'| ==> fresh(open'[i]) && open'[i].Unexpanded()
  {
    open', seen', nodes', where' := open, seen, nodes, where;
    while selected.HasNextChild()
      invariant Expanding(puzzle, init, universe, start, h, nodes', where', seen', open', selected.moves)
      invariant nodes'[h] == selected && selected.Valid()
      invariant |nodes| <= |nodes'| && forall k :: 0 <= k < |nodes| ==> nodes'[k] == nodes[k]
      invariant |open| <= |open'| && forall i :: 0 <= i < |open| ==> open'[i] == open[i]
      invariant forall i :: |open| <= i < |open'| ==> fresh(open'[i]) && open'[i].Unexpanded()
      decreases |selected.moves|
    {
      var child;
      child, open', seen', nodes', where' := Offer(puzzle, init, universe, start, h, selected, open', seen', nodes', where');
    }
  }

  /** The expansion of `selected`, the node at position `h` just taken from
      the front of the frontier: all its children are generated, and the
      search invariants then hold with `h + 1` nodes done. The frontier only
      grew, by fresh nodes, and no node in it has had a child generated. */
  method Expand<S(==, !new), M(==, !new)>(
    puzzle: Puzzle<S, M>, ghost init: S, ghost universe: set<S>, ghost start: Node<S, M>,
    selected: Node<S, M>, open: seq<Node<S, M>>, seen: set<S>,
    ghost nodes: seq<Node<S, M>>, ghost where: map<S, nat>, ghost h: nat)
    returns (open': seq<Node<S, M>>, seen': set<S>, ghost nodes': seq<Node<S, M>>, ghost where': map<S, nat>)
    requires puzzle.ClosedUnder(universe)
    requires Searching(puzzle, init, universe, start, nodes, where, seen, h)
    requires h < |nodes| && nodes[h] == selected && Frontier(open, nodes, h + 1)
    requires nodes[|nodes| - 1].depth <= selected.depth + 1
    requires !puzzle.IsSolved(selected.state)
    requires selected.Unexpanded()
    requires forall i :: 0 <= i < |open| ==> open[i].Unexpanded()
    modifies selected
    ensures Searching(puzzle, init, universe, start, nodes', where', seen', h + 1)
    ensures Frontier(open', nodes', h + 1)
    ensures h + 1 < |nodes'| ==> nodes'[|nodes'| - 1].depth <= nodes'[h + 1].depth + 1
    ensures |nodes| <= |nodes'|
    ensures forall k :: 0 <= k < |nodes| ==> nodes'[k] == nodes[k]
    ensures |open| <= |open'| && forall i :: 0 <= i < |open| ==> open'[i] == open[i]
    ensures forall i :: |open| <= i < |open'| ==> fresh(open'[i])
    ensures forall i :: 0 <= i < |open'| ==> open'[i].Unexpanded()
  {
    StartExpanding(puzzle, init, universe, start, nodes, where, seen, open, h);
    PositionedStatesDistinct(nodes, where);
    assert DescendsAt(puzzle, start, nodes, h);
    open', seen', nodes', where' := GenerateChildren(puzzle, init, universe, start, selected, open, seen, nodes, where, h);
    // only `selected` changed: the other nodes keep their moves
    assert forall i :: 0 <= i < |open| ==> open'[i] == nodes[h + 1 + i] != selected;
    FinishExpanding(puzzle, init, universe, start, h, nodes', where', seen', open');
  }

  /** `solve(state)`: breadth-first search from `init`. The frontier `open` is
      taken from the front and extended at the back; `seen` holds the state of
      every node ever put in the frontier, and a generated child whose state
      it already holds is dropped. Only the finitely many states of the
      puzzle's move graph, and `init`, can ever be seen, so the search ends.

      The result is a solved node, reached from `init` by its recorded moves,
      with no shorter legal sequence of moves reaching a solved state; or
      nothing, and then no legal sequence of moves reaches a solved state.

      That every node enters the frontier once, and no state twice, is a
      loop invariant: the arena is the frontier's history (`Frontier`) and
      indexed by state (`Indexed`). What the contract says of the arena,
      returned as `enqueued` with its index `position`, is this: its nodes
      hold pairwise distinct states, each is reached from `init` by its
      recorded moves, and when nothing is found they hold every reachable
      state, so they are then exactly the reachable states, once each. */
  method Solve<S(==, !new), M(==, !new)>(puzzle: Puzzle<S, M>, init: S)
    returns (result: Option<Node<S, M>>, ghost enqueued: seq<Node<S, M>>, ghost position: map<S, nat>)
    ensures |enqueued| > 0 && enqueued[0].state == init && enqueued[0].parent.None?
    ensures forall k :: 0 <= k < |enqueued| ==> enqueued[k].state in position && position[enqueued[k].state] == k
    ensures forall s :: s in position ==> position[s] < |enqueued| && enqueued[position[s]].state == s
    ensures forall k :: 0 <= k < |enqueued| ==> ReachedAt(puzzle, init, enqueued, k)
    ensures result.Some? ==>
              && result.value in enqueued
              && result.value.Linked()
              && result.value.RootNode() == enqueued[0]
              && puzzle.IsSolved(result.value.state)
              && puzzle.Run(init, result.value.PathTo()) == Some(result.value.state)
    ensures result.Some? ==> forall ms :: puzzle.Solves(init, ms) ==> |result.value.PathTo()| <= |ms|
    ensures result.None? ==> forall ms :: !puzzle.Solves(init, ms)
    ensures result.None? ==> forall ms :: puzzle.Run(init, ms).Some? ==> puzzle.Run(init, ms).value in position
    ensures puzzle.IsSolved(init) ==> result == Some(enqueued[0])
  {
    ghost var universe := puzzle.FiniteSpace(init);
    var start := new Node.Root(puzzle, init);
    var open := [start];
    var seen := {init};
    ghost var nodes := [start];
    ghost var where: map<S, nat> := map[init := 0];
    ghost var head := 0;
    StartSearching(puzzle, init, universe, start);
    while open != []
      invariant Frontier(open, nodes, head)
      invariant Searching(puzzle, init, universe, start, nodes, where, seen, head)
      invariant head < |nodes| ==> nodes[|nodes| - 1].depth <= nodes[head].depth + 1
      invariant forall i :: 0 <= i < |open| ==> fresh(open[i]) && open[i].Unexpanded()
      decreases |universe| - |nodes|, |open|
    {
      var selected := open[0];
      open := open[1..];
      if puzzle.IsSolved(selected.state) {
        FoundIsShortest(puzzle, init, universe, start, nodes, where, seen, head);
        ArenaReplays(puzzle, init, universe, start, nodes, where, seen, head);
        return Some(selected), nodes, where;
      }
      ghost var h := head;
      head := head + 1;
      open, seen, nodes, where := Expand(puzzle, init, universe, start, selected, open, seen, nodes, where, h);
    }
    ExhaustedHasNoSolution(puzzle, init, nodes, where);
    ArenaReplays(puzzle, init, universe, start, nodes, where, seen, head);
    assert !puzzle.Solves(init, []);
    return None, nodes, where;
  }
}
