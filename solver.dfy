/**
 * Solver.java: a greedy best-first search whose constructor runs to the end.
 * The boards of the search tree are values here. An arena, a sequence, holds
 * the initial board and every board that was queued, and a board's
 * `previous` link is the arena index of the board it was copied from.
 */
module Solvers {
  import opened Optional
  import opened Grids
  import opened Heuristics
  import opened MinQueues

  /** Solver.DEPTH_CHECK. */
  const DepthCheck: nat := 10

  /**
   * A board of the search tree: its index in the arena, its cells, its depth
   * (searchNodeNum) and the arena index of its previous board (None for null).
   */
  datatype Node = Node(id: nat, grid: seq<int>, depth: int, parent: Option<nat>)

  /** Board.compareTo orders boards by their manhattan score. */
  function Priority(d: nat): Node -> int {
    (b: Node) => ManhattanScore(b.grid, d, b.depth)
  }

  // ---------------------------------------------------------------------------
  // The search tree

  /** Every node sits at its own index, and its previous board sits earlier. */
  ghost predicate Linked(arena: seq<Node>) {
    forall i :: 0 <= i < |arena| ==>
      arena[i].id == i && (arena[i].parent.Some? ==> arena[i].parent.value < i)
  }

  /** c is a copy of p (Board(Board toCopy)) after one successful move. */
  ghost predicate ChildOf(p: Node, c: Node, d: nat) {
    c.parent == Some(p.id) && c.depth == p.depth + 1 && Adjacent(p.grid, c.grid, d)
  }

  /** Node i has a previous board, and is that board's child. */
  ghost predicate HasParent(arena: seq<Node>, i: nat, d: nat)
    requires Linked(arena) && i < |arena|
  {
    arena[i].parent.Some? && ChildOf(arena[arena[i].parent.value], arena[i], d)
  }

  /** The tree grown from initial: the root first, every other node a child of an earlier one. */
  ghost predicate Tree(arena: seq<Node>, d: nat, initial: seq<int>) {
    Linked(arena) && |arena| > 0 && arena[0] == Node(0, initial, 0, None) &&
    (forall i :: 0 <= i < |arena| ==> |arena[i].grid| == d * d) &&
    (forall i :: 0 < i < |arena| ==> HasParent(arena, i, d))
  }

  ghost predicate InArena(arena: seq<Node>, b: Node) {
    b.id < |arena| && arena[b.id] == b
  }

  /** Appending a child of an arena node keeps the tree. */
  lemma GrowTree(arena: seq<Node>, d: nat, initial: seq<int>, cur: Node, dir: Direction, g: seq<int>)
    requires Tree(arena, d, initial) && InArena(arena, cur)
    requires MoveGrid(cur.grid, d, dir) == Some(g)
    ensures Tree(arena + [Node(|arena|, g, cur.depth + 1, Some(cur.id))], d, initial)
  {
    var b := Node(|arena|, g, cur.depth + 1, Some(cur.id));
    var grown := arena + [b];
    assert ChildOf(cur, b, d);
    forall i | 0 < i < |grown|
      ensures HasParent(grown, i, d)
    {
      if i < |arena| {
        assert HasParent(arena, i, d);
        assert grown[i] == arena[i];
        assert grown[arena[i].parent.value] == arena[arena[i].parent.value];
      }
    }
  }

  // ---------------------------------------------------------------------------
  // Pruning: the walk over the current board's ancestors

  /** The board k previous links away from board p (p itself for k = 0). */
  ghost function Ancestor(arena: seq<Node>, p: Option<nat>, k: nat): (a: Option<nat>)
    requires Linked(arena) && (p.Some? ==> p.value < |arena|)
    ensures a.Some? ==> a.value < |arena|
    decreases k
  {
    if k == 0 || p.None? then p else Ancestor(arena, arena[p.value].parent, k - 1)
  }

  /** Whether one of the boards p, p's previous, and so on, at most budget of them, has the cells g. */
  ghost function SeenWithin(arena: seq<Node>, p: Option<nat>, g: seq<int>, budget: nat): bool
    requires Linked(arena) && (p.Some? ==> p.value < |arena|)
    decreases budget
  {
    if budget == 0 || p.None? then false
    else arena[p.value].grid == g || SeenWithin(arena, arena[p.value].parent, g, budget - 1)
  }

  /** Board number k along the chain from p exists and has the cells g. */
  ghost predicate FoundAt(arena: seq<Node>, p: Option<nat>, g: seq<int>, k: nat)
    requires Linked(arena) && (p.Some? ==> p.value < |arena|)
  {
    Ancestor(arena, p, k).Some? && arena[Ancestor(arena, p, k).value].grid == g
  }

  /** The walk finds g exactly when one of the first budget boards along the chain from p has the cells g. */
  lemma {:induction false} SeenWithinFindsAncestor(arena: seq<Node>, p: Option<nat>, g: seq<int>, budget: nat)
    requires Linked(arena) && (p.Some? ==> p.value < |arena|)
    ensures SeenWithin(arena, p, g, budget) <==> exists k :: 0 <= k < budget && FoundAt(arena, p, g, k)
    decreases budget
  {
    if budget > 0 && p.Some? {
      var up := arena[p.value].parent;
      SeenWithinFindsAncestor(arena, up, g, budget - 1);
      assert SeenWithin(arena, p, g, budget) == (arena[p.value].grid == g || SeenWithin(arena, up, g, budget - 1));
      if SeenWithin(arena, p, g, budget) {
        if arena[p.value].grid == g {
          assert FoundAt(arena, p, g, 0);
        } else {
          var k :| 0 <= k < budget - 1 && FoundAt(arena, up, g, k);
          assert Ancestor(arena, p, k + 1) == Ancestor(arena, up, k);
          assert FoundAt(arena, p, g, k + 1);
        }
      } else {
        forall k | 0 <= k < budget
          ensures !FoundAt(arena, p, g, k)
        {
          if k > 0 {
            assert Ancestor(arena, p, k) == Ancestor(arena, up, k - 1);
            assert !FoundAt(arena, up, g, k - 1);
          }
        }
      }
    }
  }

  /** Nodes appended to the arena do not change the walk from an old node. */
  lemma {:induction false} SeenWithinPrefix(arena: seq<Node>, grown: seq<Node>, p: Option<nat>, g: seq<int>, budget: nat)
    requires Linked(arena) && Linked(grown) && |arena| <= |grown| && grown[..|arena|] == arena
    requires p.Some? ==> p.value < |arena|
    ensures SeenWithin(grown, p, g, budget) == SeenWithin(arena, p, g, budget)
    decreases budget
  {
    if budget > 0 && p.Some? {
      assert grown[p.value] == arena[p.value];
      SeenWithinPrefix(arena, grown, arena[p.value].parent, g, budget - 1);
    }
  }

  /**
   * The ancestor walk of the constructor: starting at b.previous.previous,
   * which is cur's previous board, compare at most DEPTH_CHECK - 1 boards
   * with cur.
   */
  method RepeatsAncestor(arena: seq<Node>, cur: Node) returns (toContinue: bool)
    requires Linked(arena) && InArena(arena, cur)
    ensures toContinue == SeenWithin(arena, cur.parent, cur.grid, DepthCheck - 1)
  {
    var depthBoard: Option<nat> := cur.parent;
    var checked := 1;
    toContinue := false;
    while checked < DepthCheck && depthBoard.Some?
      invariant 1 <= checked <= DepthCheck
      invariant depthBoard.Some? ==> depthBoard.value < |arena|
      invariant SeenWithin(arena, cur.parent, cur.grid, DepthCheck - 1) ==
                SeenWithin(arena, depthBoard, cur.grid, DepthCheck - checked)
      decreases DepthCheck - checked
    {
      checked := checked + 1;
      if arena[depthBoard.value].grid == cur.grid {
        toContinue := true;
        break;
      }
      depthBoard := arena[depthBoard.value].parent;
    }
  }

  // ---------------------------------------------------------------------------
  // Expanding the current board

  /** The valid neighbours of cur from direction Directions[i] on, numbered from next. */
  ghost function Children(cur: Node, next: nat, d: nat, i: nat): seq<Node>
    requires |cur.grid| == d * d && i <= 4
    decreases 4 - i
  {
    if i == 4 then []
    else match MoveGrid(cur.grid, d, Directions[i])
      case None => Children(cur, next, d, i + 1)
      case Some(g) => [Node(next, g, cur.depth + 1, Some(cur.id))] + Children(cur, next + 1, d, i + 1)
  }

  /** One step of Children where the move in direction Directions[i] succeeds. */
  lemma ChildrenStep(cur: Node, next: nat, d: nat, i: nat, g: seq<int>)
    requires |cur.grid| == d * d && i < 4 && MoveGrid(cur.grid, d, Directions[i]) == Some(g)
    ensures Children(cur, next, d, i) == [Node(next, g, cur.depth + 1, Some(cur.id))] + Children(cur, next + 1, d, i + 1)
  {
  }

  /** Queueing the child of cur in direction Directions[i] consumes the head of the children still due. */
  lemma ChildrenAdvance(grown: seq<Node>, cur: Node, d: nat, i: nat, g: seq<int>, target: seq<Node>)
    requires |cur.grid| == d * d && i < 4 && MoveGrid(cur.grid, d, Directions[i]) == Some(g)
    requires grown + Children(cur, |grown|, d, i) == target
    ensures (grown + [Node(|grown|, g, cur.depth + 1, Some(cur.id))]) + Children(cur, |grown| + 1, d, i + 1) == target
  {
    var b := Node(|grown|, g, cur.depth + 1, Some(cur.id));
    var rest := Children(cur, |grown| + 1, d, i + 1);
    ChildrenStep(cur, |grown|, d, i, g);
    Associative(grown, [b], rest);
  }

  lemma Associative<T>(a: seq<T>, b: seq<T>, c: seq<T>)
    ensures a + (b + c) == (a + b) + c
  {
  }

  /** Once the four directions are done, nothing is due any more. */
  lemma ChildrenNoneLeft(grown: seq<Node>, cur: Node, d: nat, target: seq<Node>)
    requires |cur.grid| == d * d && grown + Children(cur, |grown|, d, 4) == target
    ensures grown == target
  {
    assert grown + Children(cur, |grown|, d, 4) == grown + [];
  }

  /** Growing an arena twice keeps its prefix, and the new parts line up. */
  lemma Extends(arena: seq<Node>, mid: seq<Node>, grown: seq<Node>)
    requires |arena| <= |mid| <= |grown| && mid[..|arena|] == arena && grown[..|mid|] == mid
    ensures grown[..|arena|] == arena && grown[|arena|..] == mid[|arena|..] + grown[|mid|..]
  {
    assert grown[..|arena|] == mid[..|arena|];
  }

  /** What the constructor queues for cur: nothing when pruning fires, else every valid neighbour. */
  ghost function Expansion(arena: seq<Node>, cur: Node, d: nat): seq<Node>
    requires Linked(arena) && InArena(arena, cur) && |cur.grid| == d * d
  {
    if SeenWithin(arena, cur.parent, cur.grid, DepthCheck - 1) then []
    else Children(cur, |arena|, d, 0)
  }

  /** Appending all children of an arena node from direction Directions[i] on keeps the tree. */
  lemma {:induction false} ChildrenKeepTree(arena: seq<Node>, cur: Node, d: nat, initial: seq<int>, i: nat)
    requires Tree(arena, d, initial) && InArena(arena, cur) && i <= 4
    ensures Tree(arena + Children(cur, |arena|, d, i), d, initial)
    decreases 4 - i
  {
    if i < 4 {
      match MoveGrid(cur.grid, d, Directions[i])
      case None =>
        ChildrenKeepTree(arena, cur, d, initial, i + 1);
      case Some(g) =>
        var b := Node(|arena|, g, cur.depth + 1, Some(cur.id));
        GrowTree(arena, d, initial, cur, Directions[i], g);
        assert (arena + [b])[cur.id] == cur;
        ChildrenKeepTree(arena + [b], cur, d, initial, i + 1);
        ChildrenStep(cur, |arena|, d, i, g);
        Associative(arena, [b], Children(cur, |arena| + 1, d, i + 1));
    } else {
      assert arena + Children(cur, |arena|, d, i) == arena;
    }
  }

  /**
   * One round of the loop over curBoard.neighbors(): the neighbour in
   * direction Directions[i], when that move is valid and the ancestor walk
   * does not find cur, is queued and joins the arena.
   */
  method Offer(q: MinQueue<Node>, arena: seq<Node>, grown: seq<Node>, cur: Node, d: nat, i: nat)
    returns (more: seq<Node>)
    requires Linked(arena) && InArena(arena, cur) && |cur.grid| == d * d && i < 4 && q.Valid()
    modifies q, q.arr
    ensures q.Valid() && (q.arr == old(q.arr) || fresh(q.arr))
    ensures |grown| <= |more| && more[..|grown|] == grown
    ensures SeenWithin(arena, cur.parent, cur.grid, DepthCheck - 1) ==> more == grown
    ensures !SeenWithin(arena, cur.parent, cur.grid, DepthCheck - 1) ==>
      more + Children(cur, |more|, d, i + 1) == grown + Children(cur, |grown|, d, i)
    ensures multiset(q.Elements()) == multiset(old(q.Elements())) + multiset(more[|grown|..])
  {
    more := grown;
    var next := MoveGrid(cur.grid, d, Directions[i]);
    if next.Some? {
      var toContinue := RepeatsAncestor(arena, cur);
      if !toContinue {
        var b := Node(|grown|, next.value, cur.depth + 1, Some(cur.id));
        ChildrenAdvance(grown, cur, d, i, next.value, grown + Children(cur, |grown|, d, i));
        more := grown + [b];
        assert more[|grown|..] == [b];
        q.Add(Some(b));
      }
    }
  }

  /**
   * The `for (Board b : curBoard.neighbors())` loop: each valid neighbour,
   * unless the ancestor walk finds cur, is queued and joins the arena.
   */
  method Expand(q: MinQueue<Node>, arena: seq<Node>, cur: Node, d: nat, ghost initial: seq<int>)
    returns (grown: seq<Node>)
    requires Tree(arena, d, initial) && InArena(arena, cur) && q.Valid()
    modifies q, q.arr
    ensures q.Valid() && (q.arr == old(q.arr) || fresh(q.arr))
    ensures Tree(grown, d, initial)
    ensures grown == arena + Expansion(arena, cur, d)
    ensures multiset(q.Elements()) == multiset(old(q.Elements())) + multiset(Expansion(arena, cur, d))
  {
    ghost var seen := SeenWithin(arena, cur.parent, cur.grid, DepthCheck - 1);
    ghost var start := q.Elements();
    ghost var target := arena + Children(cur, |arena|, d, 0);
    ChildrenKeepTree(arena, cur, d, initial, 0);
    grown := arena;
    var i := 0;
    while i < 4
      invariant 0 <= i <= 4 && q.Valid() && (q.arr == old(q.arr) || fresh(q.arr))
      invariant |arena| <= |grown| && grown[..|arena|] == arena
      invariant seen ==> grown == arena
      invariant !seen ==> grown + Children(cur, |grown|, d, i) == target
      invariant multiset(q.Elements()) == multiset(start) + multiset(grown[|arena|..])
    {
      ghost var mid := grown;
      grown := Offer(q, arena, grown, cur, d, i);
      Extends(arena, mid, grown);
      i := i + 1;
    }
    ghost var e := Expansion(arena, cur, d);
    if !seen {
      ChildrenNoneLeft(grown, cur, d, target);
      assert e == Children(cur, |arena|, d, 0);
    }
    assert grown == arena + e;
    assert grown[|arena|..] == e;
  }

  // ---------------------------------------------------------------------------
  // Taking the next board

  /**
   * The inner `while (true)` of the constructor: removes minima until one has
   * cells other than cur's. None stands for the NoSuchElementException that
   * removeMin throws once the queue is empty; skipped lists the boards
   * discarded for equalling cur.
   */
  method PopDistinct(q: MinQueue<Node>, cur: Node) returns (r: Option<Node>, ghost skipped: seq<Node>)
    requires q.Valid()
    modifies q, q.arr
    ensures q.Valid() && (q.arr == old(q.arr) || fresh(q.arr))
    ensures forall x :: x in skipped ==> x.grid == cur.grid
    ensures r.None? ==> q.Elements() == [] && multiset(skipped) == multiset(old(q.Elements()))
    ensures r.Some? ==>
      r.value.grid != cur.grid && KeysAtLeast(q.Elements(), q.key, q.key(r.value)) &&
      multiset(q.Elements()) + multiset(skipped) + multiset{r.value} == multiset(old(q.Elements()))
  {
    skipped := [];
    ghost var all := multiset(q.Elements());
    while true
      invariant q.Valid() && (q.arr == old(q.arr) || fresh(q.arr))
      invariant forall x :: x in skipped ==> x.grid == cur.grid
      invariant multiset(q.Elements()) + multiset(skipped) == all
      decreases q.n
    {
      var toMoveTo := q.RemoveMin();
      if toMoveTo.None? {
        return None, skipped;
      }
      if toMoveTo.value.grid == cur.grid {
        skipped := skipped + [toMoveTo.value];
        continue;
      }
      return toMoveTo, skipped;
    }
  }

  // ---------------------------------------------------------------------------
  // The solution

  /** The walk back from node i along previous links, stopping at the first board with the initial cells. */
  ghost function Trail(arena: seq<Node>, i: nat, initial: seq<int>): seq<Node>
    requires Linked(arena) && i < |arena|
    decreases i
  {
    if arena[i].grid == initial then []
    else match arena[i].parent
      case None => [arena[i]]
      case Some(p) => [arena[i]] + Trail(arena, p, initial)
  }

  /** The `while (curBoard != null && !curBoard.equals(initial))` loop that collects the solution. */
  method TraceBack(arena: seq<Node>, cur: Node, initial: seq<int>) returns (list: seq<Node>)
    requires Linked(arena) && InArena(arena, cur)
    ensures list == Trail(arena, cur.id, initial)
  {
    list := [];
    var c: Option<Node> := Some(cur);
    while c.Some? && c.value.grid != initial
      invariant c.Some? ==> InArena(arena, c.value)
      invariant list + (if c.Some? then Trail(arena, c.value.id, initial) else []) == Trail(arena, cur.id, initial)
      decreases if c.Some? then c.value.id + 1 else 0
    {
      var n := c.value;
      ghost var rest := TrailStep(arena, n, initial);
      Associative(list, [n], rest);
      list := list + [n];
      c := if n.parent.None? then None else Some(arena[n.parent.value]);
    }
  }

  /** One step of the walk back: a node without the initial cells, then the walk from its parent. */
  lemma TrailStep(arena: seq<Node>, n: Node, initial: seq<int>) returns (rest: seq<Node>)
    requires Linked(arena) && InArena(arena, n) && n.grid != initial
    ensures n.parent.Some? ==> InArena(arena, arena[n.parent.value]) && rest == Trail(arena, n.parent.value, initial)
    ensures n.parent.None? ==> rest == []
    ensures Trail(arena, n.id, initial) == [n] + rest
  {
    rest := if n.parent.None? then [] else Trail(arena, n.parent.value, initial);
  }

  /**
   * In the tree, the walk back from node i lists boards none of which has
   * the initial cells, each the child of the next, ending one move away from
   * the initial cells; it is empty exactly when node i has them.
   */
  lemma {:induction false} TrailIsPath(arena: seq<Node>, d: nat, initial: seq<int>, i: nat)
    requires Tree(arena, d, initial) && i < |arena|
    ensures var t := Trail(arena, i, initial);
      (t == [] <==> arena[i].grid == initial) &&
      (t != [] ==> t[0] == arena[i] && Adjacent(initial, t[|t| - 1].grid, d)) &&
      (forall k :: 0 <= k < |t| ==> t[k].grid != initial) &&
      (forall k :: 0 <= k < |t| - 1 ==> ChildOf(t[k + 1], t[k], d))
    decreases i
  {
    if arena[i].grid != initial {
      assert i != 0 && HasParent(arena, i, d);
      var p := arena[i].parent.value;
      var rest := Trail(arena, p, initial);
      TrailIsPath(arena, d, initial, p);
      assert Trail(arena, i, initial) == [arena[i]] + rest;
    }
  }

  /** Collections.reverse. */
  function Reverse<T>(s: seq<T>): (r: seq<T>)
    ensures |r| == |s| && forall k :: 0 <= k < |s| ==> r[k] == s[|s| - 1 - k]
  {
    if s == [] then [] else Reverse(s[1..]) + [s[0]]
  }

  // ---------------------------------------------------------------------------
  // The Solver object

  /** A finished Solver: the solution array (null when unsolvable) and the solvable flag. */
  datatype Solver = Solver(solution: Option<seq<Node>>, solvable: bool)

  /** The outcome of `new Solver(initial)`: it returns, it throws from removeMin, or it runs out of fuel. */
  datatype Outcome = Solved(solver: Solver) | QueueEmpty | OutOfFuel

  /** Solver.isSolvable. */
  function IsSolvable(s: Solver): bool {
    s.solvable
  }

  /** Solver.moves: the solution's length, -1 when there is no solution. */
  function Moves(s: Solver): (r: int)
    requires s.solvable ==> s.solution.Some?
    ensures r == -1 <==> !s.solvable
  {
    if s.solvable then |s.solution.value| else -1
  }

  /** Solver.solution. */
  function Solution(s: Solver): Option<seq<Node>> {
    s.solution
  }

  /**
   * The end of the Solver constructor: walk back from cur along the previous
   * links to the first board with the initial cells, then Collections.reverse. The result runs from one move away
   * from the initial cells to cur, each board the child of the one before,
   * and never holds the initial cells; it is empty exactly when cur has them.
   */
  method BuildSolution(arena: seq<Node>, cur: Node, d: nat, initial: seq<int>) returns (solution: seq<Node>)
    requires Tree(arena, d, initial) && InArena(arena, cur)
    ensures solution == [] <==> cur.grid == initial
    ensures solution != [] ==> solution[|solution| - 1] == cur && Adjacent(initial, solution[0].grid, d)
    ensures forall k :: 0 <= k < |solution| ==> solution[k].grid != initial
    ensures forall k :: 0 <= k < |solution| - 1 ==> ChildOf(solution[k], solution[k + 1], d)
  {
    var list := TraceBack(arena, cur, initial);
    TrailIsPath(arena, d, initial, cur.id);
    solution := Reverse(list);
    ReversedPath(list, solution, d, initial);
  }

  /** Reversing a walk back gives the path forward: each board is the parent of the next. */
  lemma ReversedPath(list: seq<Node>, solution: seq<Node>, d: nat, initial: seq<int>)
    requires |solution| == |list| && forall k :: 0 <= k < |list| ==> solution[k] == list[|list| - 1 - k]
    requires list != [] ==> Adjacent(initial, list[|list| - 1].grid, d)
    requires forall k :: 0 <= k < |list| ==> list[k].grid != initial
    requires forall k :: 0 <= k < |list| - 1 ==> ChildOf(list[k + 1], list[k], d)
    ensures solution != [] ==> solution[|solution| - 1] == list[0] && Adjacent(initial, solution[0].grid, d)
    ensures forall k :: 0 <= k < |solution| ==> solution[k].grid != initial
    ensures forall k :: 0 <= k < |solution| - 1 ==> ChildOf(solution[k], solution[k + 1], d)
  {
    forall k | 0 <= k < |solution| - 1
      ensures ChildOf(solution[k], solution[k + 1], d)
    {
      assert solution[k] == list[|list| - 1 - k];
      assert solution[k + 1] == list[|list| - 1 - k - 1];
    }
  }

  /**
   * The Solver constructor, with at most fuel expansions. When it returns,
   * the solution ends at a goal board, starts one move away from the initial
   * board, links each board to the one before, never holds the initial
   * cells, and is empty exactly when the initial board is the goal.
   */
  method Solve(initial: seq<int>, d: nat, fuel: nat) returns (r: Outcome)
    requires |initial| == d * d
    ensures IsGoal(initial) ==> r.Solved?
    ensures r.Solved? ==>
      IsSolvable(r.solver) && Solution(r.solver).Some? && Moves(r.solver) == |r.solver.solution.value|
    ensures r.Solved? ==>
      var sol := r.solver.solution.value;
      (sol == [] <==> IsGoal(initial)) &&
      (sol != [] ==> IsGoal(sol[|sol| - 1].grid) && Adjacent(initial, sol[0].grid, d)) &&
      (forall k :: 0 <= k < |sol| ==> sol[k].grid != initial) &&
      (forall k :: 0 <= k < |sol| - 1 ==> ChildOf(sol[k], sol[k + 1], d))
  {
    var solvable := true;
    var arena := [Node(0, initial, 0, None)];
    var queue := new MinQueue<Node>(0, Priority(d));
    var cur := arena[0];
    var steps := 0;
    while !IsGoal(cur.grid)
      invariant Tree(arena, d, initial) && InArena(arena, cur)
      invariant queue.Valid() && fresh(queue.arr)
      invariant forall x :: x in queue.Elements() ==> InArena(arena, x)
      invariant steps <= fuel && (steps == 0 ==> cur.grid == initial) && (steps > 0 ==> !IsGoal(initial))
      decreases fuel - steps
    {
      if steps == fuel {
        return OutOfFuel;
      }
      ghost var before := queue.Elements();
      ghost var oldArena := arena;
      arena := Expand(queue, arena, cur, d, initial);
      ghost var expanded := queue.Elements();
      QueuedInArena(oldArena, arena, before, expanded, Expansion(oldArena, cur, d));
      var next, skipped := PopDistinct(queue, cur);
      if next.None? {
        return QueueEmpty;
      }
      PoppedInArena(arena, expanded, queue.Elements(), skipped, next.value);
      cur := next.value;
      steps := steps + 1;
    }
    var solution := BuildSolution(arena, cur, d, initial);
    r := Solved(Solver(Some(solution), solvable));
  }

  /** What PopDistinct leaves and returns came from the queue, so it is in the arena. */
  lemma PoppedInArena(arena: seq<Node>, before: seq<Node>, after: seq<Node>, skipped: seq<Node>, popped: Node)
    requires forall x :: x in before ==> InArena(arena, x)
    requires multiset(after) + multiset(skipped) + multiset{popped} == multiset(before)
    ensures InArena(arena, popped) && forall x :: x in after ==> InArena(arena, x)
  {
    assert popped in multiset(before);
    forall x | x in after
      ensures InArena(arena, x)
    {
      assert x in multiset(before);
    }
  }

  /** After an expansion, every queued board is in the grown arena. */
  lemma QueuedInArena(arena: seq<Node>, grown: seq<Node>, before: seq<Node>, after: seq<Node>, added: seq<Node>)
    requires Linked(grown) && |arena| <= |grown| && grown == arena + added
    requires forall x :: x in before ==> InArena(arena, x)
    requires multiset(after) == multiset(before) + multiset(added)
    ensures forall x :: x in after ==> InArena(grown, x)
  {
    forall x | x in after
      ensures InArena(grown, x)
    {
      assert x in multiset(after);
      if x in multiset(before) {
        assert x in before;
        assert grown[x.id] == arena[x.id];
      } else {
        assert x in added;
        var k :| 0 <= k < |added| && added[k] == x;
        assert grown[|arena| + k] == x;
      }
    }
  }
}
