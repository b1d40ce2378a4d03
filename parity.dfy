/**
 * Board.solvable as a function of the cells. On a copy of the board it slides
 * the blank to the bottom-right cell (moves Left, then Up), then runs one
 * selection-sort pass over the cells counting the exchanges it makes; the
 * board is solvable when that count is even and the copy ends up sorted.
 */
module Parity {
  import opened Grids

  /** The first phase: the cells after the blank has been slid to the last cell. */
  function SlideBlankHome(g: seq<int>, d: nat): (h: seq<int>)
    requires |g| == d * d
    ensures |h| == |g|
  {
    var b := IndexOf(g, Blank);
    if b == |g| || b == d * d - 1 then g
    else Repeat(Repeat(g, d, Left, d - 1 - b % d), d, Up, d - 1 - b / d)
  }

  /**
   * The second phase from cell k on, with `swaps` exchanges made so far: when
   * cell k holds neither k nor the blank, the first cell holding k (if any)
   * is exchanged with it.
   */
  function SwapPass(g: seq<int>, k: nat, swaps: nat): (seq<int>, nat)
    decreases |g| - k
  {
    if k >= |g| then (g, swaps)
    else if g[k] != k && g[k] != Blank then
      var p := IndexOf(g, k);
      if p < |g| then SwapPass(g[k := g[p]][p := g[k]], k + 1, swaps + 1)
      else SwapPass(g, k + 1, swaps)
    else SwapPass(g, k + 1, swaps)
  }

  /** Board.solvable. */
  function Solvability(g: seq<int>, d: nat): bool
    requires |g| == d * d
  {
    var (sorted, swaps) := SwapPass(SlideBlankHome(g, d), 0, 0);
    swaps % 2 == 0 && IsGoal(sorted)
  }

  // ---------------------------------------------------------------------------
  // The first phase takes the blank to the bottom-right cell

  /** One successful move takes the only blank to the move's source cell. */
  lemma StepMovesBlank(g: seq<int>, d: nat, dir: Direction, x: int, y: int)
    requires |g| == d * d && SingleBlank(g)
    requires OnGrid(x, y, d) && IndexOf(g, Blank) == y * d + x
    requires OnGrid(SourceOf(x, y, dir).0, SourceOf(x, y, dir).1, d)
    ensures SingleBlank(Step(g, d, dir)) && multiset(Step(g, d, dir)) == multiset(g)
    ensures IndexOf(Step(g, d, dir), Blank) == SourceOf(x, y, dir).1 * d + SourceOf(x, y, dir).0
  {
    FlatIndex(x, y, d);
    assert MoveGrid(g, d, dir).Some?;
    var e, s := MoveSlidesOneTile(g, d, dir);
    MoveUndo(g, d, dir);
    var src := SourceOf(x, y, dir);
    FlatIndex(src.0, src.1, d);
    assert s == src.1 * d + src.0;
  }

  /** A step, successful or not, keeps the only blank single and the cells' multiset. */
  lemma StepKeeps(g: seq<int>, d: nat, dir: Direction)
    requires |g| == d * d && SingleBlank(g)
    ensures SingleBlank(Step(g, d, dir)) && multiset(Step(g, d, dir)) == multiset(g)
  {
    if MoveGrid(g, d, dir).Some? {
      var e, s := MoveSlidesOneTile(g, d, dir);
      MoveUndo(g, d, dir);
    }
  }

  /** So does any number of steps in one direction. */
  lemma {:induction false} RepeatKeeps(g: seq<int>, d: nat, dir: Direction, k: int)
    requires |g| == d * d && SingleBlank(g)
    ensures SingleBlank(Repeat(g, d, dir, k)) && multiset(Repeat(g, d, dir, k)) == multiset(g)
    decreases k
  {
    if k > 0 {
      var r := Repeat(g, d, dir, k - 1);
      RepeatKeeps(g, d, dir, k - 1);
      StepKeeps(r, d, dir);
      assert Repeat(g, d, dir, k) == Step(r, d, dir);
      MultisetChain(Step(r, d, dir), r, g);
    }
  }

  lemma {:induction false} WalkRight(g: seq<int>, d: nat, x: int, y: int, k: nat)
    requires |g| == d * d && SingleBlank(g)
    requires OnGrid(x, y, d) && x + k < d && IndexOf(g, Blank) == y * d + x
    ensures IndexOf(Repeat(g, d, Left, k), Blank) == y * d + x + k
  {
    if k > 0 {
      WalkRight(g, d, x, y, k - 1);
      RepeatKeeps(g, d, Left, k - 1);
      StepMovesBlank(Repeat(g, d, Left, k - 1), d, Left, x + (k - 1), y);
    }
  }

  lemma {:induction false} WalkDown(g: seq<int>, d: nat, x: int, y: int, k: nat, y2: int)
    requires |g| == d * d && SingleBlank(g)
    requires OnGrid(x, y, d) && y2 == y + k && y2 < d && IndexOf(g, Blank) == y * d + x
    ensures IndexOf(Repeat(g, d, Up, k), Blank) == y2 * d + x
  {
    if k > 0 {
      WalkDown(g, d, x, y, k - 1, y2 - 1);
      RepeatKeeps(g, d, Up, k - 1);
      assert SourceOf(x, y2 - 1, Up) == (x, y2);
      StepMovesBlank(Repeat(g, d, Up, k - 1), d, Up, x, y2 - 1);
    }
  }

  /** The first phase is k1 moves Left followed by k2 moves Up, both computed from the blank's cell. */
  lemma SlideBlankHomeUnfold(g: seq<int>, d: nat) returns (k1: int, k2: int)
    requires |g| == d * d
    ensures SlideBlankHome(g, d) == Repeat(Repeat(g, d, Left, k1), d, Up, k2)
    ensures IndexOf(g, Blank) < d * d - 1 ==>
      d > 0 && k1 == d - 1 - IndexOf(g, Blank) % d && k2 == d - 1 - IndexOf(g, Blank) / d
  {
    var b := IndexOf(g, Blank);
    if b == |g| || b == d * d - 1 {
      k1, k2 := 0, 0;
      assert Repeat(g, d, Left, k1) == g;
    } else {
      CellOf(b, d);
      k1, k2 := d - 1 - b % d, d - 1 - b / d;
    }
  }

  lemma LastCellIndex(d: nat)
    ensures (d - 1) * d + (d - 1) == d * d - 1
  {}

  /** Walking the blank from (x, y) right to the last column, then down to the last row. */
  lemma WalkHome(g: seq<int>, d: nat, x: int, y: int)
    requires |g| == d * d && SingleBlank(g)
    requires OnGrid(x, y, d) && IndexOf(g, Blank) == y * d + x
    ensures IndexOf(Repeat(Repeat(g, d, Left, d - 1 - x), d, Up, d - 1 - y), Blank) == d * d - 1
  {
    var g1 := Repeat(g, d, Left, d - 1 - x);
    WalkRight(g, d, x, y, d - 1 - x);
    RepeatKeeps(g, d, Left, d - 1 - x);
    WalkDownHome(g1, d, y);
  }

  /** From the last column of row y, walking the blank down to the last row. */
  lemma WalkDownHome(g: seq<int>, d: nat, y: int)
    requires |g| == d * d && SingleBlank(g)
    requires 0 <= y < d && IndexOf(g, Blank) == y * d + (d - 1)
    ensures IndexOf(Repeat(g, d, Up, d - 1 - y), Blank) == d * d - 1
  {
    WalkDown(g, d, d - 1, y, d - 1 - y, d - 1);
    LastCellIndex(d);
  }

  lemma MultisetChain(a: seq<int>, b: seq<int>, c: seq<int>)
    requires multiset(a) == multiset(b) && multiset(b) == multiset(c)
    ensures multiset(a) == multiset(c)
  {
  }

  /** Moving Left k1 times and then Up k2 times keeps the only blank single and the cells' multiset. */
  lemma RepeatTwiceKeeps(g: seq<int>, d: nat, k1: int, k2: int)
    requires |g| == d * d && SingleBlank(g)
    ensures SingleBlank(Repeat(Repeat(g, d, Left, k1), d, Up, k2))
    ensures multiset(Repeat(Repeat(g, d, Left, k1), d, Up, k2)) == multiset(g)
  {
    var g1 := Repeat(g, d, Left, k1);
    RepeatKeeps(g, d, Left, k1);
    RepeatKeeps(g1, d, Up, k2);
    MultisetChain(Repeat(g1, d, Up, k2), g1, g);
  }

  /** The first phase keeps the only blank single and the cells' multiset. */
  lemma SlideBlankHomeKeeps(g: seq<int>, d: nat)
    requires |g| == d * d && SingleBlank(g)
    ensures SingleBlank(SlideBlankHome(g, d)) && multiset(SlideBlankHome(g, d)) == multiset(g)
  {
    var k1, k2 := SlideBlankHomeUnfold(g, d);
    RepeatTwiceKeeps(g, d, k1, k2);
  }

  /** On a board with one blank, the first phase leaves the blank in the last cell and keeps the tiles. */
  lemma SlideBlankHomeMovesBlank(g: seq<int>, d: nat)
    requires |g| == d * d && SingleBlank(g)
    ensures SingleBlank(SlideBlankHome(g, d))
    ensures IndexOf(SlideBlankHome(g, d), Blank) == |g| - 1
    ensures multiset(SlideBlankHome(g, d)) == multiset(g)
  {
    SlideBlankHomeKeeps(g, d);
    var b := IndexOf(g, Blank);
    var k1, k2 := SlideBlankHomeUnfold(g, d);
    if b != d * d - 1 {
      CellOf(b, d);
      WalkHome(g, d, b % d, b / d);
    }
  }

  // ---------------------------------------------------------------------------
  // The second phase

  /** Cells that already hold their own label (or the blank) cause no exchange. */
  lemma {:induction false} SwapPassSkips(g: seq<int>, k: nat, k': nat, swaps: nat)
    requires k <= k' <= |g|
    requires forall m :: k <= m < k' ==> g[m] == m || g[m] == Blank
    ensures SwapPass(g, k, swaps) == SwapPass(g, k', swaps)
    decreases k' - k
  {
    if k < k' {
      SwapPassSkips(g, k + 1, k', swaps);
    }
  }

  /** The goal layout is solvable. */
  lemma GoalIsSolvable(d: nat)
    ensures Solvability(Goal(d), d)
  {
    var G := Goal(d);
    if d > 0 {
      IndexOfOnly(G, Blank, d * d - 1);
    }
    assert SlideBlankHome(G, d) == G;
    SwapPassSkips(G, 0, |G|, 0);
  }

  /** The goal with two tiles exchanged is unsolvable: the second phase makes exactly one exchange. */
  lemma SwappedGoalIsUnsolvable(d: nat, i: nat, j: nat)
    requires i < j < d * d - 1
    ensures !Solvability(Goal(d)[i := j][j := i], d)
  {
    var G := Goal(d);
    var g := G[i := j][j := i];
    IndexOfOnly(g, Blank, d * d - 1);
    assert SlideBlankHome(g, d) == g;
    SwapPassSkips(g, 0, i, 0);
    IndexOfOnly(g, i, j);
    assert g[i := g[j]][j := g[i]] == G;
    SwapPassSkips(G, i + 1, |G|, 1);
  }
  /**
   * On a board whose only blank is already last and whose cells are those of
   * the goal, the second phase ends on the goal layout.
   */
  lemma {:induction false} SwapPassSorts(g: seq<int>, d: nat, k: nat, swaps: nat)
    requires |g| == d * d && SingleBlank(g) && IndexOf(g, Blank) == |g| - 1
    requires multiset(g) == multiset(Goal(d)) && k <= |g|
    requires forall m :: 0 <= m < k && m < |g| - 1 ==> g[m] == m
    ensures SwapPass(g, k, swaps).0 == Goal(d)
    decreases |g| - k
  {
    if k >= |g| {
      GoalIsUnique(g, d);
    } else if g[k] != k && g[k] != Blank {
      var h := SwapStep(g, d, k);
      assert SwapPass(g, k, swaps) == SwapPass(h, k + 1, swaps + 1);
      SwapPassSorts(h, d, k + 1, swaps + 1);
    } else {
      assert SwapPass(g, k, swaps) == SwapPass(g, k + 1, swaps);
      SwapPassSorts(g, d, k + 1, swaps);
    }
  }

  /** One exchange of the second phase puts label k into cell k and keeps the blank last. */
  lemma SwapStep(g: seq<int>, d: nat, k: nat) returns (h: seq<int>)
    requires |g| == d * d && SingleBlank(g) && IndexOf(g, Blank) == |g| - 1
    requires multiset(g) == multiset(Goal(d)) && k < |g|
    requires forall m :: 0 <= m < k && m < |g| - 1 ==> g[m] == m
    requires g[k] != k && g[k] != Blank
    ensures IndexOf(g, k) < |g| && h == g[k := g[IndexOf(g, k)]][IndexOf(g, k) := g[k]]
    ensures |h| == d * d && SingleBlank(h) && IndexOf(h, Blank) == |h| - 1
    ensures multiset(h) == multiset(Goal(d))
    ensures forall m :: 0 <= m < k + 1 && m < |h| - 1 ==> h[m] == m
  {
    var n := |g|;
    assert Goal(d)[k] == k;
    assert k in multiset(g);
    IndexOfFinds(g, k);
    var p := IndexOf(g, k);
    assert k < p < n - 1;
    h := g[k := g[p]][p := g[k]];
    SwapKeepsMultiset(g, k, p);
    assert forall j :: 0 <= j < n && h[j] == Blank ==> j == n - 1;
    IndexOfOnly(h, Blank, n - 1);
  }

  /** Exchanging two cells keeps the multiset of values. */
  lemma SwapKeepsMultiset(g: seq<int>, i: nat, j: nat)
    requires i < j < |g|
    ensures multiset(g[i := g[j]][j := g[i]]) == multiset(g)
  {
    var h := g[i := g[j]][j := g[i]];
    assert g == g[..i] + [g[i]] + g[i + 1..j] + [g[j]] + g[j + 1..];
    assert h == g[..i] + [g[j]] + g[i + 1..j] + [g[i]] + g[j + 1..];
  }

  /** The blank already in the last cell: the first phase changes nothing. */
  lemma SlideBlankHomeAtHome(g: seq<int>, d: nat)
    requires |g| == d * d && IndexOf(g, Blank) == |g| - 1
    ensures SlideBlankHome(g, d) == g
  {}

  /**
   * For a board holding the goal's tiles and one blank, solvable() is exactly
   * the parity of the number of exchanges in the second phase.
   */
  lemma SolvableIffEvenSwaps(g: seq<int>, d: nat)
    requires |g| == d * d && SingleBlank(g) && multiset(g) == multiset(Goal(d))
    ensures Solvability(g, d) <==> SwapPass(SlideBlankHome(g, d), 0, 0).1 % 2 == 0
  {
    SlideBlankHomeMovesBlank(g, d);
    SwapPassSorts(SlideBlankHome(g, d), d, 0, 0);
    GoalIsGoal(d);
  }
}
