/**
 * The two search scores of Board.java, as functions of the cells, the
 * dimension and the search depth (searchNodeNum).
 */
module Heuristics {
  import opened Grids

  // ---------------------------------------------------------------------------
  // Board.hamming

  /** How many of the first m cells differ from the goal layout of |g| cells. */
  function MisplacedUpTo(g: seq<int>, m: nat): (r: nat)
    requires m <= |g|
    ensures r <= m
  {
    if m == 0 then 0
    else MisplacedUpTo(g, m - 1) + (if g[m - 1] != GoalCell(|g|, m - 1) then 1 else 0)
  }

  function Misplaced(g: seq<int>): nat {
    MisplacedUpTo(g, |g|)
  }

  /** Board.hamming: the misplaced cells (the blank counts when not last) plus the depth. */
  function HammingScore(g: seq<int>, depth: int): int {
    Misplaced(g) + depth
  }

  lemma {:induction false} MisplacedUpToZero(g: seq<int>, m: nat)
    requires m <= |g|
    ensures MisplacedUpTo(g, m) == 0 <==> forall k :: 0 <= k < m ==> g[k] == GoalCell(|g|, k)
  {
    if m > 0 {
      MisplacedUpToZero(g, m - 1);
    }
  }

  /** No cell is misplaced exactly on the goal layout. */
  lemma MisplacedZeroIffGoal(g: seq<int>, d: nat)
    requires |g| == d * d
    ensures Misplaced(g) == 0 <==> g == Goal(d)
  {
    MisplacedUpToZero(g, |g|);
    if forall k :: 0 <= k < |g| ==> g[k] == GoalCell(|g|, k) {
      assert g == Goal(d);
    }
  }

  // ---------------------------------------------------------------------------
  // Board.manhattan

  function Abs(x: int): nat {
    if x < 0 then -x else x
  }

  /** Java's int `/`: the quotient is truncated toward zero. */
  function JavaDiv(a: int, b: int): (q: int)
    requires b > 0
    ensures Abs(q) == Abs(a) / b
    ensures (a >= 0 ==> q >= 0) && (a <= 0 ==> q <= 0)
  {
    if a >= 0 then a / b
    else
      var m := (-a) / b;
      assert m >= 0;
      -m
  }

  /** Java's int `%`: the remainder has the sign of the dividend. */
  function JavaRem(a: int, b: int): (r: int)
    requires b > 0
    ensures Abs(r) < b
    ensures (a >= 0 ==> r >= 0) && (a <= 0 ==> r <= 0)
  {
    a - b * JavaDiv(a, b)
  }

  /**
   * The distance of the tile v in cell k from the cell its label names:
   * column v % d, row v / d (Java arithmetic); 0 for the blank.
   */
  function TileDistance(v: int, k: int, d: nat): nat
    requires d > 0
  {
    if v == Blank then 0
    else Abs(JavaRem(v, d) - k % d) + Abs(JavaDiv(v, d) - k / d)
  }

  /** A tile is at distance 0 exactly when it sits in the cell its label names. */
  lemma TileDistanceZero(v: int, k: nat, d: nat)
    requires d > 0
    ensures TileDistance(v, k, d) == 0 <==> v == Blank || v == k
  {
    assert k == d * (k / d) + k % d;
    if v == k {
      assert JavaDiv(v, d) == k / d;
    }
  }

  function DistanceUpTo(g: seq<int>, d: nat, m: nat): nat
    requires d > 0 && m <= |g|
  {
    if m == 0 then 0 else DistanceUpTo(g, d, m - 1) + TileDistance(g[m - 1], m - 1, d)
  }

  /** The sum of the tiles' distances (0 for the empty 0 x 0 board). */
  function Distance(g: seq<int>, d: nat): nat {
    if d == 0 then 0 else DistanceUpTo(g, d, |g|)
  }

  /** The multiplier of the distance: 1 below dimension 4, the dimension from 4 on. */
  function Weight(d: nat): nat {
    if d < 4 then 1 else d
  }

  /** Board.manhattan: the weighted distance plus the depth. */
  function ManhattanScore(g: seq<int>, d: nat, depth: int): int {
    Weight(d) * Distance(g, d) + depth
  }

  lemma {:induction false} DistanceUpToZero(g: seq<int>, d: nat, m: nat)
    requires d > 0 && m <= |g|
    ensures DistanceUpTo(g, d, m) == 0 <==> forall k :: 0 <= k < m ==> g[k] == Blank || g[k] == k
  {
    if m > 0 {
      DistanceUpToZero(g, d, m - 1);
      TileDistanceZero(g[m - 1], m - 1, d);
    }
  }

  /** The distance is 0 exactly when every tile sits in the cell its label names. */
  lemma DistanceZeroIffTilesHome(g: seq<int>, d: nat)
    requires |g| == d * d
    ensures Distance(g, d) == 0 <==> forall k :: 0 <= k < |g| ==> g[k] == Blank || g[k] == k
  {
    if d > 0 {
      DistanceUpToZero(g, d, |g|);
    }
  }

  /** On the goal layout both scores reduce to the depth. */
  lemma GoalScores(d: nat, depth: int)
    ensures HammingScore(Goal(d), depth) == depth
    ensures ManhattanScore(Goal(d), d, depth) == depth
  {
    MisplacedZeroIffGoal(Goal(d), d);
    DistanceZeroIffTilesHome(Goal(d), d);
  }
}
