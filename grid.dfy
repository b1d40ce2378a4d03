/**
 * The cells of a Board as a value. An N x N board is the sequence of its
 * N*N cells in row-major order, the order in which Board.cellIterator reads
 * them: the cell in column x and row y sits at index y * N + x. Tiles are
 * 0 .. N*N-2 and the blank is -1.
 *
 * These functions specify what the in-place methods of class Boards.Board
 * compute, and the lemmas state what Board.java promises about them.
 */
module Grids {
  import opened Optional

  /** The value of the empty cell. */
  const Blank: int := -1

  /**
   * Board.Direction. A direction names the way the sliding TILE travels:
   * Up takes the tile below the blank, so the blank itself moves down.
   */
  datatype Direction = Up | Down | Left | Right

  /** Direction.opposite. */
  function Opposite(dir: Direction): (r: Direction)
    ensures r != dir
  {
    match dir
    case Up => Down
    case Down => Up
    case Left => Right
    case Right => Left
  }

  lemma OppositeIsInvolution(dir: Direction)
    ensures Opposite(Opposite(dir)) == dir
    ensures Opposite(Up) == Down && Opposite(Left) == Right
  {}

  /** Direction.values(): the order in which neighbors and moveTo try the directions. */
  const Directions: seq<Direction> := [Up, Down, Left, Right]

  // ---------------------------------------------------------------------------
  // Row-major layout arithmetic

  predicate OnGrid(x: int, y: int, d: nat) {
    0 <= x < d && 0 <= y < d
  }

  lemma MulMono(a: int, b: int, c: nat)
    requires a <= b
    ensures a * c <= b * c
  {
    assert b * c - a * c == (b - a) * c;
  }

  lemma DivUnique(k: int, d: nat, q: int, r: int)
    requires d > 0 && 0 <= r < d && k == q * d + r
    ensures k / d == q && k % d == r
  {
    var q', r' := k / d, k % d;
    assert k == q' * d + r';
    if q' > q {
      MulMono(q + 1, q', d);
    } else if q' < q {
      MulMono(q' + 1, q, d);
    }
  }

  /** The cell (x, y) has index y * d + x, and that index gives back x and y. */
  lemma FlatIndex(x: int, y: int, d: nat)
    requires OnGrid(x, y, d)
    ensures 0 <= y * d + x < d * d
    ensures (y * d + x) / d == y && (y * d + x) % d == x
  {
    MulMono(y + 1, d, d);
    MulMono(0, y, d);
    DivUnique(y * d + x, d, y, x);
  }

  /** Row y, column x of a d-wide grid lies inside the d * d cells. */
  lemma RowMajorBound(x: int, y: int, d: nat)
    requires OnGrid(x, y, d)
    ensures 0 <= y * d + x < d * d
  {
    MulMono(y + 1, d, d);
    MulMono(0, y, d);
  }

  /** The index of the cell in column x and row y. */
  function CellIndex(x: int, y: int, d: nat): (k: nat)
    requires OnGrid(x, y, d)
    ensures k < d * d && k / d == y && k % d == x
  {
    FlatIndex(x, y, d);
    y * d + x
  }

  /** The row after row y starts d cells later. */
  lemma NextRow(y: int, d: nat)
    ensures (y + 1) * d == y * d + d
  {}

  /** Every index of a d x d grid is the cell (k % d, k / d). */
  lemma CellOf(k: int, d: nat)
    requires 0 <= k < d * d
    ensures d > 0 && OnGrid(k % d, k / d, d) && (k / d) * d + k % d == k
  {
    assert d != 0;
    var q := k / d;
    assert q * d + k % d == k;
    if q >= d {
      MulMono(d, q, d);
    }
    if q < 0 {
      MulMono(q, -1, d);
    }
  }

  /** Two indices name horizontally or vertically adjacent cells. */
  predicate Neighbouring(i: int, j: int, d: nat)
    requires d > 0
  {
    (i / d == j / d && (i % d == j % d + 1 || j % d == i % d + 1)) ||
    (i % d == j % d && (i / d == j / d + 1 || j / d == i / d + 1))
  }

  // ---------------------------------------------------------------------------
  // The goal layout, Board(int dimension)

  /** What the goal layout of n cells holds at index k: k, except -1 in the last cell. */
  function GoalCell(n: nat, k: int): int {
    if k < n - 1 then k else Blank
  }

  /** The board built by `new Board(d)`. */
  function Goal(d: nat): (g: seq<int>)
    ensures |g| == d * d
  {
    seq(d * d, k => GoalCell(d * d, k))
  }

  /** Board.isGoal: the first N*N-1 cells read 0, 1, ..., N*N-2; the last cell is not examined. */
  predicate IsGoal(g: seq<int>) {
    forall k :: 0 <= k < |g| - 1 ==> g[k] == k
  }

  lemma GoalIsGoal(d: nat)
    ensures IsGoal(Goal(d))
  {}

  /**
   * isGoal does not look at the last cell, but a board that holds the goal's
   * values and passes isGoal is the goal.
   */
  lemma {:induction false} GoalIsUnique(g: seq<int>, d: nat)
    requires |g| == d * d && IsGoal(g) && multiset(g) == multiset(Goal(d))
    ensures g == Goal(d)
  {
    if d > 0 {
      var n := d * d;
      var G := Goal(d);
      assert g[..n - 1] == G[..n - 1];
      assert g == g[..n - 1] + [g[n - 1]];
      assert G == G[..n - 1] + [G[n - 1]];
      assert multiset(g) == multiset(g[..n - 1]) + multiset{g[n - 1]};
      assert multiset(G) == multiset(G[..n - 1]) + multiset{G[n - 1]};
      var M := multiset(g[..n - 1]);
      assert (M + multiset{g[n - 1]})[g[n - 1]] == (M + multiset{G[n - 1]})[g[n - 1]];
    }
  }

  // ---------------------------------------------------------------------------
  // The checksum, Board.isValid

  function Sum(g: seq<int>): int {
    if g == [] then 0 else Sum(g[..|g| - 1]) + g[|g| - 1]
  }

  /** 0 + 1 + ... + (N*N-2), plus the blank's -1. */
  function Checksum(d: nat): int {
    (d * d - 2) * (d * d - 1) / 2 - 1
  }

  /** Board.isValid: the cells add up to the checksum. */
  predicate IsValid(g: seq<int>, d: nat) {
    Sum(g) == Checksum(d)
  }

  lemma {:induction false} GoalPrefixSum(d: nat, m: nat)
    requires m <= d * d - 1
    ensures 2 * Sum(Goal(d)[..m]) == m * (m - 1)
  {
    if m > 0 {
      var G := Goal(d);
      assert G[..m][..m - 1] == G[..m - 1];
      GoalPrefixSum(d, m - 1);
      assert Sum(G[..m]) == Sum(G[..m - 1]) + (m - 1);
      assert (m - 1) * (m - 2) + 2 * (m - 1) == m * (m - 1);
    }
  }

  /** The goal layout of every dimension passes the checksum test. */
  lemma GoalIsValid(d: nat)
    ensures IsValid(Goal(d), d)
  {
    var n := d * d;
    var G := Goal(d);
    if d == 0 {
      assert G == [];
    } else {
      assert n >= 1;
      GoalPrefixSum(d, n - 1);
      assert G[..n] == G;
      assert Sum(G) == Sum(G[..n - 1]) + G[n - 1];
      assert 2 * Sum(G[..n - 1]) == (n - 2) * (n - 1);
    }
  }

  lemma {:induction false} SumUpdate(g: seq<int>, i: nat, v: int)
    requires i < |g|
    ensures Sum(g[i := v]) == Sum(g) - g[i] + v
  {
    var m := |g| - 1;
    if i < m {
      assert g[i := v][..m] == g[..m][i := v];
      SumUpdate(g[..m], i, v);
    } else {
      assert g[i := v][..m] == g[..m];
    }
  }

  // ---------------------------------------------------------------------------
  // Finding a value in row-major order

  /** The first index holding v, or |g| when v is absent (the scans of move, getCell and solvable). */
  function IndexOf(g: seq<int>, v: int): (k: nat)
    ensures k <= |g|
    ensures k < |g| ==> g[k] == v
  {
    IndexFrom(g, v, 0)
  }

  /** The first index from i on holding v, or |g| when there is none. */
  function IndexFrom(g: seq<int>, v: int, i: nat): (k: nat)
    requires i <= |g|
    ensures i <= k <= |g|
    ensures k < |g| ==> g[k] == v
    decreases |g| - i
  {
    if i == |g| then |g|
    else if g[i] == v then i
    else IndexFrom(g, v, i + 1)
  }

  /** No cell from i up to the found index holds v. */
  lemma {:induction false} IndexFromIsFirst(g: seq<int>, v: int, i: nat, j: int)
    requires i <= |g| && i <= j < IndexFrom(g, v, i)
    ensures g[j] != v
    decreases |g| - i
  {
    if j > i {
      IndexFromIsFirst(g, v, i + 1, j);
    }
  }

  /** No cell before IndexOf(g, v) holds v. */
  lemma IndexOfIsFirst(g: seq<int>, v: int, j: int)
    requires 0 <= j < IndexOf(g, v)
    ensures g[j] != v
  {
    IndexFromIsFirst(g, v, 0, j);
  }

  /** A hit with no earlier hit is the index IndexOf finds. */
  lemma IndexOfFirstHit(g: seq<int>, v: int, k: nat)
    requires k < |g| && g[k] == v
    requires forall m :: 0 <= m < k ==> g[m] != v
    ensures IndexOf(g, v) == k
  {
    if k < IndexOf(g, v) {
      IndexOfIsFirst(g, v, k);
    }
  }

  /** IndexOf finds every value the grid holds. */
  lemma IndexOfFinds(g: seq<int>, v: int)
    requires v in multiset(g)
    ensures IndexOf(g, v) < |g|
  {
    var m :| 0 <= m < |g| && g[m] == v;
    if IndexOf(g, v) == |g| {
      IndexOfIsFirst(g, v, m);
    }
  }

  /** Exactly one cell holds the blank. */
  predicate SingleBlank(g: seq<int>) {
    IndexOf(g, Blank) < |g| &&
    forall k :: 0 <= k < |g| && g[k] == Blank ==> k == IndexOf(g, Blank)
  }

  lemma IndexOfOnly(g: seq<int>, v: int, k: nat)
    requires k < |g| && g[k] == v
    requires forall j :: 0 <= j < |g| && g[j] == v ==> j == k
    ensures IndexOf(g, v) == k
  {
    if k < IndexOf(g, v) {
      IndexOfIsFirst(g, v, k);
    }
  }

  // ---------------------------------------------------------------------------
  // Sliding a tile, Board.move

  /** The cell whose tile slides into the blank at (x, y) when moving in dir. */
  function SourceOf(x: int, y: int, dir: Direction): (int, int) {
    match dir
    case Up => (x, y + 1)
    case Down => (x, y - 1)
    case Left => (x + 1, y)
    case Right => (x - 1, y)
  }

  /**
   * Board.move(dir) on the cells: find the first blank in row-major order, and
   * slide the tile on the side opposite dir into it. None stands for `false`:
   * there is no blank, or the source cell is off the grid.
   */
  function MoveGrid(g: seq<int>, d: nat, dir: Direction): (r: Option<seq<int>>)
    requires |g| == d * d
    ensures r.Some? ==> |r.value| == |g|
  {
    var e := IndexOf(g, Blank);
    if e == |g| then None
    else
      CellOf(e, d);
      var src := SourceOf(e % d, e / d, dir);
      if !OnGrid(src.0, src.1, d) then None
      else
        FlatIndex(src.0, src.1, d);
        var s := src.1 * d + src.0;
        Some(g[e := g[s]][s := Blank])
  }

  /**
   * A successful move exchanges the first blank (index e) with the tile of a
   * neighbouring cell (index s); nothing else changes, so the cells keep their
   * multiset and their checksum.
   */
  lemma MoveSlidesOneTile(g: seq<int>, d: nat, dir: Direction) returns (e: nat, s: nat)
    requires |g| == d * d && MoveGrid(g, d, dir).Some?
    ensures e == IndexOf(g, Blank) && e < |g| && s < |g| && e != s
    ensures d > 0 && Neighbouring(e, s, d)
    ensures MoveGrid(g, d, dir).value == g[e := g[s]][s := Blank]
    ensures forall k :: 0 <= k < |g| && k != e && k != s ==> MoveGrid(g, d, dir).value[k] == g[k]
    ensures multiset(MoveGrid(g, d, dir).value) == multiset(g)
    ensures Sum(MoveGrid(g, d, dir).value) == Sum(g)
  {
    e := IndexOf(g, Blank);
    CellOf(e, d);
    var src := SourceOf(e % d, e / d, dir);
    FlatIndex(src.0, src.1, d);
    s := src.1 * d + src.0;
    var h := g[e := g[s]][s := Blank];
    assert h == MoveGrid(g, d, dir).value;
    assert g[e] == Blank;
    SumUpdate(g, e, g[s]);
    SumUpdate(g[e := g[s]], s, Blank);
  }

  /** Moving the only blank in dir and then in the opposite direction restores the cells. */
  lemma MoveUndo(g: seq<int>, d: nat, dir: Direction)
    requires |g| == d * d && SingleBlank(g) && MoveGrid(g, d, dir).Some?
    ensures SingleBlank(MoveGrid(g, d, dir).value)
    ensures MoveGrid(MoveGrid(g, d, dir).value, d, Opposite(dir)) == Some(g)
  {
    var e, s := MoveSlidesOneTile(g, d, dir);
    var h := MoveGrid(g, d, dir).value;
    assert g[s] != Blank;
    IndexOfOnly(h, Blank, s);
    CellOf(e, d);
    var src := SourceOf(e % d, e / d, dir);
    FlatIndex(src.0, src.1, d);
    var back := SourceOf(s % d, s / d, Opposite(dir));
    assert back == (e % d, e / d);
    assert back.1 * d + back.0 == e;
    assert h[s := h[e]][e := Blank] == g;
  }

  /** h is one slide away from g. */
  predicate Adjacent(g: seq<int>, h: seq<int>, d: nat) {
    |g| == d * d && exists dir :: MoveGrid(g, d, dir) == Some(h)
  }

  /** With a single blank, one slide can always be undone by another. */
  lemma AdjacentIsSymmetric(g: seq<int>, h: seq<int>, d: nat)
    requires SingleBlank(g) && Adjacent(g, h, d)
    ensures SingleBlank(h) && Adjacent(h, g, d)
  {
    var dir :| MoveGrid(g, d, dir) == Some(h);
    MoveUndo(g, d, dir);
  }

  /** Board.move's effect on the cells: the slid cells, or the same cells when the move fails. */
  function Step(g: seq<int>, d: nat, dir: Direction): (h: seq<int>)
    requires |g| == d * d
    ensures |h| == |g|
  {
    match MoveGrid(g, d, dir)
    case Some(h) => h
    case None => g
  }

  /** `while (k-- > 0) move(dir)`: k calls of move(dir) in a row, none when k <= 0. */
  function Repeat(g: seq<int>, d: nat, dir: Direction, k: int): (h: seq<int>)
    requires |g| == d * d
    ensures |h| == |g|
    decreases k
  {
    if k <= 0 then g else Step(Repeat(g, d, dir, k - 1), d, dir)
  }

  // ---------------------------------------------------------------------------
  // Board.moveTo

  /**
   * Board.moveTo from the direction Directions[i] on: move in each direction;
   * if that gives the target, undo and redo the move and report true;
   * otherwise undo it and try the next direction. The pair holds the result
   * and the cells afterwards.
   */
  function ProbeFrom(g: seq<int>, d: nat, target: seq<int>, i: nat): (bool, seq<int>)
    requires |g| == d * d && i <= 4
    decreases 4 - i
  {
    if i == 4 then (false, g)
    else
      var dir := Directions[i];
      match MoveGrid(g, d, dir)
      case None => ProbeFrom(g, d, target, i + 1)
      case Some(h) =>
        if h == target then (true, Step(Step(h, d, Opposite(dir)), d, dir))
        else ProbeFrom(Step(h, d, Opposite(dir)), d, target, i + 1)
  }

  lemma {:induction false} ProbeFromSingleBlank(g: seq<int>, d: nat, target: seq<int>, i: nat)
    requires |g| == d * d && SingleBlank(g) && i <= 4
    ensures ProbeFrom(g, d, target, i).0 <==>
            exists j :: i <= j < 4 && MoveGrid(g, d, Directions[j]) == Some(target)
    ensures ProbeFrom(g, d, target, i).1 == if ProbeFrom(g, d, target, i).0 then target else g
    decreases 4 - i
  {
    if i < 4 {
      var dir := Directions[i];
      match MoveGrid(g, d, dir)
      case None =>
        ProbeFromSingleBlank(g, d, target, i + 1);
      case Some(h) =>
        MoveUndo(g, d, dir);
        assert Step(h, d, Opposite(dir)) == g;
        if h != target {
          ProbeFromSingleBlank(g, d, target, i + 1);
        }
    }
  }

  /**
   * moveTo on a board with one blank reports true exactly when the target is
   * one slide away, and then the cells equal the target; when it reports
   * false, the cells are unchanged.
   */
  lemma MoveToIsCorrect(g: seq<int>, d: nat, target: seq<int>)
    requires |g| == d * d && SingleBlank(g)
    ensures ProbeFrom(g, d, target, 0).0 <==> Adjacent(g, target, d)
    ensures ProbeFrom(g, d, target, 0).0 ==> ProbeFrom(g, d, target, 0).1 == target
    ensures !ProbeFrom(g, d, target, 0).0 ==> ProbeFrom(g, d, target, 0).1 == g
  {
    ProbeFromSingleBlank(g, d, target, 0);
    if Adjacent(g, target, d) {
      var dir :| MoveGrid(g, d, dir) == Some(target);
      var j := match dir case Up => 0 case Down => 1 case Left => 2 case Right => 3;
      assert Directions[j] == dir;
    }
  }

  /**
   * On a board with two blanks moveTo can report true and still end away from
   * the target: Up reaches the target, the undoing Down fails because the
   * first blank is now in the top row, and the redone Up slides a second tile.
   */
  lemma MoveToTwoBlanksOvershoots()
    ensures ProbeFrom([Blank, Blank, 5, 7], 2, [5, Blank, Blank, 7], 0) == (true, [5, 7, Blank, Blank])
  {
    var g, h := [Blank, Blank, 5, 7], [5, Blank, Blank, 7];
    assert IndexOf(g, Blank) == 0 by { IndexOfFirstHit(g, Blank, 0); }
    assert g[0 := g[2]][2 := Blank] == h;
    assert MoveGrid(g, 2, Up) == Some(h);
    assert IndexOf(h, Blank) == 1 by { IndexOfFirstHit(h, Blank, 1); }
    assert MoveGrid(h, 2, Down) == None;
    assert h[1 := h[3]][3 := Blank] == [5, 7, Blank, Blank];
    assert MoveGrid(h, 2, Up) == Some([5, 7, Blank, Blank]);
  }

  // ---------------------------------------------------------------------------
  // Board.hashCode in Java's 32-bit int arithmetic

  const Int32Modulus: int := 0x1_0000_0000

  predicate IsInt32(x: int) {
    -0x8000_0000 <= x < 0x8000_0000
  }

  /** The Java int that the mathematical integer x wraps around to. */
  function Wrap32(x: int): (r: int)
    ensures IsInt32(r) && (x - r) % Int32Modulus == 0
  {
    var r := (x + 0x8000_0000) % Int32Modulus - 0x8000_0000;
    assert x - r == Int32Modulus * ((x + 0x8000_0000) / Int32Modulus);
    r
  }

  /** The fold `hash = hash * 31 + c` over the cells, in int arithmetic. */
  function HashFold(h: int, cells: seq<int>): int
    decreases |cells|
  {
    if cells == [] then h else HashFold(Wrap32(h * 31 + cells[0]), cells[1..])
  }

  /** hashCode: Integer.hashCode(amountOfCells) folded with the cells. */
  function Hash(amountOfCells: int, cells: seq<int>): int {
    HashFold(Wrap32(amountOfCells), cells)
  }

  /** The hash is a Java int. */
  lemma {:induction false} HashIsInt32(amountOfCells: int, cells: seq<int>)
    ensures IsInt32(Hash(amountOfCells, cells))
  {
    HashFoldIsInt32(Wrap32(amountOfCells), cells);
  }

  lemma {:induction false} HashFoldIsInt32(h: int, cells: seq<int>)
    requires IsInt32(h)
    ensures IsInt32(HashFold(h, cells))
    decreases |cells|
  {
    if cells != [] {
      HashFoldIsInt32(Wrap32(h * 31 + cells[0]), cells[1..]);
    }
  }
}
