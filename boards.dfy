/**
 * Board.java: an N x N board whose cells live in a flat row-major array
 * (cell (x, y), column x and row y, at index y * N + x). The dimension, the
 * tile count, the search depth and the parent board never change after
 * construction; the methods below slide, exchange or overwrite cells in
 * place, and each is specified by the functions of modules Grids,
 * Heuristics and Parity.
 */
module Boards {
  import opened Optional
  import opened Grids
  import opened Heuristics
  import opened Parity

  /** java.awt.Point as getCell returns it. */
  datatype Point = Point(x: int, y: int)

  class Board {
    const dimension: nat
    /** The number of tiles, N*N - 1. */
    const amountOfCells: int
    const blocks: array<int>
    /** The depth of this board in the search tree. */
    const searchNodeNum: int
    /** The board this one was copied from, null for a board built from scratch. */
    const previous: Board?

    predicate Valid() {
      blocks.Length == dimension * dimension && amountOfCells == dimension * dimension - 1
    }

    /** Board(int dimension): the goal layout, at depth 0 and without a parent. */
    constructor (dimension: nat)
      ensures Valid() && this.dimension == dimension
      ensures blocks[..] == Goal(dimension)
      ensures searchNodeNum == 0 && previous == null
      ensures fresh(blocks)
    {
      var n := dimension * dimension;
      var a := new int[n];
      var k := 0;  // i * dimension + j
      var i := 0;
      while i < dimension
        invariant 0 <= i <= dimension && k == i * dimension && k <= n
        invariant forall m :: 0 <= m < k ==> a[m] == GoalCell(n, m)
      {
        var j := 0;
        while j < dimension
          invariant 0 <= j <= dimension && k == i * dimension + j && k <= n
          invariant forall m :: 0 <= m < k ==> a[m] == GoalCell(n, m)
        {
          RowMajorBound(j, i, dimension);
          var cellNum := i * dimension + j;
          a[cellNum] := if cellNum < n - 1 then cellNum else Blank;
          j := j + 1;
          k := k + 1;
        }
        NextRow(i, dimension);
        i := i + 1;
      }
      this.dimension := dimension;
      amountOfCells := n - 1;
      blocks := a;
      searchNodeNum := 0;
      previous := null;
    }

    /** Board(Board toCopy): a child in the search tree with the same cells. */
    constructor Copy(toCopy: Board)
      requires toCopy.Valid()
      ensures Valid() && dimension == toCopy.dimension && amountOfCells == toCopy.amountOfCells
      ensures blocks[..] == toCopy.blocks[..]
      ensures searchNodeNum == toCopy.searchNodeNum + 1 && previous == toCopy
      ensures fresh(blocks)
    {
      var d := toCopy.dimension;
      var a := new int[d * d];
      var k := 0;  // i * d + j
      var i := 0;
      while i < d
        invariant 0 <= i <= d && k == i * d && k <= d * d
        invariant forall m :: 0 <= m < k ==> a[m] == toCopy.blocks[m]
      {
        // System.arraycopy of row i
        var j := 0;
        while j < d
          invariant 0 <= j <= d && k == i * d + j && k <= d * d
          invariant forall m :: 0 <= m < k ==> a[m] == toCopy.blocks[m]
        {
          RowMajorBound(j, i, d);
          a[i * d + j] := toCopy.blocks[i * d + j];
          j := j + 1;
          k := k + 1;
        }
        NextRow(i, d);
        i := i + 1;
      }
      amountOfCells := toCopy.amountOfCells;
      dimension := d;
      blocks := a;
      searchNodeNum := toCopy.searchNodeNum + 1;
      previous := toCopy;
    }

    /** Board.hamming. */
    method Hamming() returns (r: int)
      requires Valid()
      ensures r == HammingScore(blocks[..], searchNodeNum)
    {
      var n := blocks.Length;
      var goalNum := 0;
      var misplacedCnt := 0;
      var k := 0;
      while k < n
        invariant 0 <= k <= n
        invariant goalNum == if k == n && n > 0 then n - 1 else k
        invariant misplacedCnt == MisplacedUpTo(blocks[..], k)
      {
        var cell := blocks[k];
        if goalNum >= amountOfCells {
          if cell != Blank {
            misplacedCnt := misplacedCnt + 1;
          }
        } else {
          if cell != goalNum {
            misplacedCnt := misplacedCnt + 1;
          }
          goalNum := goalNum + 1;
        }
        k := k + 1;
      }
      assert blocks[..] == blocks[..n];
      r := misplacedCnt + searchNodeNum;
    }

    /** Board.manhattan. */
    method Manhattan() returns (r: int)
      requires Valid()
      ensures r == ManhattanScore(blocks[..], dimension, searchNodeNum)
    {
      var d := dimension;
      var distance := 0;
      if d > 0 {
        var k := 0;  // i * d + j
        var i := 0;
        while i < d
          invariant 0 <= i <= d && k == i * d && k <= d * d
          invariant distance == DistanceUpTo(blocks[..], d, k)
        {
          var j := 0;
          while j < d
            invariant 0 <= j <= d && k == i * d + j && k <= d * d
            invariant distance == DistanceUpTo(blocks[..], d, k)
          {
            RowMajorBound(j, i, d);
            DivUnique(k, d, i, j);
            var v := blocks[i * d + j];
            if v != Blank {
              var goalX := JavaRem(v, d);
              var goalY := JavaDiv(v, d);
              distance := distance + Abs(goalX - j) + Abs(goalY - i);
            }
            j := j + 1;
            k := k + 1;
          }
          NextRow(i, d);
          i := i + 1;
        }
      }
      r := (if d < 4 then 1 else d) * distance + searchNodeNum;
    }

    /** Board.isGoal. */
    method IsGoal() returns (r: bool)
      requires Valid()
      ensures r == Grids.IsGoal(blocks[..])
    {
      var k := 0;
      while k < blocks.Length
        invariant 0 <= k <= blocks.Length
        invariant forall m :: 0 <= m < k && m < amountOfCells ==> blocks[m] == m
      {
        if k >= amountOfCells {
          break;
        }
        if blocks[k] != k {
          return false;
        }
        k := k + 1;
      }
      return true;
    }

    /** Board.isValid. */
    method IsValid() returns (r: bool)
      requires Valid()
      ensures r == Grids.IsValid(blocks[..], dimension)
    {
      var sum := 0;
      var k := 0;
      while k < blocks.Length
        invariant 0 <= k <= blocks.Length
        invariant sum == Sum(blocks[..k])
      {
        assert blocks[..k + 1][..k] == blocks[..k];
        sum := sum + blocks[k];
        k := k + 1;
      }
      assert blocks[..] == blocks[..blocks.Length];
      var d: int := dimension;
      r := sum == (d * d - 2) * (d * d - 1) / 2 - 1;
    }

    /**
     * Board.solvable: works on a fresh copy, so the receiver is untouched and
     * the answer depends on the cells alone.
     */
    method Solvable() returns (r: bool)
      requires Valid()
      ensures r == Solvability(blocks[..], dimension)
    {
      var copy := new Board.Copy(this);
      copy.SlideBlankHomeInPlace();
      var swapsCnt := copy.SwapPassInPlace();
      r := copy.IsGoal();
      r := swapsCnt % 2 == 0 && r;
    }

    /** The first phase of solvable: moves Left, then Up, until the first blank is in the last cell. */
    method SlideBlankHomeInPlace()
      requires Valid()
      modifies blocks
      ensures blocks[..] == SlideBlankHome(old(blocks[..]), dimension)
    {
      var d := dimension;
      ghost var start := blocks[..];
      ghost var k1, k2 := SlideBlankHomeUnfold(start, d);
      var cnt1 := Find(Blank);
      if cnt1 < blocks.Length && cnt1 != d * d - 1 {
        var leftCnt := d - 1 - cnt1 % d;
        var topCnt := d - 1 - cnt1 / d;
        assert leftCnt == k1 && topCnt == k2;
        MoveRepeatedly(Left, leftCnt);
        MoveRepeatedly(Up, topCnt);
      } else {
        assert SlideBlankHome(start, d) == start;
      }
    }

    /** `while (k-- > 0) move(dir)`: k moves in direction dir, successful or not. */
    method MoveRepeatedly(dir: Direction, k: int)
      requires Valid()
      modifies blocks
      ensures blocks[..] == Repeat(old(blocks[..]), dimension, dir, k)
    {
      ghost var start := blocks[..];
      var n := k;
      while n > 0
        invariant if k > 0 then 0 <= n <= k else n == k
        invariant blocks[..] == Repeat(start, dimension, dir, k - n)
      {
        n := n - 1;
        var _ := Move(dir);
      }
    }

    /** The second phase of solvable: one selection-sort pass, counting the exchanges. */
    method SwapPassInPlace() returns (swapsCnt: nat)
      requires Valid()
      modifies blocks
      ensures (blocks[..], swapsCnt) == SwapPass(old(blocks[..]), 0, 0)
    {
      var d := dimension;
      swapsCnt := 0;
      var goalNum := 0;
      while goalNum < blocks.Length
        invariant 0 <= goalNum <= blocks.Length
        invariant SwapPass(blocks[..], goalNum, swapsCnt) == SwapPass(old(blocks[..]), 0, 0)
      {
        var c1 := blocks[goalNum];
        if c1 != goalNum && c1 != Blank {
          CellOf(goalNum, d);
          var x1, y1 := goalNum % d, goalNum / d;
          var cnt := Find(goalNum);
          if cnt < blocks.Length {
            CellOf(cnt, d);
            Swap(x1, y1, cnt % d, cnt / d);
            swapsCnt := swapsCnt + 1;
          }
        }
        goalNum := goalNum + 1;
      }
    }

    /**
     * The scan over cellIterator that solvable, getCell and move share: the
     * row-major position of the first cell holding v, or N*N when there is none.
     */
    method Find(v: int) returns (cnt: nat)
      requires Valid()
      ensures cnt == IndexOf(blocks[..], v)
    {
      cnt := 0;
      while cnt < blocks.Length && blocks[cnt] != v
        invariant 0 <= cnt <= blocks.Length
        invariant forall m :: 0 <= m < cnt ==> blocks[m] != v
      {
        cnt := cnt + 1;
      }
      if cnt < IndexOf(blocks[..], v) {
        IndexOfIsFirst(blocks[..], v, cnt);
      }
    }

    /** Board.swap: exchanges the cells (x1, y1) and (x2, y2). */
    method Swap(x1: int, y1: int, x2: int, y2: int)
      requires Valid() && OnGrid(x1, y1, dimension) && OnGrid(x2, y2, dimension)
      modifies blocks
      ensures var i, j := CellIndex(x1, y1, dimension), CellIndex(x2, y2, dimension);
        blocks[..] == old(blocks[..])[i := old(blocks[j])][j := old(blocks[i])]
    {
      var i, j := CellIndex(x1, y1, dimension), CellIndex(x2, y2, dimension);
      var temp := blocks[i];
      blocks[i] := blocks[j];
      blocks[j] := temp;
    }

    /** Board.setCell: writes cellNum into (x, y) when that cell is on the board and blank. */
    method SetCell(cellNum: int, x: int, y: int) returns (ok: bool)
      requires Valid()
      modifies blocks
      ensures ok <==> OnGrid(x, y, dimension) && old(blocks[CellIndex(x, y, dimension)]) == Blank
      ensures ok ==> blocks[..] == old(blocks[..])[CellIndex(x, y, dimension) := cellNum]
      ensures !ok ==> blocks[..] == old(blocks[..])
    {
      if x < 0 || y < 0 || x >= dimension || y >= dimension {
        return false;
      }
      var k := CellIndex(x, y, dimension);
      if blocks[k] != Blank {
        return false;
      }
      blocks[k] := cellNum;
      return true;
    }

    /** Board.getCell: the cell of the first occurrence of cellNum, None for `null`. */
    method GetCell(cellNum: int) returns (p: Option<Point>)
      requires Valid()
      ensures p.None? <==> cellNum !in blocks[..]
      ensures p.Some? ==>
        OnGrid(p.value.x, p.value.y, dimension) &&
        CellIndex(p.value.x, p.value.y, dimension) == IndexOf(blocks[..], cellNum)
    {
      var cnt := 0;
      while cnt < blocks.Length
        invariant 0 <= cnt <= blocks.Length
        invariant forall m :: 0 <= m < cnt ==> blocks[m] != cellNum
      {
        if blocks[cnt] == cellNum {
          IndexOfFirstHit(blocks[..], cellNum, cnt);
          CellOf(cnt, dimension);
          return Some(Point(cnt % dimension, cnt / dimension));
        }
        cnt := cnt + 1;
      }
      return None;
    }

    /** Board.clear: every cell becomes blank. */
    method Clear()
      requires Valid()
      modifies blocks
      ensures forall k :: 0 <= k < blocks.Length ==> blocks[k] == Blank
    {
      var d := dimension;
      var k := 0;  // i * d + j
      var i := 0;
      while i < d
        invariant 0 <= i <= d && k == i * d && k <= d * d
        invariant forall m :: 0 <= m < k ==> blocks[m] == Blank
      {
        var j := 0;
        while j < d
          invariant 0 <= j <= d && k == i * d + j && k <= d * d
          invariant forall m :: 0 <= m < k ==> blocks[m] == Blank
        {
          RowMajorBound(j, i, d);
          blocks[i * d + j] := Blank;
          j := j + 1;
          k := k + 1;
        }
        NextRow(i, d);
        i := i + 1;
      }
    }

    /** Board.compareTo: Integer.compare of the two manhattan scores. */
    method CompareTo(o: Board) returns (r: int)
      requires Valid() && o.Valid()
      ensures var a, b := ManhattanScore(blocks[..], dimension, searchNodeNum),
                          ManhattanScore(o.blocks[..], o.dimension, o.searchNodeNum);
        (r < 0 <==> a < b) && (r == 0 <==> a == b) && (r > 0 <==> a > b) && -1 <= r <= 1
    {
      var a := Manhattan();
      var b := o.Manhattan();
      r := if a < b then -1 else if a == b then 0 else 1;
    }

    /** Board.equals: the same cells, whatever the depth and the parent. */
    method Equals(y: Board?) returns (r: bool)
      requires Valid()
      requires y != null ==> y.Valid() && y.dimension == dimension
      ensures r <==> y != null && blocks[..] == y.blocks[..]
    {
      if y == null {
        return false;
      }
      var d := dimension;
      var k := 0;  // i * d + j
      var i := 0;
      while i < d
        invariant 0 <= i <= d && k == i * d && k <= d * d
        invariant forall m :: 0 <= m < k ==> blocks[m] == y.blocks[m]
      {
        var j := 0;
        while j < d
          invariant 0 <= j <= d && k == i * d + j && k <= d * d
          invariant forall m :: 0 <= m < k ==> blocks[m] == y.blocks[m]
        {
          RowMajorBound(j, i, d);
          if blocks[i * d + j] != y.blocks[i * d + j] {
            assert blocks[..][k] != y.blocks[..][k];
            return false;
          }
          j := j + 1;
          k := k + 1;
        }
        NextRow(i, d);
        i := i + 1;
      }
      assert blocks[..] == y.blocks[..];
      return true;
    }

    /** Board.hashCode, in Java's wrapping int arithmetic. */
    method HashCode() returns (r: int)
      requires Valid()
      ensures r == Hash(amountOfCells, blocks[..])
    {
      var hash := Wrap32(amountOfCells);
      var k := 0;
      while k < blocks.Length
        invariant 0 <= k <= blocks.Length
        invariant HashFold(hash, blocks[k..]) == Hash(amountOfCells, blocks[..])
      {
        assert blocks[k..][1..] == blocks[k + 1..];
        hash := Wrap32(hash * 31 + blocks[k]);
        k := k + 1;
      }
      r := hash;
    }

    /**
     * One step of the neighbors iterator: a child copy moved in dir, or null
     * when that move is invalid.
     */
    method NeighborTowards(dir: Direction) returns (b: Board?)
      requires Valid()
      ensures b == null <==> MoveGrid(blocks[..], dimension, dir).None?
      ensures b != null ==>
        fresh(b) && fresh(b.blocks) && b.Valid() && b.dimension == dimension &&
        b.blocks[..] == MoveGrid(blocks[..], dimension, dir).value &&
        b.searchNodeNum == searchNodeNum + 1 && b.previous == this
    {
      var res := new Board.Copy(this);
      var ok := res.Move(dir);
      b := if ok then res else null;
    }

    /** Board.neighbors: four slots in the order Up, Down, Left, Right. */
    method Neighbors() returns (ns: seq<Board?>)
      requires Valid()
      ensures |ns| == 4
      ensures forall i :: 0 <= i < 4 ==> (ns[i] == null <==> MoveGrid(blocks[..], dimension, Directions[i]).None?)
      ensures forall i :: 0 <= i < 4 && ns[i] != null ==>
        fresh(ns[i]) && fresh(ns[i].blocks) && ns[i].Valid() && ns[i].dimension == dimension &&
        ns[i].blocks[..] == MoveGrid(blocks[..], dimension, Directions[i]).value &&
        ns[i].searchNodeNum == searchNodeNum + 1 && ns[i].previous == this
    {
      var up := NeighborTowards(Up);
      var down := NeighborTowards(Down);
      var left := NeighborTowards(Left);
      var right := NeighborTowards(Right);
      ns := [up, down, left, right];
    }

    /**
     * Board.move: slides the tile on the side opposite dir into the first
     * blank; false, with the cells untouched, when there is no blank or that
     * tile would come from off the board.
     */
    method Move(dir: Direction) returns (ok: bool)
      requires Valid()
      modifies blocks
      ensures ok <==> MoveGrid(old(blocks[..]), dimension, dir).Some?
      ensures blocks[..] == Step(old(blocks[..]), dimension, dir)
    {
      var d := dimension;
      var cnt := 0;
      while cnt < blocks.Length
        invariant 0 <= cnt <= blocks.Length
        invariant forall m :: 0 <= m < cnt ==> blocks[m] != Blank
      {
        if blocks[cnt] == Blank {
          IndexOfFirstHit(blocks[..], Blank, cnt);
          CellOf(cnt, d);
          var emptyX, emptyY := cnt % d, cnt / d;
          var sourceX, sourceY := SourceOf(emptyX, emptyY, dir).0, SourceOf(emptyX, emptyY, dir).1;
          if sourceX < 0 || sourceY < 0 || sourceX >= d || sourceY >= d {
            return false;
          }
          FlatIndex(sourceX, sourceY, d);
          var s := sourceY * d + sourceX;
          blocks[cnt] := blocks[s];
          blocks[s] := Blank;
          return true;
        }
        cnt := cnt + 1;
      }
      assert IndexOf(blocks[..], Blank) == blocks.Length;
      return false;
    }

    /**
     * Board.moveTo: tries each direction in turn; a move that yields the
     * target's cells is undone and redone and reported true, any other
     * successful move is undone.
     */
    method MoveTo(another: Board) returns (r: bool)
      requires Valid() && another.Valid() && another.dimension == dimension
      requires another.blocks != blocks
      modifies blocks
      ensures (r, blocks[..]) == ProbeFrom(old(blocks[..]), dimension, another.blocks[..], 0)
    {
      var d := dimension;
      var i := 0;
      while i < 4
        invariant 0 <= i <= 4
        invariant ProbeFrom(blocks[..], d, another.blocks[..], i) == ProbeFrom(old(blocks[..]), d, another.blocks[..], 0)
      {
        var dir := Directions[i];
        var validMove := Move(dir);
        if validMove {
          var eq := Equals(another);
          if eq {
            var _ := Move(Opposite(dir));
            var _ := Move(dir);
            return true;
          } else {
            var _ := Move(Opposite(dir));
          }
        }
        i := i + 1;
      }
      return false;
    }
  }
}
