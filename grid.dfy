/**
 * Row-major cell numbering and the Moore neighbourhood of main.cpp:
 * `getIndex(row, col, width)` flattens a grid position, and `getNeighbors`
 * scans the 3 x 3 block around a cell, skipping the cell itself and every
 * position outside the grid (no wrap-around).
 */
module Grid {

  function Abs(x: int): nat
  {
    if x < 0 then -x else x
  }

  /** C++ `a / b` on `int`: the quotient truncated toward zero. */
  function TruncDiv(a: int, b: int): (q: int)
    requires b != 0
    ensures Abs(a - b * q) < Abs(b)
    ensures a - b * q == 0 || (a - b * q < 0 <==> a < 0)
    ensures 0 <= a && 0 < b ==> q == a / b
  {
    TruncDivCases(a, b);
    if a >= 0 && b > 0 then a / b
    else if a >= 0 then -(a / -b)
    else if b > 0 then -(-a / b)
    else -a / -b
  }

  /** The remainder left by each sign case of the truncated quotient. */
  lemma TruncDivCases(a: int, b: int)
    requires b != 0
    ensures a >= 0 && b > 0 ==> a - b * (a / b) == a % b
    ensures a >= 0 && b < 0 ==> a - b * -(a / -b) == a % -b
    ensures a < 0 && b > 0 ==> a - b * -(-a / b) == -(-a % b)
    ensures a < 0 && b < 0 ==> a - b * (-a / -b) == -(-a % -b)
  {
    if a >= 0 && b < 0 {
      var m := a / -b;
      assert b * -m == -b * m;
    } else if a < 0 && b > 0 {
      var m := -a / b;
      assert b * -m == -(b * m);
    } else if a < 0 && b < 0 {
      var m := -a / -b;
      assert b * m == -(-b * m);
    }
  }

  /** C++ `a % b` on `int`: the remainder that goes with the truncated quotient. */
  function TruncMod(a: int, b: int): (r: int)
    requires b != 0
    ensures a == b * TruncDiv(a, b) + r
    ensures Abs(r) < Abs(b)
    ensures r == 0 || (r < 0 <==> a < 0)
    ensures 0 <= a && 0 < b ==> r == a % b
  {
    a - b * TruncDiv(a, b)
  }

  /** A positive multiple of a positive number is at least that number. */
  lemma MulAtLeast(k: int, w: int)
    requires k >= 1 && w > 0
    ensures k * w >= w
  {
    var p := (k - 1) * w;
    assert p >= 0;
    assert k * w == p + w;
  }

  /** Euclidean quotient and remainder are the only ones with 0 <= r < w. */
  lemma DivModUnique(n: int, w: int, q: int, r: int)
    requires w > 0 && 0 <= r < w && n == q * w + r
    ensures n / w == q && n % w == r
  {
    var q', r' := n / w, n % w;
    assert n == q' * w + r' && 0 <= r' < w;
    assert (q' - q) * w == r - r';
    if q' > q {
      MulAtLeast(q' - q, w);
    } else if q' < q {
      MulAtLeast(q - q', w);
    }
  }

  /** main.cpp getIndex: the number of the cell at (row, col) in a grid `width` columns wide. */
  function GetIndex(row: int, col: int, width: int): (index: int)
    ensures 0 <= row && 0 <= col < width ==> row * width <= index < (row + 1) * width
  {
    row * width + col
  }

  /** Row-major numbering is undone by C++ `/` and `%` on every in-grid position. */
  lemma GetIndexRoundTrip(row: int, col: int, width: int)
    requires 0 <= row && 0 <= col < width
    ensures TruncDiv(GetIndex(row, col, width), width) == row
    ensures TruncMod(GetIndex(row, col, width), width) == col
  {
    RowMajor(row, col, width);
  }

  /** Euclidean division recovers row and column of a row-major number. */
  lemma RowMajor(row: int, col: int, width: int)
    requires 0 <= col < width
    ensures (row * width + col) / width == row
    ensures (row * width + col) % width == col
  {
    DivModUnique(row * width + col, width, row, col);
  }

  /** Every number is the row-major number of its Euclidean row and column. */
  lemma Decompose(m: int, width: int)
    requires width > 0
    ensures m == GetIndex(m / width, m % width, width) && 0 <= m % width < width
  {
  }

  /** A number with a row below `height` names a position on the grid. */
  lemma InGrid(j: int, width: int, height: int)
    requires width > 0 && 0 <= j && j / width < height
    ensures Inside(j / width, j % width, width, height)
  {
  }

  /** Row-major numbering is strictly increasing in (row, col) order. */
  lemma RowMajorOrder(r1: int, c1: int, r2: int, c2: int, width: int)
    requires 0 <= c1 < width && 0 <= c2 < width
    requires r1 < r2 || (r1 == r2 && c1 < c2)
    ensures GetIndex(r1, c1, width) < GetIndex(r2, c2, width)
  {
    if r1 < r2 {
      MulAtLeast(r2 - r1, width);
      assert (r2 - r1) * width == r2 * width - r1 * width;
    }
  }

  /**
   * The reference definition: `j` numbers a cell of the width x height
   * grid, other than (row, col), at most one row and one column away.
   */
  predicate IsNeighbor(row: int, col: int, width: int, height: int, j: int)
  {
    && width > 0 && 0 <= j && j / width < height
    && row - 1 <= j / width <= row + 1
    && col - 1 <= j % width <= col + 1
    && (j / width != row || j % width != col)
  }

  /** (row, col) lies on the grid. */
  predicate Inside(row: int, col: int, width: int, height: int)
  {
    0 <= row < height && 0 <= col < width
  }

  /** How many of x - 1, x, x + 1 that come before x + upto lie in [0, n). */
  function SpanBelow(x: int, n: int, upto: int): (k: nat)
    requires -1 <= upto <= 2
    ensures k <= upto + 1
    decreases upto + 1
  {
    if upto == -1 then 0
    else SpanBelow(x, n, upto - 1) + (if 0 <= x + upto - 1 < n then 1 else 0)
  }

  /** How many of x - 1, x, x + 1 lie in [0, n). */
  function Span(x: int, n: int): nat
  {
    SpanBelow(x, n, 2)
  }

  /** The number of neighbours of (row, col): the clipped 3 x 3 block, less the cell itself. */
  function NeighborCount(row: int, col: int, width: int, height: int): int
  {
    Span(row, height) * Span(col, width) - (if Inside(row, col, width, height) then 1 else 0)
  }

  /** `j` comes before position (r, c) in row-major order. */
  predicate ScannedBefore(j: int, width: int, r: int, c: int)
    requires width > 0
  {
    j / width < r || (j / width == r && j % width < c)
  }

  /**
   * The scan has reached position (r, c): `found` holds, in ascending order,
   * exactly the neighbours of (row, col) that come before (r, c).
   */
  ghost predicate ScanState(found: seq<int>, row: int, col: int, width: int, height: int, r: int, c: int)
  {
    && (width <= 0 ==> found == [])
    && (forall j :: j in found <==>
          IsNeighbor(row, col, width, height, j) && ScannedBefore(j, width, r, c))
    && (forall a, b :: 0 <= a < b < |found| ==> found[a] < found[b])
    && (forall a :: 0 <= a < |found| ==> width > 0 && ScannedBefore(found[a], width, r, c))
  }

  /** Nothing has been found before the top-left corner of the block. */
  lemma ScanStart(row: int, col: int, width: int, height: int)
    ensures ScanState([], row, col, width, height, row - 1, col - 1)
  {
  }

  /** A position that is skipped (the cell itself, or outside the grid) adds nothing. */
  lemma ScanSkip(found: seq<int>, row: int, col: int, width: int, height: int, r: int, c: int)
    requires ScanState(found, row, col, width, height, r, c)
    requires (r == row && c == col) || !Inside(r, c, width, height)
    ensures ScanState(found, row, col, width, height, r, c + 1)
  {
    forall j | IsNeighbor(row, col, width, height, j) && ScannedBefore(j, width, r, c + 1)
      ensures ScannedBefore(j, width, r, c)
    {
      InGrid(j, width, height);
    }
  }

  /** A neighbour position inside the grid appends its number, which exceeds all found so far. */
  lemma ScanTake(found: seq<int>, row: int, col: int, width: int, height: int, r: int, c: int)
    requires ScanState(found, row, col, width, height, r, c)
    requires !(r == row && c == col) && Inside(r, c, width, height)
    requires row - 1 <= r <= row + 1 && col - 1 <= c <= col + 1
    ensures ScanState(found + [GetIndex(r, c, width)], row, col, width, height, r, c + 1)
  {
    var n := GetIndex(r, c, width);
    RowMajor(r, c, width);
    forall a | 0 <= a < |found|
      ensures found[a] < n
    {
      var m := found[a];
      Decompose(m, width);
      RowMajorOrder(m / width, m % width, r, c, width);
    }
    forall j | IsNeighbor(row, col, width, height, j) && ScannedBefore(j, width, r, c + 1)
      ensures j in found + [n]
    {
      if j / width == r && j % width == c {
        Decompose(j, width);
      } else {
        assert j in found;
      }
    }
  }

  /** Past the last column of the block, the scan moves to the start of the next row. */
  lemma ScanNextRow(found: seq<int>, row: int, col: int, width: int, height: int, r: int)
    requires ScanState(found, row, col, width, height, r, col + 2)
    ensures ScanState(found, row, col, width, height, r + 1, col - 1)
  {
  }

  /** The scan takes position (row + dr, col + dc): not the cell itself, and inside the grid. */
  predicate Takes(row: int, col: int, width: int, height: int, dr: int, dc: int)
  {
    !(dr == 0 && dc == 0) && Inside(row + dr, col + dc, width, height)
  }

  /**
   * The numbers the scan of (row, col) has collected when it reaches offset
   * (dr, dc): rows -1 .. dr - 1 in full, then columns -1 .. dc - 1 of row dr.
   */
  function Before(row: int, col: int, width: int, height: int, dr: int, dc: int): seq<int>
    requires -1 <= dr <= 2 && -1 <= dc <= 2
    decreases dr + 1, dc + 1
  {
    if dc == -1 then
      if dr == -1 then [] else Before(row, col, width, height, dr - 1, 2)
    else if Takes(row, col, width, height, dr, dc - 1) then
      Before(row, col, width, height, dr, dc - 1) + [GetIndex(row + dr, col + dc - 1, width)]
    else
      Before(row, col, width, height, dr, dc - 1)
  }

  /** How many positions the scan has taken when it reaches offset (dr, dc). */
  function HitsBefore(row: int, col: int, width: int, height: int, dr: int, dc: int): nat
    requires -1 <= dr <= 2 && -1 <= dc <= 2
    decreases dr + 1, dc + 1
  {
    if dc == -1 then
      if dr == -1 then 0 else HitsBefore(row, col, width, height, dr - 1, 2)
    else
      HitsBefore(row, col, width, height, dr, dc - 1) + (if Takes(row, col, width, height, dr, dc - 1) then 1 else 0)
  }

  /** Taking the position before (dr, dc) keeps the collected numbers in scan state. */
  lemma BeforeTake(row: int, col: int, width: int, height: int, dr: int, dc: int)
    requires -1 <= dr <= 1 && -1 < dc <= 2 && Takes(row, col, width, height, dr, dc - 1)
    requires ScanState(Before(row, col, width, height, dr, dc - 1), row, col, width, height, row + dr, col + dc - 1)
    ensures ScanState(Before(row, col, width, height, dr, dc), row, col, width, height, row + dr, col + dc)
  {
    var prev := Before(row, col, width, height, dr, dc - 1);
    ScanTake(prev, row, col, width, height, row + dr, col + dc - 1);
    assert Before(row, col, width, height, dr, dc) == prev + [GetIndex(row + dr, col + dc - 1, width)];
  }

  /** Skipping the position before (dr, dc) keeps the collected numbers in scan state. */
  lemma BeforeSkip(row: int, col: int, width: int, height: int, dr: int, dc: int)
    requires -1 <= dr <= 1 && -1 < dc <= 2 && !Takes(row, col, width, height, dr, dc - 1)
    requires ScanState(Before(row, col, width, height, dr, dc - 1), row, col, width, height, row + dr, col + dc - 1)
    ensures ScanState(Before(row, col, width, height, dr, dc), row, col, width, height, row + dr, col + dc)
  {
    var prev := Before(row, col, width, height, dr, dc - 1);
    assert Before(row, col, width, height, dr, dc) == prev;
    ScanSkip(prev, row, col, width, height, row + dr, col + dc - 1);
  }

  /** Whatever the scan has collected is in scan state at its position. */
  lemma {:induction false} BeforeState(row: int, col: int, width: int, height: int, dr: int, dc: int)
    requires (-1 <= dr <= 1 && -1 <= dc <= 2) || (dr == 2 && dc == -1)
    ensures ScanState(Before(row, col, width, height, dr, dc), row, col, width, height, row + dr, col + dc)
    decreases dr + 1, dc + 1
  {
    if dc == -1 {
      if dr == -1 {
        ScanStart(row, col, width, height);
      } else {
        BeforeState(row, col, width, height, dr - 1, 2);
        ScanNextRow(Before(row, col, width, height, dr - 1, 2), row, col, width, height, row + dr - 1);
      }
    } else {
      BeforeState(row, col, width, height, dr, dc - 1);
      if Takes(row, col, width, height, dr, dc - 1) {
        BeforeTake(row, col, width, height, dr, dc);
      } else {
        BeforeSkip(row, col, width, height, dr, dc);
      }
    }
  }

  /** The scan collects one number per position it takes. */
  lemma {:induction false} BeforeCount(row: int, col: int, width: int, height: int, dr: int, dc: int)
    requires -1 <= dr <= 2 && -1 <= dc <= 2
    ensures |Before(row, col, width, height, dr, dc)| == HitsBefore(row, col, width, height, dr, dc)
    decreases dr + 1, dc + 1
  {
    if dc == -1 {
      if dr != -1 {
        BeforeCount(row, col, width, height, dr - 1, 2);
      }
    } else {
      BeforeCount(row, col, width, height, dr, dc - 1);
    }
  }

  /** One row of the block: its in-grid columns, less the cell itself on the middle row. */
  lemma RowHits(row: int, col: int, width: int, height: int, dr: int)
    requires -1 <= dr <= 1
    ensures HitsBefore(row, col, width, height, dr + 1, -1) - HitsBefore(row, col, width, height, dr, -1)
         == if 0 <= row + dr < height then Span(col, width) - (if dr == 0 && 0 <= col < width then 1 else 0) else 0
  {
  }

  /** The whole block, counted position by position, is the count NeighborCount gives. */
  lemma HitsTotal(row: int, col: int, width: int, height: int)
    ensures HitsBefore(row, col, width, height, 2, -1) == NeighborCount(row, col, width, height)
  {
    RowHits(row, col, width, height, -1);
    RowHits(row, col, width, height, 0);
    RowHits(row, col, width, height, 1);
    var s := Span(col, width);
    var i0 := if 0 <= row - 1 < height then 1 else 0;
    var i1 := if 0 <= row < height then 1 else 0;
    var i2 := if 0 <= row + 1 < height then 1 else 0;
    assert Span(row, height) == i0 + i1 + i2;
    assert (i0 + i1 + i2) * s == i0 * s + i1 * s + i2 * s;
  }

  /**
   * The complete scan collects, in ascending order, exactly the neighbours
   * IsNeighbor describes, as many as NeighborCount gives.
   */
  lemma ScanComplete(row: int, col: int, width: int, height: int)
    ensures var found := Before(row, col, width, height, 2, -1);
            && (forall j :: j in found <==> IsNeighbor(row, col, width, height, j))
            && (forall a, b :: 0 <= a < b < |found| ==> found[a] < found[b])
            && |found| == NeighborCount(row, col, width, height)
  {
    BeforeState(row, col, width, height, 2, -1);
    BeforeCount(row, col, width, height, 2, -1);
    HitsTotal(row, col, width, height);
  }

  /**
   * main.cpp getNeighbors: the neighbours of cell `index` in ascending order.
   * The result is exactly the set IsNeighbor describes, strictly increasing,
   * and of the size NeighborCount gives.
   */
  method GetNeighbors(index: int, width: int, height: int) returns (neighbors: seq<int>)
    requires width != 0
    ensures forall j :: j in neighbors <==>
              IsNeighbor(TruncDiv(index, width), TruncMod(index, width), width, height, j)
    ensures forall a, b :: 0 <= a < b < |neighbors| ==> neighbors[a] < neighbors[b]
    ensures |neighbors| == NeighborCount(TruncDiv(index, width), TruncMod(index, width), width, height)
  {
    var row := TruncDiv(index, width);
    var col := TruncMod(index, width);
    neighbors := [];
    for dr := -1 to 2
      invariant neighbors == Before(row, col, width, height, dr, -1)
    {
      for dc := -1 to 2
        invariant neighbors == Before(row, col, width, height, dr, dc)
      {
        ghost var next := Before(row, col, width, height, dr, dc + 1);
        assert next == if Takes(row, col, width, height, dr, dc) then neighbors + [GetIndex(row + dr, col + dc, width)] else neighbors;
        if dr == 0 && dc == 0 {
          continue;
        }
        var newRow := row + dr;
        var newCol := col + dc;
        if newRow >= 0 && newRow < height && newCol >= 0 && newCol < width {
          neighbors := neighbors + [GetIndex(newRow, newCol, width)];
        }
      }
    }
    ScanComplete(row, col, width, height);
  }

  /** No cell has more than eight neighbours. */
  lemma AtMostEight(row: int, col: int, width: int, height: int)
    ensures 0 <= NeighborCount(row, col, width, height) <= 8
  {
    var a, b := Span(row, height), Span(col, width);
    assert a <= 3 && b <= 3;
    if a == 3 && b == 3 {
      assert Inside(row, col, width, height);
    } else if a == 0 || b == 0 {
      assert !Inside(row, col, width, height);
    } else {
      assert a * b <= 6 by {
        if a <= 2 { assert a * b <= 2 * b; } else { assert a * b <= a * 2; }
      }
    }
  }

  /** On a grid at least 2 x 2: a corner has 3 neighbours, another edge cell 5, an interior cell 8. */
  lemma CornerEdgeInterior(row: int, col: int, width: int, height: int)
    requires width >= 2 && height >= 2 && Inside(row, col, width, height)
    ensures var onRowEdge := row == 0 || row == height - 1;
            var onColEdge := col == 0 || col == width - 1;
            NeighborCount(row, col, width, height)
              == if onRowEdge && onColEdge then 3 else if onRowEdge || onColEdge then 5 else 8
  {
    assert Span(row, height) == if row == 0 || row == height - 1 then 2 else 3;
    assert Span(col, width) == if col == 0 || col == width - 1 then 2 else 3;
  }

  /** A cell is never its own neighbour. */
  lemma NotOwnNeighbor(index: int, width: int, height: int)
    requires width != 0
    ensures !IsNeighbor(TruncDiv(index, width), TruncMod(index, width), width, height, index)
  {
  }

  /**
   * Every neighbour of an in-grid cell is an in-grid cell number, one row and
   * one column away at most.
   */
  lemma NeighborInGrid(index: int, width: int, height: int, j: int)
    requires width > 0 && 0 <= index < width * height
    requires IsNeighbor(TruncDiv(index, width), TruncMod(index, width), width, height, j)
    ensures 0 <= j < width * height && j != index
    ensures Abs(j / width - index / width) <= 1 && Abs(j % width - index % width) <= 1
  {
    BelowProduct(j, width, height);
  }

  /** A number whose row is above `height` lies below width * height. */
  lemma BelowProduct(j: int, width: int, height: int)
    requires width > 0 && 0 <= j && j / width < height
    ensures j < width * height
  {
    var q := j / width;
    Decompose(j, width);
    MulAtLeast(height - q, width);
    assert (height - q) * width == width * height - q * width;
  }

  /** Being a neighbour is symmetric among the cells of the grid. */
  lemma NeighborSymmetric(i: int, j: int, width: int, height: int)
    requires width > 0 && 0 <= i && 0 <= j
    requires i / width < height && j / width < height
    ensures IsNeighbor(TruncDiv(i, width), TruncMod(i, width), width, height, j)
        <==> IsNeighbor(TruncDiv(j, width), TruncMod(j, width), width, height, i)
  {
  }
}
