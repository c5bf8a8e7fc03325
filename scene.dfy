/**
 * The parts of GameOfLife/main.cpp that feed and query the quadtree: the
 * grid of cells laid over the 500 x 500 window, the loops that build and
 * rebuild the cell table and insert every cell into the tree, and the hover
 * filter that keeps the retrieved cells actually under the mouse and looks
 * up their neighbours.
 *
 * The rectangle SFML reports for each cell (getGlobalBounds of its shape) is
 * a parameter `cellBounds`, given the cell's column and row.
 */
module GameOfLife {
  import opened Geometry
  import opened QuadtreeSpec
  import QuadtreeProps
  import QuadtreeImpl
  import Grid

  const WindowWidth: int := 500
  const WindowHeight: int := 500
  /** `cellSize` is a float in the program. */
  const CellSize: real := 20.0
  /** `int numCellsX = windowWidth / cellSize`: a float quotient truncated to int. */
  const NumCellsX: int := (WindowWidth as real / CellSize).Floor
  const NumCellsY: int := (WindowHeight as real / CellSize).Floor

  /** The bounds the quadtree is constructed with. */
  const WindowBounds: Rect := Rect(0.0, 0.0, WindowWidth as real, WindowHeight as real)

  /** The one-by-one rectangle at the mouse position passed to retrieve. */
  function MouseRect(x: real, y: real): Rect
  {
    Rect(x, y, 1.0, 1.0)
  }

  /**
   * `cells` is what the build loop has pushed after its first `n` steps: the
   * loop runs over columns outside and rows inside, so entry k is the cell at
   * column k / NumCellsY and row k % NumCellsY.
   */
  ghost predicate Layout(cells: seq<Rect>, n: int, cellBounds: (int, int) -> Rect)
  {
    && |cells| == n
    && forall k :: 0 <= k < n ==> cells[k] == cellBounds(k / NumCellsY, k % NumCellsY)
  }

  /** Pushing the cell at column `i`, row `r` extends the layout by one entry. */
  lemma LayoutPush(cells: seq<Rect>, i: int, r: int, cellBounds: (int, int) -> Rect)
    requires 0 <= i && 0 <= r < NumCellsY && Layout(cells, i * NumCellsY + r, cellBounds)
    ensures Layout(cells + [cellBounds(i, r)], i * NumCellsY + r + 1, cellBounds)
  {
    Grid.RowMajor(i, r, NumCellsY);
  }

  /** The tree stores every index below `n` exactly once and nothing else. */
  ghost predicate HoldsEachOnce(t: Tree, n: int)
  {
    forall k :: Contents(t)[k] == if 0 <= k < n then 1 else 0
  }

  /** Adding one occurrence of `n` to a tree holding each index below `n` once makes it hold each index below `n + 1` once. */
  lemma HoldsOneMore(t: Tree, u: Tree, n: int)
    requires 0 <= n && HoldsEachOnce(t, n) && Contents(u) == Contents(t) + multiset{n}
    ensures HoldsEachOnce(u, n + 1)
  {
    forall k
      ensures Contents(u)[k] == if 0 <= k < n + 1 then 1 else 0
    {
      assert Contents(u)[k] == Contents(t)[k] + multiset{n}[k];
    }
  }

  /**
   * Inserting the index of a newly pushed cell, as the build loop does,
   * keeps Inv for the longer table, adds that index once, and only extends
   * the tree.
   */
  lemma InsertNext(t: Tree, cells: seq<Rect>, cell: Rect)
    requires WellFormed(t) && Inv(t, cells) && HoldsEachOnce(t, |cells|)
    ensures AllIn(t, |cells| + 1)
    ensures var u := Insert(t, |cells|, cells + [cell]);
      Inv(u, cells + [cell]) && HoldsEachOnce(u, |cells| + 1) && Extends(t, u)
  {
    var more := cells + [cell];
    QuadtreeProps.InvAppend(t, cells, [cell]);
    QuadtreeProps.InvAllIn(t, more, |more|);
    QuadtreeProps.InsertKeepsInv(t, |cells|, more);
    QuadtreeProps.InsertContents(t, |cells|, more);
    HoldsOneMore(t, Insert(t, |cells|, more), |cells|);
    QuadtreeProps.InsertExtends(t, |cells|, more);
  }

  /** A cleared window tree is where the build loop starts from, with the old splits. */
  lemma ClearedStart(t: Tree)
    requires WellFormed(t) && IsWindowTree(t)
    ensures var c := QuadtreeSpec.Clear(t);
      WellFormed(c) && IsWindowTree(c) && Inv(c, []) && HoldsEachOnce(c, 0) && Extends(t, c)
  {
    QuadtreeProps.ClearEmpties(t, WindowBounds);
    QuadtreeProps.ClearKeepsShape(t);
    QuadtreeProps.ClearedInv(t, []);
  }

  /** The build loop always pushes the same table. */
  lemma LayoutUnique(a: seq<Rect>, b: seq<Rect>, n: int, cellBounds: (int, int) -> Rect)
    requires Layout(a, n, cellBounds) && Layout(b, n, cellBounds)
    ensures a == b
  {
  }

  /** The tree main() owns: a root over the window with the default level and limits. */
  predicate IsWindowTree(t: Tree)
  {
    SameHeader(t, Empty(WindowBounds, 0, 4, 5))
  }

  /** A point inside a rectangle of the same height and width as the mouse rectangle's is inside the cell. */
  lemma MouseInside(x: real, y: real, cell: Rect)
    requires Within(MouseRect(x, y), cell)
    ensures ContainsPoint(cell, x, y)
  {
  }

  /** An index a well-formed tree over `n` cells returns from retrieve names a cell. */
  lemma RetrievedInRange(t: Tree, rect: Rect, n: int, k: int)
    requires HoldsEachOnce(t, n) && k in Retrieve(t, rect)
    ensures 0 <= k < n
  {
    QuadtreeProps.RetrieveSound(t, rect);
    assert k in multiset(Retrieve(t, rect));
  }

  /** retrieve over a tree that stores each index once returns no index twice. */
  lemma RetrievedOnce(t: Tree, rect: Rect, n: int)
    requires HoldsEachOnce(t, n)
    ensures forall k :: multiset(Retrieve(t, rect))[k] <= 1
  {
    QuadtreeProps.RetrieveSound(t, rect);
    forall k
      ensures multiset(Retrieve(t, rect))[k] <= 1
    {
      assert multiset(Retrieve(t, rect))[k] <= Contents(t)[k];
    }
  }

  /** Each entry of `neighbors` lists exactly the neighbours of the matching entry of `hovered`, all cells of an `n`-cell table. */
  ghost predicate ListsNeighbors(hovered: seq<int>, neighbors: seq<seq<int>>, n: int)
  {
    && |neighbors| == |hovered|
    && forall p :: 0 <= p < |hovered| ==> NeighborList(hovered[p], neighbors[p], n)
  }

  /** `ns` is getNeighbors(k, numCellsX, numCellsY): the neighbours of k, ascending, as many as NeighborCount gives; every entry names another cell of an `n`-cell table. */
  ghost predicate NeighborList(k: int, ns: seq<int>, n: int)
  {
    && GetNeighborsResult(k, ns)
    && (forall j :: j in ns ==> 0 <= j < n && j != k)
  }

  /** What Grid.GetNeighbors promises of its result for cell k of the numCellsX x numCellsY grid. */
  ghost predicate GetNeighborsResult(k: int, ns: seq<int>)
  {
    var row := Grid.TruncDiv(k, NumCellsX);
    var col := Grid.TruncMod(k, NumCellsX);
    && (forall j :: j in ns <==> Grid.IsNeighbor(row, col, NumCellsX, NumCellsY, j))
    && (forall a, b :: 0 <= a < b < |ns| ==> ns[a] < ns[b])
    && |ns| == Grid.NeighborCount(row, col, NumCellsX, NumCellsY)
  }

  /** getNeighbors of a cell of the full grid lists only other cells of the grid. */
  lemma NeighborsInTable(k: int, ns: seq<int>)
    requires 0 <= k < NumCellsX * NumCellsY
    requires GetNeighborsResult(k, ns)
    ensures NeighborList(k, ns, NumCellsX * NumCellsY)
  {
    forall j | j in ns
      ensures 0 <= j < NumCellsX * NumCellsY && j != k
    {
      Grid.NeighborInGrid(k, NumCellsX, NumCellsY, j);
    }
  }

  /** Appending a cell with its neighbour list keeps ListsNeighbors. */
  lemma ListsNeighborsPush(hovered: seq<int>, neighbors: seq<seq<int>>, n: int, k: int, ns: seq<int>)
    requires ListsNeighbors(hovered, neighbors, n) && NeighborList(k, ns, n)
    ensures ListsNeighbors(hovered + [k], neighbors + [ns], n)
  {
    assert forall p :: 0 <= p < |hovered| ==> (hovered + [k])[p] == hovered[p] && (neighbors + [ns])[p] == neighbors[p];
  }

  /** `hovered` holds exactly the candidates that name a cell whose bounds contain (x, y). */
  ghost predicate UnderMouse(hovered: seq<int>, candidates: seq<int>, cells: seq<Rect>, x: real, y: real)
  {
    forall k :: k in hovered <==> k in candidates && 0 <= k < |cells| && ContainsPoint(cells[k], x, y)
  }

  /** Examining one more candidate keeps UnderMouse, whether the candidate is kept or not. */
  lemma UnderMouseStep(hovered: seq<int>, candidates: seq<int>, m: int, cells: seq<Rect>, x: real, y: real)
    requires 0 <= m < |candidates| && 0 <= candidates[m] < |cells|
    requires UnderMouse(hovered, candidates[..m], cells, x, y)
    ensures ContainsPoint(cells[candidates[m]], x, y) ==>
      UnderMouse(hovered + [candidates[m]], candidates[..m + 1], cells, x, y)
    ensures !ContainsPoint(cells[candidates[m]], x, y) ==>
      UnderMouse(hovered, candidates[..m + 1], cells, x, y)
  {
    assert candidates[..m + 1] == candidates[..m] + [candidates[m]];
  }

  /** The multiset of a prefix grows by the next element. */
  lemma PrefixMultiset(s: seq<int>, m: int)
    requires 0 <= m < |s|
    ensures multiset(s[..m + 1]) == multiset(s[..m]) + multiset{s[m]}
  {
    assert s[..m + 1] == s[..m] + [s[m]];
  }

  /** The state of main() between events: the cell table and the quadtree over it. */
  class Scene {
    var cells: seq<Rect>
    const tree: QuadtreeImpl.Quadtree
    const cellBounds: (int, int) -> Rect

    /**
     * The build loop has pushed its first `n` cells: the tree is a valid
     * window tree, Inv holds for the table, and the tree holds each index of
     * the table exactly once.
     */
    ghost predicate Built(n: int)
      reads this, tree, tree.Repr
    {
      && this !in tree.Repr
      && tree.Valid()
      && IsWindowTree(tree.Model)
      && Layout(cells, n, cellBounds)
      && Inv(tree.Model, cells)
      && HoldsEachOnce(tree.Model, n)
    }

    /** The state between events: the build loop has pushed every cell of the grid. */
    ghost predicate Valid()
      reads this, tree, tree.Repr
    {
      Built(NumCellsX * NumCellsY)
    }

    /** The start of main(): an empty cell table, a fresh tree over the window, then the build loop. */
    constructor (cellBounds: (int, int) -> Rect)
      ensures Valid() && fresh(tree.Repr)
    {
      this.cellBounds := cellBounds;
      cells := [];
      tree := new QuadtreeImpl.Quadtree(WindowBounds);
      new;
      Populate();
    }

    /**
     * The build loop: for each column and each row, push the cell and insert
     * its index, `cells.size() - 1`, into the tree.
     */
    method Populate()
      requires Built(0)
      modifies this, tree.Repr
      ensures Valid()
      ensures Extends(old(tree.Model), tree.Model)
      ensures old(tree.Repr) <= tree.Repr && fresh(tree.Repr - old(tree.Repr))
    {
      QuadtreeProps.ExtendsRefl(tree.Model);
      for i := 0 to NumCellsX
        invariant Built(i * NumCellsY)
        invariant old(tree.Repr) <= tree.Repr && fresh(tree.Repr - old(tree.Repr))
        invariant Extends(old(tree.Model), tree.Model)
      {
        for r := 0 to NumCellsY
          invariant Built(i * NumCellsY + r)
          invariant old(tree.Repr) <= tree.Repr && fresh(tree.Repr - old(tree.Repr))
          invariant Extends(old(tree.Model), tree.Model)
        {
          ghost var before := tree.Model;
          PushCell(i, r);
          QuadtreeProps.ExtendsTrans(old(tree.Model), before, tree.Model);
        }
      }
    }

    /** One step of the build loop: push the cell at column `i`, row `r`, and insert its index. */
    method PushCell(i: int, r: int)
      requires 0 <= i && 0 <= r < NumCellsY && Built(i * NumCellsY + r)
      modifies this, tree.Repr
      ensures Built(i * NumCellsY + r + 1)
      ensures old(tree.Repr) <= tree.Repr && fresh(tree.Repr - old(tree.Repr))
      ensures Extends(old(tree.Model), tree.Model)
    {
      var cell := cellBounds(i, r);
      LayoutPush(cells, i, r, cellBounds);
      ghost var before := tree.Model;
      InsertNext(before, cells, cell);
      cells := cells + [cell];
      tree.Insert(|cells| - 1, cells);
    }

    /**
     * The mouse-wheel handler's rebuild: clear the cell table and the tree's
     * indices, then run the build loop again. The tree keeps every split it
     * had, and ends up holding the same cell table as before.
     */
    method Rebuild()
      requires Valid()
      modifies this, tree.Repr
      ensures Valid() && cells == old(cells)
      ensures Extends(old(tree.Model), tree.Model)
      ensures old(tree.Repr) <= tree.Repr && fresh(tree.Repr - old(tree.Repr))
    {
      ghost var before := tree.Model;
      ghost var table := cells;
      cells := [];
      tree.Clear();
      ClearedStart(before);
      Populate();
      QuadtreeProps.ExtendsTrans(before, QuadtreeSpec.Clear(before), tree.Model);
      LayoutUnique(cells, table, NumCellsX * NumCellsY, cellBounds);
    }

    /**
     * One frame's hover test at mouse position (x, y): retrieve the
     * candidates for the one-by-one mouse rectangle, keep those whose
     * bounds contain the point, and compute the neighbours of each as
     * getNeighbors(rectIndex, numCellsX, numCellsY). Every cell the mouse
     * rectangle lies within is found, none twice, and every neighbour index
     * names a cell of the table.
     */
    method Hover(x: real, y: real) returns (hovered: seq<int>, neighbors: seq<seq<int>>)
      requires Valid()
      ensures UnderMouse(hovered, Retrieve(tree.Model, MouseRect(x, y)), cells, x, y)
      ensures forall a, b :: 0 <= a < b < |hovered| ==> hovered[a] != hovered[b]
      ensures forall k :: 0 <= k < |cells| && Within(MouseRect(x, y), cells[k]) ==> k in hovered
      ensures ListsNeighbors(hovered, neighbors, |cells|)
    {
      var closeRects := tree.Retrieve(MouseRect(x, y));
      forall p | 0 <= p < |closeRects|
        ensures 0 <= closeRects[p] < |cells|
      {
        RetrievedInRange(tree.Model, MouseRect(x, y), |cells|, closeRects[p]);
      }
      hovered, neighbors := [], [];
      for m := 0 to |closeRects|
        invariant UnderMouse(hovered, closeRects[..m], cells, x, y)
        invariant multiset(hovered) <= multiset(closeRects[..m])
        invariant ListsNeighbors(hovered, neighbors, |cells|)
      {
        var rectIndex := closeRects[m];
        UnderMouseStep(hovered, closeRects, m, cells, x, y);
        PrefixMultiset(closeRects, m);
        if ContainsPoint(cells[rectIndex], x, y) {
          var n := Grid.GetNeighbors(rectIndex, NumCellsX, NumCellsY);
          NeighborsInTable(rectIndex, n);
          ListsNeighborsPush(hovered, neighbors, |cells|, rectIndex, n);
          hovered, neighbors := hovered + [rectIndex], neighbors + [n];
        }
      }
      assert closeRects[..|closeRects|] == closeRects;
      RetrievedOnce(tree.Model, MouseRect(x, y), |cells|);
      Distinct(hovered, closeRects);
      forall k | 0 <= k < |cells| && Within(MouseRect(x, y), cells[k])
        ensures k in hovered
      {
        MouseInside(x, y, cells[k]);
        QuadtreeProps.RetrieveComplete(tree.Model, cells, k, MouseRect(x, y));
      }
    }
  }

  /** A sequence drawn at most once from each element of a duplicate-free source has no duplicates. */
  lemma Distinct(s: seq<int>, source: seq<int>)
    requires multiset(s) <= multiset(source)
    requires forall k :: multiset(source)[k] <= 1
    ensures forall a, b :: 0 <= a < b < |s| ==> s[a] != s[b]
  {
    forall a, b | 0 <= a < b < |s|
      ensures s[a] != s[b]
    {
      assert s == s[..a] + [s[a]] + s[a + 1..b] + [s[b]] + s[b + 1..];
      assert multiset{s[a], s[b]} <= multiset(source);
    }
  }
}
