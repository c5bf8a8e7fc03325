# GameOfLife quadtree and grid, in Dafny

GameOfLife is an SFML demo. Its window is covered by a 25 x 25 grid of square
cells. A quadtree over the window indexes the cells by their screen rectangles.
Every frame, the program asks the tree which cells may lie under the mouse. It
keeps the cells whose rectangle contains the mouse point and looks up the
Moore neighbours of each one.

This project models that logic and proves what it promises.

- **`Geometry`** (geometry.dfy): rectangles with real coordinates.
  - `Quadtree::getIndex`, the quadrant test against a node's two midlines.
  - The four child rectangles that `split` creates.
  - SFML's point-in-rectangle test.
- **`QuadtreeSpec`** (quadtree_spec.dfy): a quadtree node as a value (`Tree`).
  - `split`, `insert` (including its split-and-redistribute loop), `retrieve` and `clear` as functions on that value.
  - `Contents`, the multiset of stored indices.
  - `Inv`, the placement invariant that `insert` keeps.
- **`QuadtreeProps`** (quadtree_props.dfy): the properties of those functions.
  - No index is lost or duplicated, and depth is bounded.
  - Straddling indices stay at split nodes.
  - `retrieve` is sound, and complete for queries inside a stored cell.
  - A concrete example shows `retrieve` missing a cell when the query straddles a midline.
  - `clear` empties the tree but keeps every split.
- **`QuadtreeImpl`** (quadtree.dfy): the C++ `Quadtree` class, with its fields.
  - `nodes` holds four child references, all null or all set.
  - Its methods update the nodes in place.
  - Each method is proved to change the node's abstract `Tree` exactly as the matching `QuadtreeSpec` function does.
  - `insert` keeps the source's iterator loop, which erases moved indices from `objectIndices`.
- **`Grid`** (grid.dfy): the free functions of main.cpp.
  - `getIndex(row, col, width)`.
  - `getNeighbors`, with C++'s truncating `/` and `%` written out. It is proved against a reference definition of the neighbour relation.
- **`GameOfLife`** (scene.dfy): the state `main()` keeps between events.
  - The cell table and the tree.
  - The build loop and the mouse-wheel rebuild.
  - One frame's hover filter.

A cell's rectangle is what SFML reports for the cell's shape. This model takes
it as a parameter (`cellBounds`, given column and row), not as SFML's own
computation.

## Model

| member | source | states |
|---|---|---|
| Geometry.GetIndex | GameOfLife/Quadtree.cpp:35-56 | The result is one of -1..3. It is 0/1/2/3 exactly when the rectangle lies strictly left or right of the vertical midpoint and strictly above or below the horizontal one. For a rectangle with non-negative size, it is -1 exactly when the rectangle touches or crosses a midline. |
| Geometry.Quadrant | GameOfLife/Quadtree.cpp:25-32 | The bounds split gives child q: half the parent's width and height, inside the parent when its size is non-negative, on the left edge exactly for q = 0 and 2 and on the top edge exactly for q = 0 and 1 (for positive size). |
| Geometry.ContainsPoint | GameOfLife/main.cpp:250 | SFML's point test: for a rectangle of non-negative size it holds exactly when left <= x < left + width and top <= y < top + height; a rectangle with zero width or height contains no point. |
| Geometry.WithinSameQuadrant | GameOfLife/Quadtree.cpp:35-56 | A query rectangle inside a cell rectangle that getIndex puts in a quadrant is put in the same quadrant. |
| Geometry.FitsQuadrant | GameOfLife/Quadtree.cpp:25-56 | A rectangle inside the bounds that getIndex puts in quadrant q lies inside split's child q. |
| Geometry.QuadrantsTile | GameOfLife/Quadtree.cpp:25-33 | The four child rectangles of split tile the parent: every point of the parent lies in exactly one of them, and no child point lies outside it. |
| QuadtreeSpec.Overflows | GameOfLife/Quadtree.cpp:69 | The `size() > maxObjects` test in std::size_t: for a non-negative maxObjects it is the plain comparison; a negative maxObjects wraps to nearly 2^64, so no list shorter than 2^63 overflows. |
| QuadtreeSpec.Split | GameOfLife/Quadtree.cpp:25-33 | Split keeps the node's header and indices. It gives the node four children, each empty and childless, in the shape WellFormed demands: quadrant q of the bounds, level + 1, and the parent's limits. |
| QuadtreeSpec.Insert | GameOfLife/Quadtree.cpp:58-86 | Insert keeps the tree well-formed, keeps the node's bounds, level and limits, and keeps every stored index inside the cell table. |
| QuadtreeSpec.Retrieve | GameOfLife/Quadtree.cpp:88-101 | The result holds every index the node itself stores (as a multiset), and it is exactly the node's own indices when the query touches a midline or the node has no children. |
| QuadtreeSpec.Clear | GameOfLife/Quadtree.cpp:16-23 | clear keeps the node's header and its number of children, and leaves the node holding no index. |
| QuadtreeSpec.Spread | GameOfLife/Quadtree.cpp:69-73 | The node about to redistribute has four children (split only when it had none), no held indices, and the same header. |
| QuadtreeSpec.PushDown | GameOfLife/Quadtree.cpp:74-84 | The redistribution loop keeps the tree well-formed, keeps the header and the four children, and keeps indices inside the table. |
| QuadtreeSpec.Place | GameOfLife/Quadtree.cpp:75-83 | One loop iteration keeps the tree well-formed, with the same header and four children. |
| QuadtreeProps.InsertContents | GameOfLife/Quadtree.cpp:58-86 | insert(i) adds exactly one occurrence of i to the multiset of indices stored in the tree. |
| QuadtreeProps.PushDownContents | GameOfLife/Quadtree.cpp:74-84 | The redistribution loop adds exactly the indices it walks over: moving one into a child and erasing it neither drops nor duplicates it. |
| QuadtreeProps.PlaceContents | GameOfLife/Quadtree.cpp:75-83 | One loop iteration stores the index exactly once more, either in a child or kept at the node. |
| QuadtreeProps.SpreadContents | GameOfLife/Quadtree.cpp:69-73 | Getting ready to redistribute takes out the held indices and adds none. |
| QuadtreeProps.InsertKeepsInv | GameOfLife/Quadtree.cpp:58-86 | insert keeps Inv: every index held at a split node straddles its midlines, every index under child q fits quadrant q, and a childless node over maxObjects is at level maxLevels or deeper. |
| QuadtreeProps.PushDownKeepsInv | GameOfLife/Quadtree.cpp:74-84 | The redistribution loop keeps Inv. |
| QuadtreeProps.PlaceKeepsInv | GameOfLife/Quadtree.cpp:75-83 | One loop iteration keeps Inv: a kept index straddles, and a moved one fits its child. |
| QuadtreeProps.InsertExtends | GameOfLife/Quadtree.cpp:58-86 | insert never removes a child: the new tree has every child the old one had, with the same header. |
| QuadtreeProps.PushDownExtends | GameOfLife/Quadtree.cpp:74-84 | The redistribution loop never removes a child. |
| QuadtreeProps.DepthBound | GameOfLife/Quadtree.cpp:69-72 | In a well-formed tree no node is deeper than maxLevels (or than the root, if the root starts deeper), because a node splits only below maxLevels. |
| QuadtreeProps.RetrieveSound | GameOfLife/Quadtree.cpp:88-101 | retrieve returns only stored indices, each at most as often as it is stored. |
| QuadtreeProps.RetrieveComplete | GameOfLife/Quadtree.cpp:58-101 | If Inv holds, a query lying inside the rectangle of a stored cell finds that cell's index. |
| QuadtreeProps.RetrieveStraddling | GameOfLife/Quadtree.cpp:88-101 | When the query touches a midline or the node has no children, retrieve returns exactly the node's own indices. |
| QuadtreeProps.StraddlingQueryMissesChild | GameOfLife/Quadtree.cpp:88-101 | A concrete valid tree and query: the query overlaps stored cell 0 at a common point but crosses the root's vertical midline, and retrieve does not return 0. |
| QuadtreeProps.ClearEmpties | GameOfLife/Quadtree.cpp:16-23 | After clear no index is stored anywhere, and retrieve of any rectangle returns nothing. |
| QuadtreeProps.ClearKeepsShape | GameOfLife/Quadtree.cpp:16-23 | clear keeps exactly the old split structure (Extends both ways) and keeps the tree well-formed. |
| QuadtreeProps.ClearedInv | GameOfLife/Quadtree.cpp:16-23 | A cleared tree satisfies Inv for any cell table. |
| QuadtreeProps.InvAppend | GameOfLife/main.cpp:175-176 | Pushing more cells onto the table keeps Inv. |
| QuadtreeImpl.Quadtree.constructor | GameOfLife/Quadtree.cpp:3-8 | A new node has the given bounds, level 0, maxObjects 4 and maxLevels 5 by default (GameOfLife/Quadtree.hpp:17), no indices and four null children. |
| QuadtreeImpl.Quadtree.Split | GameOfLife/Quadtree.cpp:25-33 | The node's four child slots are filled with fresh nodes, and its abstract tree becomes QuadtreeSpec.Split of the old one. |
| QuadtreeImpl.Quadtree.Insert | GameOfLife/Quadtree.cpp:58-86 | Delegating to a child, appending, splitting, and the iterator loop that inserts fitting indices into children and erases them: the node's abstract tree becomes QuadtreeSpec.Insert of the old one, and only fresh nodes are added. |
| QuadtreeImpl.Quadtree.Retrieve | GameOfLife/Quadtree.cpp:88-101 | Changes nothing and returns QuadtreeSpec.Retrieve of the node's tree: the chosen child's result, then the node's own indices. |
| QuadtreeImpl.Quadtree.Clear | GameOfLife/Quadtree.cpp:16-23 | Empties every node's indices in place, and the abstract tree becomes QuadtreeSpec.Clear of the old one. |
| Grid.TruncDiv | GameOfLife/main.cpp:139 | C++ `/` on int: the remainder is smaller than the divisor in absolute value and has the dividend's sign, and it agrees with Euclidean division on non-negative operands. |
| Grid.TruncMod | GameOfLife/main.cpp:140 | C++ `%` on int: index == width * (index / width) + index % width, with the remainder smaller than the divisor and signed like the dividend. |
| Grid.GetIndex | GameOfLife/main.cpp:134-136 | For 0 <= col < width and row >= 0, the cell number lies in row's block: row * width <= getIndex < (row + 1) * width. |
| Grid.GetIndexRoundTrip | GameOfLife/main.cpp:134-140 | For 0 <= col < width and row >= 0, dividing getIndex(row, col, width) by width gives back row, and the remainder gives back col. |
| Grid.GetNeighbors | GameOfLife/main.cpp:138-159 | The result holds exactly the numbers of the cells, other than the given one, within one row and one column of it on the width x height grid. It is strictly increasing, and its length is the clipped 3 x 3 count less the cell itself. |
| Grid.ScanComplete | GameOfLife/main.cpp:144-156 | The dr-outer, dc-inner scan collects exactly the neighbours, in increasing order, and as many as NeighborCount says. |
| Grid.AtMostEight | GameOfLife/main.cpp:144-156 | No cell has more than eight neighbours. |
| Grid.CornerEdgeInterior | GameOfLife/main.cpp:144-156 | On a grid at least 2 x 2, a corner cell has 3 neighbours, another edge cell 5, and an interior cell 8. |
| Grid.NotOwnNeighbor | GameOfLife/main.cpp:146 | A cell is never its own neighbour. |
| Grid.NeighborInGrid | GameOfLife/main.cpp:148-153 | Every neighbour of a cell numbered in [0, width * height) is another number in that range, at most one row and one column away. |
| Grid.NeighborSymmetric | GameOfLife/main.cpp:138-159 | j is a neighbour of i exactly when i is a neighbour of j, for cells of the grid. |
| GameOfLife.InsertNext | GameOfLife/main.cpp:175-176 | Inserting the index of the cell just pushed keeps Inv for the longer table, stores that index exactly once, and removes no split. |
| GameOfLife.ClearedStart | GameOfLife/main.cpp:214-215 | Clearing the window tree leaves it empty, with Inv and the old splits: the state the build loop starts from. |
| GameOfLife.RetrievedOnce | GameOfLife/main.cpp:241 | When the tree holds each index once, retrieve returns no index twice. |
| GameOfLife.Scene.constructor | GameOfLife/main.cpp:165-178 | The program's start: a tree over the 500 x 500 window with default limits, then the build loop. The scene satisfies Valid afterwards. |
| GameOfLife.Scene.Populate | GameOfLife/main.cpp:168-178 | The build loop over numCellsX = 500 / 20 columns and numCellsY rows. Afterwards entry k of the table is the cell at column k / 25 and row k % 25, and the tree holds each index 0 .. 624 exactly once and nothing else. Inv holds, and no earlier split is lost. |
| GameOfLife.Scene.PushCell | GameOfLife/main.cpp:173-176 | One step of the build loop: the table gains the next cell, and the tree gains its index exactly once. |
| GameOfLife.Scene.Rebuild | GameOfLife/main.cpp:214-224 | The mouse-wheel rebuild: clear the table and the tree, then repeat the build loop. The table ends up equal to the old one, Valid holds again, and the tree keeps every split it had. |
| GameOfLife.Scene.Hover | GameOfLife/main.cpp:241-259 | The hovered cells are exactly the retrieved candidates whose bounds contain the mouse point, with no cell listed twice. Every cell the 1 x 1 mouse rectangle lies within is among them. Each gets its getNeighbors list: exactly its neighbours, in ascending order, as many as NeighborCount gives, and every entry another cell of the table, so coloring cells[i] for those entries stays in range. |
| GameOfLife.Distinct | GameOfLife/main.cpp:249-250 | Filtering a duplicate-free candidate list yields a duplicate-free list. |

## Left out

- SFML itself is not part of this model: window, event loop, view zoom/pan/resize, drawing, fill colors and `std::cout` logging. Hover returns the hovered cells and their neighbour lists instead of coloring them.
- The `Cell` class (GameOfLife/Cell.hpp, GameOfLife/Cell.cpp) is not part of this model. The rectangle SFML's `getGlobalBounds` reports for a cell is the parameter `cellBounds`. Its exact extent, including the outline thickness, is library behaviour.
- The mouse position (`mapPixelToCoords`) is a parameter of Hover.
- Floats are modelled as Dafny reals. The tree's bounds come from the 500 x 500 window by repeated halving, so every midline is a dyadic fraction exact in `float`.
- The mouse point `(x, y)` of Hover is any real. It comes from `mapPixelToCoords` over a zoomed and moved view, so in the program it is an arbitrary float, and the float rounding of `x + 1` in getIndex's right and bottom edges is not modelled.
- Raw pointers, `new`/`delete` and the destructor are not modelled. Child nodes are Dafny objects, owned through a `Repr` footprint.
- The inline copy of the `Quadtree` class in main.cpp (lines 24-132) is modelled once, by the same classes and functions.
- The `cells` parameter of `getIndex` and `retrieve` is never read by the source and is not a parameter here.
- QuadtreeImpl.Quadtree.Split: requires a childless node below maxLevels, the only way `insert` calls it. A second call on a split node would leak the old children.
- Grid.GetIndex and Grid.GetNeighbors: `int` overflow of `row * width + col` is not modelled (integers are unbounded). On the 25 x 25 grid every value is below 700.
- Grid.GetNeighbors is modelled on its own arithmetic. The build loop numbers cells column first (`i * numCellsY + r`), while getNeighbors reads a number as row-major. The model claims no screen adjacency beyond that arithmetic.
- The Conway step rule and `Cell::isAlive` are not modelled: the source never reads or writes them.
