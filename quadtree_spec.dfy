/**
 * The quadtree of GameOfLife/Quadtree.cpp as a value: a node is its bounds,
 * its level and limits, the cell indices it holds itself, and either no
 * children or four. The class in quadtree.dfy keeps such a value as the
 * abstract state of each node object and is proved to update it exactly as
 * Insert, Clear and Split below do.
 *
 * Cells are known only through a table `cells` of rectangles indexed by cell
 * number (the bounds SFML reports for each cell shape).
 */
module QuadtreeSpec {
  import opened Geometry

  /** C++ `int`. */
  type Int32 = x: int | -0x8000_0000 <= x < 0x8000_0000

  /** One more than the largest std::size_t (64 bits). */
  const SizeRange: int := 0x1_0000_0000_0000_0000

  /**
   * `objectIndices.size() > maxObjects`. The comparison is done in std::size_t,
   * so a negative maxObjects is first converted to 2^64 + maxObjects.
   */
  predicate Overflows(size: nat, maxObjects: Int32): (b: bool)
    ensures maxObjects >= 0 ==> (b <==> size > maxObjects)
    ensures maxObjects < 0 && size < 0x8000_0000_0000_0000 ==> !b
  {
    size > (if maxObjects >= 0 then maxObjects else SizeRange + maxObjects)
  }

  /**
   * One quadtree node. `nodes` is empty when the C++ node's four child
   * pointers are null, and holds the four children otherwise.
   */
  datatype Tree = Node(
    bounds: Rect,
    level: Int32,
    maxObjects: Int32,
    maxLevels: Int32,
    objects: seq<int>,
    nodes: seq<Tree>)

  /** A freshly constructed node: no indices, no children. */
  function Empty(bounds: Rect, level: Int32, maxObjects: Int32, maxLevels: Int32): Tree
  {
    Node(bounds, level, maxObjects, maxLevels, [], [])
  }

  /** The fields fixed at construction are equal. */
  predicate SameHeader(a: Tree, b: Tree)
  {
    a.bounds == b.bounds && a.level == b.level && a.maxObjects == b.maxObjects && a.maxLevels == b.maxLevels
  }

  /** Child `q` of `t` is what split creates in slot `q`, apart from the indices it holds. */
  predicate IsChild(t: Tree, q: int)
    requires 0 <= q < |t.nodes|
  {
    var c := t.nodes[q];
    && q < 4
    && c.bounds == Quadrant(t.bounds, q)
    && c.level == t.level + 1
    && c.maxObjects == t.maxObjects
    && c.maxLevels == t.maxLevels
  }

  /**
   * The shape split produces: every node has zero or four children, a node
   * has children only if its level is below maxLevels, and child q covers
   * quadrant q one level down with the parent's limits.
   */
  ghost predicate WellFormed(t: Tree)
    decreases t
  {
    && (|t.nodes| == 0 || |t.nodes| == 4)
    && (|t.nodes| == 4 ==>
          && t.level < t.maxLevels
          && forall q :: 0 <= q < 4 ==> IsChild(t, q) && WellFormed(t.nodes[q]))
  }

  /** The multiset of cell indices stored anywhere in the tree. */
  ghost function Contents(t: Tree): multiset<int>
    decreases t
  {
    multiset(t.objects) +
    if |t.nodes| == 4 then
      Contents(t.nodes[0]) + Contents(t.nodes[1]) + Contents(t.nodes[2]) + Contents(t.nodes[3])
    else
      multiset{}
  }

  /** Every stored index names a cell of a table with `n` cells. */
  ghost predicate AllIn(t: Tree, n: int)
    decreases t
  {
    && (forall x :: x in t.objects ==> 0 <= x < n)
    && (|t.nodes| == 4 ==> forall q :: 0 <= q < 4 ==> AllIn(t.nodes[q], n))
  }

  /** Decreases with each level gained below maxLevels; bounds the recursion of Insert. */
  function Rank(t: Tree): nat
  {
    if t.level < t.maxLevels then t.maxLevels - t.level else 0
  }

  /** Quadtree::split: four empty children covering the four quadrants of the bounds. */
  function Split(t: Tree): (r: Tree)
    requires |t.nodes| == 0 && t.level < t.maxLevels
    ensures WellFormed(r) && SameHeader(r, t) && r.objects == t.objects && |r.nodes| == 4
    ensures forall q :: 0 <= q < 4 ==> r.nodes[q].objects == [] && r.nodes[q].nodes == []
  {
    var b, l, mo, ml := t.bounds, t.level + 1, t.maxObjects, t.maxLevels;
    t.(nodes := [Empty(Quadrant(b, 0), l, mo, ml), Empty(Quadrant(b, 1), l, mo, ml),
                 Empty(Quadrant(b, 2), l, mo, ml), Empty(Quadrant(b, 3), l, mo, ml)])
  }

  /**
   * Quadtree::insert: hand the index to the child whose quadrant the cell fits,
   * or keep it here; on overflow below maxLevels split (once) and push every
   * held index that fits a quadrant down into that child.
   */
  function Insert(t: Tree, i: int, cells: seq<Rect>): (r: Tree)
    requires WellFormed(t) && AllIn(t, |cells|) && 0 <= i < |cells|
    ensures WellFormed(r) && SameHeader(r, t) && AllIn(r, |cells|)
    decreases Rank(t), 1, 0
  {
    if |t.nodes| == 4 && GetIndex(t.bounds, cells[i]) != -1 then
      var q := GetIndex(t.bounds, cells[i]);
      var c := Insert(t.nodes[q], i, cells);
      ReplaceChild(t, q, c, |cells|);
      t.(nodes := t.nodes[q := c])
    else
      var held := t.objects + [i];
      ReplaceObjects(t, held, |cells|);
      if Overflows(|held|, t.maxObjects) && t.level < t.maxLevels then
        PushDown(Spread(t), held, cells)
      else
        t.(objects := held)
  }

  /** The node about to redistribute: split if it has no children yet, and no indices held. */
  function Spread(t: Tree): (s: Tree)
    requires WellFormed(t) && t.level < t.maxLevels
    ensures WellFormed(s) && SameHeader(s, t) && |s.nodes| == 4 && s.objects == []
    ensures forall n :: AllIn(t, n) ==> AllIn(s, n)
  {
    ReplaceObjects(t, [], 0);
    forall n | AllIn(t, n)
      ensures AllIn(t.(objects := []), n)
    {
      ReplaceObjects(t, [], n);
    }
    if |t.nodes| == 0 then Split(t.(objects := [])) else t.(objects := [])
  }

  /**
   * The redistribution loop of Quadtree::insert, one held index at a time from
   * the front: `s.objects` are the indices already kept (they straddle),
   * `rest` those not yet looked at.
   */
  function PushDown(s: Tree, rest: seq<int>, cells: seq<Rect>): (r: Tree)
    requires WellFormed(s) && |s.nodes| == 4 && AllIn(s, |cells|)
    requires forall x :: x in rest ==> 0 <= x < |cells|
    ensures WellFormed(r) && SameHeader(r, s) && |r.nodes| == 4 && AllIn(r, |cells|)
    decreases Rank(s), 0, |rest|
  {
    if rest == [] then
      s
    else
      assert rest[0] in rest && forall y :: y in rest[1..] ==> y in rest;
      PushDown(Place(s, rest[0], cells), rest[1..], cells)
  }

  /** One iteration of the loop: a fitting index goes to its child, a straddling one is kept. */
  function Place(s: Tree, x: int, cells: seq<Rect>): (r: Tree)
    requires WellFormed(s) && |s.nodes| == 4 && AllIn(s, |cells|) && 0 <= x < |cells|
    ensures WellFormed(r) && SameHeader(r, s) && |r.nodes| == 4 && AllIn(r, |cells|)
    decreases Rank(s), 0, 0
  {
    var q := GetIndex(s.bounds, cells[x]);
    if q != -1 then
      var c := Insert(s.nodes[q], x, cells);
      ReplaceChild(s, q, c, |cells|);
      s.(nodes := s.nodes[q := c])
    else
      ReplaceObjects(s, s.objects + [x], |cells|);
      s.(objects := s.objects + [x])
  }

  /** Replacing a child by a well-formed node with the same header keeps the tree well-formed. */
  lemma ReplaceChild(t: Tree, q: int, c: Tree, n: int)
    requires WellFormed(t) && |t.nodes| == 4 && 0 <= q < 4
    requires WellFormed(c) && SameHeader(c, t.nodes[q])
    ensures WellFormed(t.(nodes := t.nodes[q := c]))
    ensures AllIn(t, n) && AllIn(c, n) ==> AllIn(t.(nodes := t.nodes[q := c]), n)
  {
    var u := t.(nodes := t.nodes[q := c]);
    forall p | 0 <= p < 4
      ensures IsChild(u, p) && WellFormed(u.nodes[p])
    {
      assert IsChild(t, p);
    }
  }

  /** The held indices take no part in the shape. */
  lemma ReplaceObjects(t: Tree, xs: seq<int>, n: int)
    requires WellFormed(t)
    ensures WellFormed(t.(objects := xs))
    ensures AllIn(t, n) && (forall x :: x in xs ==> x in t.objects || 0 <= x < n) ==> AllIn(t.(objects := xs), n)
  {
    var u := t.(objects := xs);
    if |t.nodes| == 4 {
      forall p | 0 <= p < 4
        ensures IsChild(u, p) && WellFormed(u.nodes[p])
      {
        assert IsChild(t, p);
      }
    }
  }

  /** Quadtree::retrieve: the chosen child's result, then this node's own indices. */
  function Retrieve(t: Tree, rect: Rect): (result: seq<int>)
    ensures multiset(t.objects) <= multiset(result)
    ensures GetIndex(t.bounds, rect) == -1 || |t.nodes| != 4 ==> result == t.objects
    decreases t
  {
    var index := GetIndex(t.bounds, rect);
    (if index != -1 && |t.nodes| == 4 then Retrieve(t.nodes[index], rect) else []) + t.objects
  }

  /** Quadtree::clear: empties every node and keeps every child. */
  function Clear(t: Tree): (r: Tree)
    ensures SameHeader(r, t) && r.objects == [] && |r.nodes| == |t.nodes|
    decreases t
  {
    t.(objects := [], nodes := seq(|t.nodes|, k requires 0 <= k < |t.nodes| => Clear(t.nodes[k])))
  }

  /**
   * What insert keeps true of a tree built over the cell table `cells`:
   * every held index names a cell; a childless node holds more than
   * maxObjects indices only at level maxLevels or deeper; at a node with
   * children every held index straddles a midline, and every index stored
   * under child q fits quadrant q of the node.
   */
  ghost predicate Inv(t: Tree, cells: seq<Rect>)
    decreases t
  {
    && (forall x :: x in t.objects ==> 0 <= x < |cells|)
    && (|t.nodes| == 0 && Overflows(|t.objects|, t.maxObjects) ==> t.level >= t.maxLevels)
    && (|t.nodes| == 4 ==>
          && (forall x :: x in t.objects ==> GetIndex(t.bounds, cells[x]) == -1)
          && forall q :: 0 <= q < 4 ==> Inv(t.nodes[q], cells) && Placed(t, q, cells))
  }

  /** Every index stored under child `q` of `t` is a cell that getIndex puts in quadrant `q`. */
  ghost predicate Placed(t: Tree, q: int, cells: seq<Rect>)
    requires 0 <= q < |t.nodes|
  {
    forall x :: x in Contents(t.nodes[q]) ==> 0 <= x < |cells| && GetIndex(t.bounds, cells[x]) == q
  }

  /** `b` has `a`'s fixed fields, and at least every child `a` has (splits are never undone). */
  ghost predicate Extends(a: Tree, b: Tree)
    decreases a
  {
    && SameHeader(a, b)
    && (|a.nodes| == 4 ==>
          && |b.nodes| == 4
          && forall q :: 0 <= q < 4 ==> Extends(a.nodes[q], b.nodes[q]))
  }

  /** No node of `t` has a level above `m`. */
  ghost predicate LevelsAtMost(t: Tree, m: int)
    decreases t
  {
    && t.level <= m
    && forall k :: 0 <= k < |t.nodes| ==> LevelsAtMost(t.nodes[k], m)
  }
}
