/**
 * Axis-aligned rectangles and the quadrant test of the quadtree
 * (GameOfLife/Quadtree.cpp). Coordinates are reals. The tree's bounds come
 * from the 500x500 window by repeated halving, so its midlines are dyadic
 * fractions; the mouse point and float rounding of its sums are not modelled
 * exactly.
 */
module Geometry {

  /** sf::FloatRect: left edge, top edge, width and height. */
  datatype Rect = Rect(left: real, top: real, width: real, height: real)

  /** The x coordinate of the vertical line that splits `b` into left and right halves. */
  function VerticalMidpoint(b: Rect): real { b.left + b.width / 2.0 }

  /** The y coordinate of the horizontal line that splits `b` into top and bottom halves. */
  function HorizontalMidpoint(b: Rect): real { b.top + b.height / 2.0 }

  /** Both the left and the right edge of `r` are strictly left of the line x = m. */
  predicate FitsLeft(r: Rect, m: real) { r.left < m && r.left + r.width < m }

  /** The left edge of `r` is strictly right of the line x = m. */
  predicate FitsRight(r: Rect, m: real) { r.left > m }

  /** Both the top and the bottom edge of `r` are strictly above the line y = m. */
  predicate FitsTop(r: Rect, m: real) { r.top < m && r.top + r.height < m }

  /** The top edge of `r` is strictly below the line y = m. */
  predicate FitsBottom(r: Rect, m: real) { r.top > m }

  /** The closed extent [lo, lo + len] touches or crosses the line at m. */
  predicate Touches(lo: real, len: real, m: real) { lo <= m <= lo + len }

  /**
   * Quadtree::getIndex: the quadrant of `bounds` that `rect` fits in
   * (0 top-left, 1 top-right, 2 bottom-left, 3 bottom-right), or -1 when it
   * touches or crosses a midline. The cell table the source passes along is
   * never read and is not a parameter here.
   */
  function GetIndex(bounds: Rect, rect: Rect): (index: int)
    ensures -1 <= index <= 3
    ensures index == 0 <==> FitsLeft(rect, VerticalMidpoint(bounds)) && FitsTop(rect, HorizontalMidpoint(bounds))
    ensures index == 1 <==> FitsRight(rect, VerticalMidpoint(bounds)) && FitsTop(rect, HorizontalMidpoint(bounds))
    ensures index == 2 <==> FitsLeft(rect, VerticalMidpoint(bounds)) && FitsBottom(rect, HorizontalMidpoint(bounds))
    ensures index == 3 <==> FitsRight(rect, VerticalMidpoint(bounds)) && FitsBottom(rect, HorizontalMidpoint(bounds))
    ensures rect.width >= 0.0 && rect.height >= 0.0 ==>
      (index == -1 <==>
         Touches(rect.left, rect.width, VerticalMidpoint(bounds)) ||
         Touches(rect.top, rect.height, HorizontalMidpoint(bounds)))
  {
    var verticalMidpoint := bounds.left + bounds.width / 2.0;
    var horizontalMidpoint := bounds.top + bounds.height / 2.0;
    var topQuadrant := rect.top < horizontalMidpoint && rect.top + rect.height < horizontalMidpoint;
    var bottomQuadrant := rect.top > horizontalMidpoint;
    if rect.left < verticalMidpoint && rect.left + rect.width < verticalMidpoint then
      (if topQuadrant then 0 else if bottomQuadrant then 2 else -1)
    else if rect.left > verticalMidpoint then
      (if topQuadrant then 1 else if bottomQuadrant then 3 else -1)
    else
      -1
  }

  /**
   * The bounds Quadtree::split gives child `q`: half the parent's width and
   * height, placed top-left, top-right, bottom-left, bottom-right.
   */
  function Quadrant(b: Rect, q: int): (r: Rect)
    requires 0 <= q < 4
    ensures r.width == b.width / 2.0 && r.height == b.height / 2.0
    ensures b.width >= 0.0 && b.height >= 0.0 ==> Within(r, b)
    ensures b.width > 0.0 ==> ((q == 0 || q == 2) <==> r.left == b.left)
    ensures b.height > 0.0 ==> ((q == 0 || q == 1) <==> r.top == b.top)
  {
    var subWidth := b.width / 2.0;
    var subHeight := b.height / 2.0;
    if q == 0 then Rect(b.left, b.top, subWidth, subHeight)
    else if q == 1 then Rect(b.left + subWidth, b.top, subWidth, subHeight)
    else if q == 2 then Rect(b.left, b.top + subHeight, subWidth, subHeight)
    else Rect(b.left + subWidth, b.top + subHeight, subWidth, subHeight)
  }

  /** sf::FloatRect::contains of SFML 2: half-open on both axes, either sign of width and height. */
  predicate ContainsPoint(r: Rect, x: real, y: real): (b: bool)
    ensures r.width >= 0.0 && r.height >= 0.0 ==>
              (b <==> r.left <= x < r.left + r.width && r.top <= y < r.top + r.height)
    ensures b ==> r.width != 0.0 && r.height != 0.0
  {
    var minX := if r.width < 0.0 then r.left + r.width else r.left;
    var maxX := if r.width < 0.0 then r.left else r.left + r.width;
    var minY := if r.height < 0.0 then r.top + r.height else r.top;
    var maxY := if r.height < 0.0 then r.top else r.top + r.height;
    minX <= x < maxX && minY <= y < maxY
  }

  /** `inner` has no negative extent and lies inside `outer`, edges included. */
  predicate Within(inner: Rect, outer: Rect)
  {
    && inner.width >= 0.0 && inner.height >= 0.0
    && outer.left <= inner.left && inner.left + inner.width <= outer.left + outer.width
    && outer.top <= inner.top && inner.top + inner.height <= outer.top + outer.height
  }

  /** A query inside a classified rectangle is classified into the same quadrant. */
  lemma WithinSameQuadrant(bounds: Rect, query: Rect, cell: Rect)
    requires Within(query, cell)
    requires GetIndex(bounds, cell) != -1
    ensures GetIndex(bounds, query) == GetIndex(bounds, cell)
  {
  }

  /** A rectangle inside `b` that getIndex places in quadrant q lies inside split's child q. */
  lemma FitsQuadrant(b: Rect, r: Rect)
    requires Within(r, b)
    requires GetIndex(b, r) != -1
    ensures Within(r, Quadrant(b, GetIndex(b, r)))
  {
  }

  /** The four children of split tile the parent: every point of `b` lies in exactly one of them. */
  lemma QuadrantsTile(b: Rect, x: real, y: real)
    requires b.width > 0.0 && b.height > 0.0
    ensures forall q :: 0 <= q < 4 && ContainsPoint(Quadrant(b, q), x, y) ==> ContainsPoint(b, x, y)
    ensures ContainsPoint(b, x, y) ==> exists q :: 0 <= q < 4 && ContainsPoint(Quadrant(b, q), x, y)
    ensures forall p, q :: 0 <= p < q < 4 && ContainsPoint(Quadrant(b, p), x, y) ==> !ContainsPoint(Quadrant(b, q), x, y)
  {
    if ContainsPoint(b, x, y) {
      var q := (if x < VerticalMidpoint(b) then 0 else 1) + (if y < HorizontalMidpoint(b) then 0 else 2);
      assert ContainsPoint(Quadrant(b, q), x, y);
    }
  }
}
