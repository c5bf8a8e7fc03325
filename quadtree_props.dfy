/**
 * Properties of the quadtree of GameOfLife/Quadtree.cpp, proved about the
 * value model in QuadtreeSpec: insert neither loses nor duplicates an index
 * and keeps the placement invariant, splits are permanent and bounded by
 * maxLevels, retrieve returns only stored indices and finds every cell that
 * contains the query, and clear empties the tree but keeps its shape.
 */
module QuadtreeProps {
  import opened Geometry
  import opened QuadtreeSpec

  // ----- bookkeeping about one-node updates -----

  /** Contents after replacing child `q` by `c`. */
  lemma ContentsWithChild(t: Tree, q: int, c: Tree)
    requires |t.nodes| == 4 && 0 <= q < 4
    ensures Contents(t.(nodes := t.nodes[q := c])) + Contents(t.nodes[q]) == Contents(t) + Contents(c)
  {
    var u := t.(nodes := t.nodes[q := c]);
    var k0, k1, k2, k3 := Contents(t.nodes[0]), Contents(t.nodes[1]), Contents(t.nodes[2]), Contents(t.nodes[3]);
    assert Contents(t) == multiset(t.objects) + (k0 + k1 + k2 + k3);
    assert Contents(u) == multiset(u.objects) + (Contents(u.nodes[0]) + Contents(u.nodes[1]) + Contents(u.nodes[2]) + Contents(u.nodes[3]));
  }

  /** Contents after replacing the held indices by `xs`. */
  lemma ContentsWithObjects(t: Tree, xs: seq<int>)
    ensures Contents(t.(objects := xs)) + multiset(t.objects) == Contents(t) + multiset(xs)
  {
  }

  /** Multiset cancellation: if `a + b == c + (b + {x})` then `a == c + {x}`. */
  lemma Cancel(a: multiset<int>, b: multiset<int>, c: multiset<int>, x: int)
    requires a + b == c + (b + multiset{x})
    ensures a == c + multiset{x}
  {
    forall y
      ensures a[y] == (c + multiset{x})[y]
    {
      assert (a + b)[y] == (c + (b + multiset{x}))[y];
    }
  }

  /** Every node of a tree is related to itself by Extends. */
  lemma {:induction false} ExtendsRefl(t: Tree)
    ensures Extends(t, t)
    decreases t
  {
    if |t.nodes| == 4 {
      forall q | 0 <= q < 4
        ensures Extends(t.nodes[q], t.nodes[q])
      {
        ExtendsRefl(t.nodes[q]);
      }
    }
  }

  /** Extends is transitive. */
  lemma {:induction false} ExtendsTrans(a: Tree, b: Tree, c: Tree)
    requires Extends(a, b) && Extends(b, c)
    ensures Extends(a, c)
    decreases a
  {
    if |a.nodes| == 4 {
      forall q | 0 <= q < 4
        ensures Extends(a.nodes[q], c.nodes[q])
      {
        ExtendsTrans(a.nodes[q], b.nodes[q], c.nodes[q]);
      }
    }
  }

  /** Replacing the held indices or one child by an extension of it extends the node. */
  lemma ExtendsWithChild(t: Tree, q: int, c: Tree)
    requires |t.nodes| == 4 && 0 <= q < 4 && Extends(t.nodes[q], c)
    ensures Extends(t, t.(nodes := t.nodes[q := c]))
  {
    forall p | 0 <= p < 4 && p != q
      ensures Extends(t.nodes[p], t.nodes[p])
    {
      ExtendsRefl(t.nodes[p]);
    }
  }

  /** Replacing the held indices changes nothing Extends looks at. */
  lemma ExtendsWithObjects(t: Tree, xs: seq<int>)
    ensures Extends(t, t.(objects := xs))
  {
    ExtendsRefl(t);
  }

  // ----- insert: no index lost or duplicated -----

  /** Getting ready to redistribute takes the held indices out and adds none. */
  lemma SpreadContents(t: Tree)
    requires WellFormed(t) && t.level < t.maxLevels
    ensures Contents(Spread(t)) + multiset(t.objects) == Contents(t)
  {
    ContentsWithObjects(t, []);
    if |t.nodes| == 0 {
      var s := Spread(t);
      assert forall q :: 0 <= q < 4 ==> Contents(s.nodes[q]) == multiset{};
    }
  }

  /** Quadtree::insert adds exactly one occurrence of `i` to the indices stored in the tree. */
  lemma {:induction false} InsertContents(t: Tree, i: int, cells: seq<Rect>)
    requires WellFormed(t) && AllIn(t, |cells|) && 0 <= i < |cells|
    ensures Contents(Insert(t, i, cells)) == Contents(t) + multiset{i}
    decreases Rank(t), 1, 0
  {
    if |t.nodes| == 4 && GetIndex(t.bounds, cells[i]) != -1 {
      var q := GetIndex(t.bounds, cells[i]);
      InsertContents(t.nodes[q], i, cells);
      InsertContentsDescend(t, q, i, cells);
    } else {
      var held := t.objects + [i];
      if Overflows(|held|, t.maxObjects) && t.level < t.maxLevels {
        PushDownContents(Spread(t), held, cells);
        InsertContentsSpread(t, i, cells);
      } else {
        ContentsWithObjects(t, held);
      }
    }
  }

  /** Insert's descent into child `q` adds `i` to the node if it adds `i` to the child. */
  lemma InsertContentsDescend(t: Tree, q: int, i: int, cells: seq<Rect>)
    requires WellFormed(t) && AllIn(t, |cells|) && 0 <= i < |cells|
    requires |t.nodes| == 4 && q == GetIndex(t.bounds, cells[i]) && q != -1
    requires Contents(Insert(t.nodes[q], i, cells)) == Contents(t.nodes[q]) + multiset{i}
    ensures Contents(Insert(t, i, cells)) == Contents(t) + multiset{i}
  {
    var c := Insert(t.nodes[q], i, cells);
    assert Insert(t, i, cells) == t.(nodes := t.nodes[q := c]);
    ContentsWithChild(t, q, c);
    Cancel(Contents(t.(nodes := t.nodes[q := c])), Contents(t.nodes[q]), Contents(t), i);
  }

  /** Insert's split-and-redistribute branch adds `i` if the loop adds what it is given. */
  lemma InsertContentsSpread(t: Tree, i: int, cells: seq<Rect>)
    requires WellFormed(t) && AllIn(t, |cells|) && 0 <= i < |cells|
    requires !(|t.nodes| == 4 && GetIndex(t.bounds, cells[i]) != -1)
    requires Overflows(|t.objects| + 1, t.maxObjects) && t.level < t.maxLevels
    requires Contents(PushDown(Spread(t), t.objects + [i], cells)) == Contents(Spread(t)) + multiset(t.objects + [i])
    ensures Contents(Insert(t, i, cells)) == Contents(t) + multiset{i}
  {
    assert Insert(t, i, cells) == PushDown(Spread(t), t.objects + [i], cells);
    SpreadContents(t);
    Regroup(Contents(PushDown(Spread(t), t.objects + [i], cells)), Contents(Spread(t)), Contents(t), t.objects, i);
  }

  /** Multiset regrouping: `a == b + multiset(xs + [x])` and `b + multiset(xs) == c` give `a == c + {x}`. */
  lemma Regroup(a: multiset<int>, b: multiset<int>, c: multiset<int>, xs: seq<int>, x: int)
    requires a == b + multiset(xs + [x]) && b + multiset(xs) == c
    ensures a == c + multiset{x}
  {
    assert multiset(xs + [x]) == multiset(xs) + multiset{x};
  }

  /** The redistribution loop moves indices into children or keeps them, dropping and duplicating none. */
  lemma {:induction false} PushDownContents(s: Tree, rest: seq<int>, cells: seq<Rect>)
    requires WellFormed(s) && |s.nodes| == 4 && AllIn(s, |cells|)
    requires forall x :: x in rest ==> 0 <= x < |cells|
    ensures Contents(PushDown(s, rest, cells)) == Contents(s) + multiset(rest)
    decreases Rank(s), 0, |rest|
  {
    if rest != [] {
      assert rest == [rest[0]] + rest[1..];
      assert rest[0] in rest && forall y :: y in rest[1..] ==> y in rest;
      var p := Place(s, rest[0], cells);
      assert PushDown(s, rest, cells) == PushDown(p, rest[1..], cells);
      PlaceContents(s, rest[0], cells);
      PushDownContents(p, rest[1..], cells);
      assert multiset(rest) == multiset{rest[0]} + multiset(rest[1..]);
    }
  }

  /** One iteration of the loop stores `x` exactly once more. */
  lemma {:induction false} PlaceContents(s: Tree, x: int, cells: seq<Rect>)
    requires WellFormed(s) && |s.nodes| == 4 && AllIn(s, |cells|) && 0 <= x < |cells|
    ensures Contents(Place(s, x, cells)) == Contents(s) + multiset{x}
    decreases Rank(s), 0, 0
  {
    var q := GetIndex(s.bounds, cells[x]);
    if q != -1 {
      var c := Insert(s.nodes[q], x, cells);
      assert Place(s, x, cells) == s.(nodes := s.nodes[q := c]);
      InsertContents(s.nodes[q], x, cells);
      ContentsWithChild(s, q, c);
      Cancel(Contents(Place(s, x, cells)), Contents(s.nodes[q]), Contents(s), x);
    } else {
      assert Place(s, x, cells) == s.(objects := s.objects + [x]);
      ContentsWithObjects(s, s.objects + [x]);
    }
  }

  // ----- insert: the placement invariant -----

  /** Replacing child `q` by a node whose indices all fit quadrant `q` keeps the invariant. */
  lemma InvWithChild(t: Tree, q: int, c: Tree, cells: seq<Rect>)
    requires Inv(t, cells) && |t.nodes| == 4 && 0 <= q < 4 && Inv(c, cells)
    requires forall x :: x in Contents(c) ==> 0 <= x < |cells| && GetIndex(t.bounds, cells[x]) == q
    ensures Inv(t.(nodes := t.nodes[q := c]), cells)
  {
    var u := t.(nodes := t.nodes[q := c]);
    forall p | 0 <= p < 4
      ensures Inv(u.nodes[p], cells) && Placed(u, p, cells)
    {
      assert p != q ==> Placed(t, p, cells);
    }
  }

  /** Inserting `i` into child `q`, where it fits, keeps the invariant of the node. */
  lemma InvDescend(t: Tree, q: int, i: int, cells: seq<Rect>)
    requires WellFormed(t) && AllIn(t, |cells|) && Inv(t, cells) && |t.nodes| == 4
    requires 0 <= i < |cells| && q == GetIndex(t.bounds, cells[i]) && q != -1
    requires Inv(Insert(t.nodes[q], i, cells), cells)
    requires Contents(Insert(t.nodes[q], i, cells)) == Contents(t.nodes[q]) + multiset{i}
    ensures Inv(t.(nodes := t.nodes[q := Insert(t.nodes[q], i, cells)]), cells)
  {
    assert Placed(t, q, cells);
    InvWithChild(t, q, Insert(t.nodes[q], i, cells), cells);
  }

  /** Appending a straddling index to a node with children keeps the invariant. */
  lemma InvKeepStraddler(t: Tree, x: int, cells: seq<Rect>)
    requires Inv(t, cells) && |t.nodes| == 4
    requires 0 <= x < |cells| && GetIndex(t.bounds, cells[x]) == -1
    ensures Inv(t.(objects := t.objects + [x]), cells)
  {
    var u := t.(objects := t.objects + [x]);
    forall p | 0 <= p < 4
      ensures Inv(u.nodes[p], cells) && Placed(u, p, cells)
    {
      assert Placed(t, p, cells);
    }
  }

  /** Getting ready to redistribute keeps the invariant: the new children are empty, old ones untouched. */
  lemma SpreadInv(t: Tree, cells: seq<Rect>)
    requires WellFormed(t) && t.level < t.maxLevels && Inv(t, cells)
    ensures Inv(Spread(t), cells)
  {
    var s := Spread(t);
    forall q | 0 <= q < 4
      ensures Inv(s.nodes[q], cells) && Placed(s, q, cells)
    {
      if |t.nodes| == 0 {
        assert Contents(s.nodes[q]) == multiset{};
      } else {
        assert Placed(t, q, cells);
      }
    }
  }

  /** Quadtree::insert keeps Inv: straddlers stay, fitting indices sit under their quadrant, overflowing leaves are at maxLevels. */
  lemma {:induction false} InsertKeepsInv(t: Tree, i: int, cells: seq<Rect>)
    requires WellFormed(t) && AllIn(t, |cells|) && Inv(t, cells) && 0 <= i < |cells|
    ensures Inv(Insert(t, i, cells), cells)
    decreases Rank(t), 1, 0
  {
    if |t.nodes| == 4 && GetIndex(t.bounds, cells[i]) != -1 {
      var q := GetIndex(t.bounds, cells[i]);
      InsertKeepsInv(t.nodes[q], i, cells);
      InsertContents(t.nodes[q], i, cells);
      InvDescend(t, q, i, cells);
    } else {
      var held := t.objects + [i];
      if Overflows(|held|, t.maxObjects) && t.level < t.maxLevels {
        SpreadInv(t, cells);
        PushDownKeepsInv(Spread(t), held, cells);
      } else if |t.nodes| == 4 {
        InvKeepStraddler(t, i, cells);
      }
    }
  }

  /** The redistribution loop keeps Inv. */
  lemma {:induction false} PushDownKeepsInv(s: Tree, rest: seq<int>, cells: seq<Rect>)
    requires WellFormed(s) && |s.nodes| == 4 && AllIn(s, |cells|) && Inv(s, cells)
    requires forall x :: x in rest ==> 0 <= x < |cells|
    ensures Inv(PushDown(s, rest, cells), cells)
    decreases Rank(s), 0, |rest|
  {
    if rest != [] {
      assert rest[0] in rest && forall y :: y in rest[1..] ==> y in rest;
      PlaceKeepsInv(s, rest[0], cells);
      PushDownKeepsInv(Place(s, rest[0], cells), rest[1..], cells);
    }
  }

  /** One iteration of the loop keeps Inv: what it keeps straddles, what it moves fits its child. */
  lemma {:induction false} PlaceKeepsInv(s: Tree, x: int, cells: seq<Rect>)
    requires WellFormed(s) && |s.nodes| == 4 && AllIn(s, |cells|) && Inv(s, cells) && 0 <= x < |cells|
    ensures Inv(Place(s, x, cells), cells)
    decreases Rank(s), 0, 0
  {
    var q := GetIndex(s.bounds, cells[x]);
    if q != -1 {
      InsertKeepsInv(s.nodes[q], x, cells);
      InsertContents(s.nodes[q], x, cells);
      InvDescend(s, q, x, cells);
    } else {
      InvKeepStraddler(s, x, cells);
    }
  }

  // ----- insert: splits are permanent -----

  /** Getting ready to redistribute keeps every existing child. */
  lemma SpreadExtends(t: Tree)
    requires WellFormed(t) && t.level < t.maxLevels
    ensures Extends(t, Spread(t))
  {
    ExtendsWithObjects(t, []);
  }

  /** Quadtree::insert never removes a child: the new tree extends the old one. */
  lemma {:induction false} InsertExtends(t: Tree, i: int, cells: seq<Rect>)
    requires WellFormed(t) && AllIn(t, |cells|) && 0 <= i < |cells|
    ensures Extends(t, Insert(t, i, cells))
    decreases Rank(t), 1, 0
  {
    if |t.nodes| == 4 && GetIndex(t.bounds, cells[i]) != -1 {
      var q := GetIndex(t.bounds, cells[i]);
      InsertExtends(t.nodes[q], i, cells);
      ExtendsWithChild(t, q, Insert(t.nodes[q], i, cells));
    } else {
      var held := t.objects + [i];
      if Overflows(|held|, t.maxObjects) && t.level < t.maxLevels {
        SpreadExtends(t);
        PushDownExtends(Spread(t), held, cells);
        ExtendsTrans(t, Spread(t), PushDown(Spread(t), held, cells));
      } else {
        ExtendsWithObjects(t, held);
      }
    }
  }

  /** The redistribution loop never removes a child. */
  lemma {:induction false} PushDownExtends(s: Tree, rest: seq<int>, cells: seq<Rect>)
    requires WellFormed(s) && |s.nodes| == 4 && AllIn(s, |cells|)
    requires forall x :: x in rest ==> 0 <= x < |cells|
    ensures Extends(s, PushDown(s, rest, cells))
    decreases Rank(s), 0, |rest|
  {
    if rest == [] {
      ExtendsRefl(s);
    } else {
      assert rest[0] in rest && forall y :: y in rest[1..] ==> y in rest;
      var s' := Place(s, rest[0], cells);
      PlaceExtends(s, rest[0], cells);
      PushDownExtends(s', rest[1..], cells);
      ExtendsTrans(s, s', PushDown(s', rest[1..], cells));
    }
  }

  /** One iteration of the loop never removes a child. */
  lemma {:induction false} PlaceExtends(s: Tree, x: int, cells: seq<Rect>)
    requires WellFormed(s) && |s.nodes| == 4 && AllIn(s, |cells|) && 0 <= x < |cells|
    ensures Extends(s, Place(s, x, cells))
    decreases Rank(s), 0, 0
  {
    var q := GetIndex(s.bounds, cells[x]);
    if q != -1 {
      InsertExtends(s.nodes[q], x, cells);
      ExtendsWithChild(s, q, Insert(s.nodes[q], x, cells));
    } else {
      ExtendsWithObjects(s, s.objects + [x]);
    }
  }

  // ----- depth -----

  /** No node is deeper than maxLevels (or than the root, if the root starts deeper). */
  lemma {:induction false} DepthBound(t: Tree)
    requires WellFormed(t)
    ensures LevelsAtMost(t, if t.level <= t.maxLevels then t.maxLevels else t.level)
    decreases t
  {
    if |t.nodes| == 4 {
      forall q | 0 <= q < 4
        ensures LevelsAtMost(t.nodes[q], t.maxLevels)
      {
        assert IsChild(t, q);
        DepthBound(t.nodes[q]);
      }
    }
  }

  // ----- retrieve -----

  /** Quadtree::retrieve returns only stored indices, each at most as often as it is stored. */
  lemma {:induction false} RetrieveSound(t: Tree, rect: Rect)
    ensures multiset(Retrieve(t, rect)) <= Contents(t)
    decreases t
  {
    var index := GetIndex(t.bounds, rect);
    if index != -1 && |t.nodes| == 4 {
      RetrieveSound(t.nodes[index], rect);
      assert Contents(t.nodes[index]) <= Contents(t) - multiset(t.objects);
    }
  }

  /**
   * A query lying inside the rectangle of a stored cell finds that cell:
   * each node on the way classified the cell into a quadrant and classifies
   * the query into the same one.
   */
  lemma {:induction false} RetrieveComplete(t: Tree, cells: seq<Rect>, i: int, query: Rect)
    requires Inv(t, cells) && i in Contents(t) && 0 <= i < |cells|
    requires Within(query, cells[i])
    ensures i in Retrieve(t, query)
    decreases t
  {
    if i !in t.objects {
      assert |t.nodes| == 4;
      var q :| 0 <= q < 4 && i in Contents(t.nodes[q]);
      assert Placed(t, q, cells);
      WithinSameQuadrant(t.bounds, query, cells[i]);
      RetrieveComplete(t.nodes[q], cells, i, query);
    }
  }

  /** A query touching or crossing a midline of the node gets only that node's own indices. */
  lemma RetrieveStraddling(t: Tree, rect: Rect)
    requires GetIndex(t.bounds, rect) == -1 || |t.nodes| == 0
    ensures Retrieve(t, rect) == t.objects
  {
  }

  /**
   * The documented under-return: a cell stored in the top-left child, and a
   * query that overlaps it but reaches across the vertical midline of the
   * 500x500 root, is not returned.
   */
  lemma StraddlingQueryMissesChild()
    ensures var b := Rect(0.0, 0.0, 500.0, 500.0);
            var cells := [Rect(200.0, 0.0, 20.0, 20.0)];
            var t := Node(b, 0, 4, 5, [], [Empty(Quadrant(b, 0), 1, 4, 5).(objects := [0]),
                                           Empty(Quadrant(b, 1), 1, 4, 5), Empty(Quadrant(b, 2), 1, 4, 5),
                                           Empty(Quadrant(b, 3), 1, 4, 5)]);
            var query := Rect(210.0, 10.0, 100.0, 1.0);
            && WellFormed(t) && Inv(t, cells) && 0 in Contents(t)
            && ContainsPoint(cells[0], 215.0, 10.0) && ContainsPoint(query, 215.0, 10.0)
            && 0 !in Retrieve(t, query)
  {
    var b := Rect(0.0, 0.0, 500.0, 500.0);
    var cells := [Rect(200.0, 0.0, 20.0, 20.0)];
    var t := Node(b, 0, 4, 5, [], [Empty(Quadrant(b, 0), 1, 4, 5).(objects := [0]),
                                   Empty(Quadrant(b, 1), 1, 4, 5), Empty(Quadrant(b, 2), 1, 4, 5),
                                   Empty(Quadrant(b, 3), 1, 4, 5)]);
    ExampleTree(t, cells);
    assert Retrieve(t, Rect(210.0, 10.0, 100.0, 1.0)) == [];
  }

  /** The tree of the example above: cell 0 stored alone in the top-left child of a split root. */
  lemma ExampleTree(t: Tree, cells: seq<Rect>)
    requires t == Node(Rect(0.0, 0.0, 500.0, 500.0), 0, 4, 5, [],
                       [Empty(Quadrant(t.bounds, 0), 1, 4, 5).(objects := [0]),
                        Empty(Quadrant(t.bounds, 1), 1, 4, 5), Empty(Quadrant(t.bounds, 2), 1, 4, 5),
                        Empty(Quadrant(t.bounds, 3), 1, 4, 5)])
    requires cells == [Rect(200.0, 0.0, 20.0, 20.0)]
    ensures WellFormed(t) && Inv(t, cells) && Contents(t) == multiset{0}
  {
    assert GetIndex(t.bounds, cells[0]) == 0;
    forall q | 0 <= q < 4
      ensures IsChild(t, q) && WellFormed(t.nodes[q])
    {
    }
    assert Contents(t.nodes[0]) == multiset{0};
    forall q | 0 <= q < 4
      ensures Inv(t.nodes[q], cells) && Placed(t, q, cells)
    {
      assert q != 0 ==> Contents(t.nodes[q]) == multiset{};
    }
  }

  // ----- clear -----

  /** Quadtree::clear leaves no index anywhere, so a later retrieve of any rectangle returns nothing. */
  lemma {:induction false} ClearEmpties(t: Tree, rect: Rect)
    ensures Contents(Clear(t)) == multiset{}
    ensures Retrieve(Clear(t), rect) == []
    decreases t
  {
    var c := Clear(t);
    if |t.nodes| == 4 {
      forall q | 0 <= q < 4
        ensures Contents(c.nodes[q]) == multiset{} && Retrieve(c.nodes[q], rect) == []
      {
        ClearEmpties(t.nodes[q], rect);
      }
    }
  }

  /** Quadtree::clear keeps every child: the cleared tree has exactly the old shape. */
  lemma {:induction false} ClearKeepsShape(t: Tree)
    ensures Extends(t, Clear(t)) && Extends(Clear(t), t)
    ensures WellFormed(t) ==> WellFormed(Clear(t))
    decreases t
  {
    var c := Clear(t);
    forall k | 0 <= k < |t.nodes|
      ensures Extends(t.nodes[k], c.nodes[k]) && Extends(c.nodes[k], t.nodes[k])
      ensures WellFormed(t.nodes[k]) ==> WellFormed(c.nodes[k])
    {
      ClearKeepsShape(t.nodes[k]);
    }
    if WellFormed(t) && |t.nodes| == 4 {
      forall q | 0 <= q < 4
        ensures IsChild(c, q)
      {
        assert IsChild(t, q);
      }
    }
  }

  /** A cleared well-formed tree satisfies Inv for any cell table. */
  lemma {:induction false} ClearedInv(t: Tree, cells: seq<Rect>)
    requires WellFormed(t)
    ensures Inv(Clear(t), cells) && AllIn(Clear(t), |cells|)
    decreases t
  {
    var c := Clear(t);
    if |t.nodes| == 4 {
      forall q | 0 <= q < 4
        ensures Inv(c.nodes[q], cells) && AllIn(c.nodes[q], |cells|) && Placed(c, q, cells)
      {
        ClearedInv(t.nodes[q], cells);
        ClearEmpties(t.nodes[q], t.bounds);
      }
    }
  }

  // ----- growing the cell table -----

  /** Appending cells to the table keeps Inv: it only looks at the cells of stored indices. */
  lemma {:induction false} InvAppend(t: Tree, cells: seq<Rect>, more: seq<Rect>)
    requires Inv(t, cells)
    ensures Inv(t, cells + more)
    decreases t
  {
    var all := cells + more;
    assert forall x :: 0 <= x < |cells| ==> all[x] == cells[x];
    if |t.nodes| == 4 {
      forall q | 0 <= q < 4
        ensures Inv(t.nodes[q], all) && Placed(t, q, all)
      {
        InvAppend(t.nodes[q], cells, more);
        assert Placed(t, q, cells);
      }
    }
  }

  /** Inv keeps every stored index inside the table. */
  lemma {:induction false} InvAllIn(t: Tree, cells: seq<Rect>, n: int)
    requires Inv(t, cells) && |cells| <= n
    ensures AllIn(t, n)
    decreases t
  {
    if |t.nodes| == 4 {
      forall q | 0 <= q < 4
        ensures AllIn(t.nodes[q], n)
      {
        InvAllIn(t.nodes[q], cells, n);
      }
    }
  }
}
