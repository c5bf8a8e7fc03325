/**
 * The Quadtree class of GameOfLife/Quadtree.hpp and Quadtree.cpp, with the
 * fields the C++ class has and methods that update them in place. Each node
 * keeps, as ghost state, the value `Model` it stands for (a QuadtreeSpec.Tree)
 * and the set `Repr` of objects it owns: itself and the objects of its
 * children. Every method is proved to change `Model`
 * exactly as the matching function of QuadtreeSpec does, so the properties
 * proved in QuadtreeProps hold of the objects.
 */
module QuadtreeImpl {
  import opened Geometry
  import opened QuadtreeSpec
  import QuadtreeProps

  class Quadtree {
    var bounds: Rect
    /** The four child pointers: all null until split, then all set. */
    var nodes: seq<Quadtree?>
    var objectIndices: seq<int>
    var level: Int32
    var maxObjects: Int32
    var maxLevels: Int32

    ghost var Model: Tree
    ghost var Repr: set<object>

    /** Child `q` is a valid node owned by this one, standing for child `q` of the model. */
    ghost predicate ChildValid(q: int)
      reads this, Repr
      requires this in Repr && |nodes| == 4 && 0 <= q < 4
      decreases Repr, 0
    {
      var c := nodes[q];
      && c != null && c in Repr && c in c.Repr && c.Repr <= Repr && this !in c.Repr
      && c.Valid()
      && q < |Model.nodes| && c.Model == Model.nodes[q]
    }

    ghost predicate Valid()
      reads this, Repr
      decreases Repr, 1
    {
      && this in Repr && |nodes| == 4
      && Model.bounds == bounds && Model.level == level
      && Model.maxObjects == maxObjects && Model.maxLevels == maxLevels
      && Model.objects == objectIndices
      && WellFormed(Model)
      && (nodes[0] == null ==>
            |Model.nodes| == 0 && nodes[1] == null && nodes[2] == null && nodes[3] == null)
      && (nodes[0] != null ==>
            && |Model.nodes| == 4
            && (forall q :: 0 <= q < 4 ==> ChildValid(q))
            && (forall p, q :: 0 <= p < 4 && 0 <= q < 4 && p != q && ChildValid(p) && ChildValid(q) ==>
                  nodes[p].Repr !! nodes[q].Repr))
    }

    /** Quadtree::Quadtree: no indices, four null children; level 0, maxObjects 4 and maxLevels 5 by default. */
    constructor (bounds: Rect, level: Int32 := 0, maxObjects: Int32 := 4, maxLevels: Int32 := 5)
      ensures Valid() && Repr == {this}
      ensures Model == Empty(bounds, level, maxObjects, maxLevels)
    {
      this.bounds := bounds;
      this.level := level;
      this.maxObjects := maxObjects;
      this.maxLevels := maxLevels;
      objectIndices := [];
      nodes := [null, null, null, null];
      Model := Empty(bounds, level, maxObjects, maxLevels);
      Repr := {this};
    }

    /** Quadtree::split: four fresh children covering the quadrants, one level down with the same limits. */
    method Split()
      requires Valid() && nodes[0] == null && level < maxLevels
      modifies this
      ensures Valid() && old(Repr) <= Repr && fresh(Repr - old(Repr))
      ensures Model == QuadtreeSpec.Split(old(Model))
    {
      var n0 := new Quadtree(Quadrant(bounds, 0), level + 1, maxObjects, maxLevels);
      var n1 := new Quadtree(Quadrant(bounds, 1), level + 1, maxObjects, maxLevels);
      var n2 := new Quadtree(Quadrant(bounds, 2), level + 1, maxObjects, maxLevels);
      var n3 := new Quadtree(Quadrant(bounds, 3), level + 1, maxObjects, maxLevels);
      ghost var made := {n0, n1, n2, n3};
      assert fresh(made);
      Attach(n0, n1, n2, n3);
    }

    /** A newly made node for quadrant `q` of this one. */
    ghost predicate NewChild(c: Quadtree, q: int)
      reads this, c, c.Repr
      requires 0 <= q < 4 && level < maxLevels
    {
      && c.Valid() && c.Repr == {c} && c !in Repr
      && c.Model == Empty(Quadrant(bounds, q), level + 1, maxObjects, maxLevels)
    }

    /** The second half of split: links in the four newly made children. */
    method Attach(n0: Quadtree, n1: Quadtree, n2: Quadtree, n3: Quadtree)
      requires Valid() && nodes[0] == null && level < maxLevels
      requires NewChild(n0, 0) && NewChild(n1, 1) && NewChild(n2, 2) && NewChild(n3, 3)
      requires n0 != n1 && n0 != n2 && n0 != n3 && n1 != n2 && n1 != n3 && n2 != n3
      modifies this
      ensures Valid() && Repr == old(Repr) + {n0, n1, n2, n3}
      ensures Model == QuadtreeSpec.Split(old(Model))
    {
      SplitChildren(Model, n0.Model, n1.Model, n2.Model, n3.Model);
      nodes := [n0, n1, n2, n3];
      Repr := Repr + {n0, n1, n2, n3};
      Model := Model.(nodes := [n0.Model, n1.Model, n2.Model, n3.Model]);
      forall q | 0 <= q < 4
        ensures ChildValid(q)
      {
        assert nodes[q].Repr == {nodes[q]};
      }
    }

    /**
     * Quadtree::insert: hand `rectIndex` to the child whose quadrant its cell
     * fits, or keep it here; on overflow below maxLevels, split if there are
     * no children yet and move every held index that fits a quadrant into
     * that child, erasing it from this node's list.
     */
    method Insert(rectIndex: int, cells: seq<Rect>)
      requires Valid() && AllIn(Model, |cells|) && 0 <= rectIndex < |cells|
      modifies Repr
      ensures Valid() && old(Repr) <= Repr && fresh(Repr - old(Repr))
      ensures Model == QuadtreeSpec.Insert(old(Model), rectIndex, cells)
      decreases Rank(Model), 1
    {
      if nodes[0] != null {
        var index := GetIndex(bounds, cells[rectIndex]);
        if index != -1 {
          InsertIntoChild(index, rectIndex, cells);
          return;
        }
      }
      SetObjects(objectIndices + [rectIndex], |cells|);
      if Overflows(|objectIndices|, maxObjects) && level < maxLevels {
        if nodes[0] == null {
          Split();
        }
        SpreadThenPending(old(Model), Model, rectIndex, cells);
        var it := 0;
        while it < |objectIndices|
          invariant Valid() && old(Repr) <= Repr && fresh(Repr - old(Repr))
          invariant SameHeader(Model, old(Model)) && nodes[0] != null
          invariant 0 <= it <= |objectIndices| && AllIn(Model, |cells|)
          invariant Pending(Model, it, cells) == QuadtreeSpec.Insert(old(Model), rectIndex, cells)
          decreases |objectIndices| - it
        {
          ghost var before := Model;
          Bounded(objectIndices, it, |cells|);
          var x := objectIndices[it];
          var index := GetIndex(bounds, cells[x]);
          if index != -1 {
            InsertIntoChild(index, x, cells);
            Bounded(objectIndices, it + 1, |cells|);
            SetObjects(objectIndices[..it] + objectIndices[it + 1..], |cells|);
            PendingMoved(before, Model, it, index, cells);
          } else {
            PendingKept(before, it, cells);
            it := it + 1;
          }
        }
      }
    }

    /** `nodes[q]->insert(x, cells)`: inserts into child `q` and changes nothing else. */
    method InsertIntoChild(q: int, x: int, cells: seq<Rect>)
      requires Valid() && nodes[0] != null && 0 <= q < 4 && AllIn(Model, |cells|) && 0 <= x < |cells|
      modifies Repr
      ensures Valid() && old(Repr) <= Repr && fresh(Repr - old(Repr))
      ensures nodes == old(nodes) && AllIn(Model, |cells|)
      ensures Model == old(Model).(nodes := old(Model).nodes[q := QuadtreeSpec.Insert(old(Model).nodes[q], x, cells)])
      decreases Rank(Model), 0
    {
      assert ChildValid(q) && IsChild(Model, q);
      var child := nodes[q];
      forall p | 0 <= p < 4 && p != q
        ensures ChildValid(p) && nodes[p].Repr !! child.Repr
      {
        assert ChildValid(p);
      }
      child.Insert(x, cells);
      ReplaceChild(Model, q, child.Model, |cells|);
      Repr := Repr + child.Repr;
      Model := Model.(nodes := Model.nodes[q := child.Model]);
      forall p | 0 <= p < 4
        ensures ChildValid(p)
      {
        if p != q {
          assert old(ChildValid(p));
        }
      }
    }

    /** Replaces this node's own index list, leaving the children alone. */
    method SetObjects(xs: seq<int>, n: int)
      requires Valid() && AllIn(Model, n) && forall x :: x in xs ==> 0 <= x < n
      modifies this
      ensures Valid() && Repr == old(Repr) && nodes == old(nodes) && AllIn(Model, n)
      ensures objectIndices == xs && Model == old(Model).(objects := xs)
    {
      ReplaceObjects(Model, xs, n);
      objectIndices := xs;
      Model := Model.(objects := xs);
      if nodes[0] != null {
        forall q | 0 <= q < 4
          ensures ChildValid(q)
        {
          assert old(ChildValid(q));
        }
      }
    }

    /** Quadtree::retrieve: the chosen child's result, then this node's own indices; changes nothing. */
    method Retrieve(rect: Rect) returns (result: seq<int>)
      requires Valid()
      ensures result == QuadtreeSpec.Retrieve(Model, rect)
      decreases Repr
    {
      result := [];
      var index := GetIndex(bounds, rect);
      if index != -1 && nodes[0] != null {
        assert ChildValid(index);
        result := nodes[index].Retrieve(rect);
      }
      ghost var fromChild := result;
      for k := 0 to |objectIndices|
        invariant result == fromChild + objectIndices[..k]
      {
        result := result + [objectIndices[k]];
      }
      assert objectIndices[..|objectIndices|] == objectIndices;
    }

    /** Quadtree::clear: every node of the tree drops its indices; every child stays. */
    method Clear()
      requires Valid()
      modifies Repr
      ensures Valid() && Repr == old(Repr)
      ensures Model == QuadtreeSpec.Clear(old(Model))
      decreases Repr, 1
    {
      objectIndices := [];
      Model := Model.(objects := []);
      ReplaceObjects(old(Model), [], 0);
      if nodes[0] != null {
        forall q | 0 <= q < 4
          ensures ChildValid(q)
        {
          assert old(ChildValid(q));
        }
        for i := 0 to 4
          invariant Valid() && Repr == old(Repr) && nodes[0] != null
          invariant SameHeader(Model, old(Model)) && Model.objects == [] && |Model.nodes| == 4
          invariant forall q :: 0 <= q < 4 ==>
            Model.nodes[q] == if q < i then QuadtreeSpec.Clear(old(Model).nodes[q]) else old(Model).nodes[q]
        {
          ClearChild(i);
        }
      }
      assert Model.nodes == QuadtreeSpec.Clear(old(Model)).nodes;
    }

    /** `nodes[q]->clear()`: clears child `q` and nothing else. */
    method ClearChild(q: int)
      requires Valid() && nodes[0] != null && 0 <= q < 4
      modifies Repr
      ensures Valid() && Repr == old(Repr) && nodes == old(nodes)
      ensures Model == old(Model).(nodes := old(Model).nodes[q := QuadtreeSpec.Clear(old(Model).nodes[q])])
      decreases Repr, 0
    {
      assert ChildValid(q);
      var child := nodes[q];
      forall p | 0 <= p < 4 && p != q
        ensures ChildValid(p) && nodes[p].Repr !! child.Repr
      {
        assert ChildValid(p);
      }
      child.Clear();
      QuadtreeProps.ClearKeepsShape(old(Model).nodes[q]);
      ReplaceChild(Model, q, child.Model, 0);
      Model := Model.(nodes := Model.nodes[q := child.Model]);
      forall p | 0 <= p < 4
        ensures ChildValid(p)
      {
        if p != q {
          assert old(ChildValid(p));
        } else {
          assert child.Valid() && child.Repr <= Repr && this !in child.Repr;
        }
      }
    }
  }

  /**
   * The state of the redistribution loop of Quadtree::insert: the first `it`
   * indices stay here, the remaining ones are still to be placed.
   */
  ghost function Pending(t: Tree, it: int, cells: seq<Rect>): Tree
    requires WellFormed(t) && |t.nodes| == 4 && AllIn(t, |cells|) && 0 <= it <= |t.objects|
  {
    ReplaceObjects(t, t.objects[..it], |cells|);
    Bounded(t.objects, it, |cells|);
    PushDown(t.(objects := t.objects[..it]), t.objects[it..], cells)
  }

  /** The node entering the loop, its held indices aside, is the spread node. */
  lemma SpreadHolding(t: Tree, held: seq<int>, u: Tree, n: int)
    requires WellFormed(t) && AllIn(t, n) && t.level < t.maxLevels && forall x :: x in held ==> 0 <= x < n
    requires u == (if |t.nodes| == 0 then QuadtreeSpec.Split(t.(objects := held)) else t.(objects := held))
    ensures WellFormed(u) && |u.nodes| == 4 && AllIn(u, n) && u.objects == held
    ensures u.(objects := []) == Spread(t)
  {
    ReplaceObjects(t, held, n);
    if |t.nodes| == 0 {
      var r := QuadtreeSpec.Split(t.(objects := held));
      forall q | 0 <= q < 4
        ensures AllIn(r.nodes[q], n)
      {
        assert r.nodes[q].objects == [] && r.nodes[q].nodes == [];
      }
      assert r.(objects := []) == QuadtreeSpec.Split(t.(objects := []));
    }
  }

  /** Entering the loop: after the split, nothing has been placed yet. */
  lemma SpreadThenPending(t: Tree, u: Tree, i: int, cells: seq<Rect>)
    requires WellFormed(t) && AllIn(t, |cells|) && 0 <= i < |cells|
    requires !(|t.nodes| == 4 && GetIndex(t.bounds, cells[i]) != -1)
    requires Overflows(|t.objects| + 1, t.maxObjects) && t.level < t.maxLevels
    requires u == (if |t.nodes| == 0 then QuadtreeSpec.Split(t.(objects := t.objects + [i])) else t.(objects := t.objects + [i]))
    ensures WellFormed(u) && |u.nodes| == 4 && AllIn(u, |cells|)
    ensures Pending(u, 0, cells) == QuadtreeSpec.Insert(t, i, cells)
  {
    var held := t.objects + [i];
    SpreadHolding(t, held, u, |cells|);
    assert u.objects[..0] == [] && u.objects[0..] == held;
    assert QuadtreeSpec.Insert(t, i, cells) == PushDown(Spread(t), held, cells);
  }

  /** The indices held in `s`, and in either part of `s` cut at `i`, are below `n`. */
  lemma Bounded(s: seq<int>, i: int, n: int)
    requires (forall x :: x in s ==> 0 <= x < n) && 0 <= i <= |s|
    ensures forall k :: 0 <= k < |s| ==> 0 <= s[k] < n
    ensures forall x :: x in s[..i] ==> 0 <= x < n
    ensures forall x :: x in s[i..] ==> 0 <= x < n
  {
    assert forall k :: 0 <= k < |s| ==> s[k] in s;
  }

  /** A loop step that moves `t.objects[it]` into child `q` and erases it here. */
  lemma PendingMoved(t: Tree, u: Tree, it: int, q: int, cells: seq<Rect>)
    requires WellFormed(t) && |t.nodes| == 4 && AllIn(t, |cells|) && 0 <= it < |t.objects|
    requires 0 <= t.objects[it] < |cells| && q == GetIndex(t.bounds, cells[t.objects[it]]) && q != -1
    requires WellFormed(u) && |u.nodes| == 4 && AllIn(u, |cells|)
    requires u == t.(nodes := t.nodes[q := QuadtreeSpec.Insert(t.nodes[q], t.objects[it], cells)],
                     objects := t.objects[..it] + t.objects[it + 1..])
    ensures Pending(u, it, cells) == Pending(t, it, cells)
  {
    var objs := t.objects;
    var s := t.(objects := objs[..it]);
    ReplaceObjects(t, objs[..it], |cells|);
    Bounded(objs, it, |cells|);
    assert objs[it..][0] == objs[it] && objs[it..][1..] == objs[it + 1..];
    assert u.objects[..it] == objs[..it] && u.objects[it..] == objs[it + 1..];
    assert Place(s, objs[it], cells) == u.(objects := objs[..it]);
    assert Pending(t, it, cells) == PushDown(Place(s, objs[it], cells), objs[it + 1..], cells);
  }

  /** A loop step that keeps a straddling `t.objects[it]` here. */
  lemma PendingKept(t: Tree, it: int, cells: seq<Rect>)
    requires WellFormed(t) && |t.nodes| == 4 && AllIn(t, |cells|) && 0 <= it < |t.objects|
    requires 0 <= t.objects[it] < |cells| && GetIndex(t.bounds, cells[t.objects[it]]) == -1
    ensures Pending(t, it + 1, cells) == Pending(t, it, cells)
  {
    var objs := t.objects;
    var s := t.(objects := objs[..it]);
    ReplaceObjects(t, objs[..it], |cells|);
    Bounded(objs, it, |cells|);
    assert objs[it..][0] == objs[it] && objs[it..][1..] == objs[it + 1..];
    assert objs[..it] + [objs[it]] == objs[..it + 1];
    assert Place(s, objs[it], cells) == t.(objects := objs[..it + 1]);
    assert Pending(t, it, cells) == PushDown(Place(s, objs[it], cells), objs[it + 1..], cells);
  }

  /** Four empty nodes on the quadrants, one level down with the same limits, are what split adds. */
  lemma SplitChildren(t: Tree, c0: Tree, c1: Tree, c2: Tree, c3: Tree)
    requires |t.nodes| == 0 && t.level < t.maxLevels
    requires c0 == Empty(Quadrant(t.bounds, 0), t.level + 1, t.maxObjects, t.maxLevels)
    requires c1 == Empty(Quadrant(t.bounds, 1), t.level + 1, t.maxObjects, t.maxLevels)
    requires c2 == Empty(Quadrant(t.bounds, 2), t.level + 1, t.maxObjects, t.maxLevels)
    requires c3 == Empty(Quadrant(t.bounds, 3), t.level + 1, t.maxObjects, t.maxLevels)
    ensures t.(nodes := [c0, c1, c2, c3]) == QuadtreeSpec.Split(t)
  {
  }
}
