/** The root region KdTreeST gives put is bounded below by Double.MIN_VALUE,
    the smallest positive double, not by the most negative one: a point with
    a negative coordinate is stored, but lies outside the rectangle of the
    root node, and range prunes it away. With the root region spanning all
    finite doubles the range walk is exact for every finite point. */
module RootRegion {
  import opened Results
  import opened Geometry
  import opened PointSeqs
  import opened KdNodes

  /** The region of all points with finite double coordinates. */
  const FullRect: Rect := Rect(-MAX_VALUE, -MAX_VALUE, MAX_VALUE, MAX_VALUE)

  /** put((-1, 5)) on an empty table stores the point, but range over the
      rectangle [-2, -0.5] x [4, 6], which contains it, misses it: the root's
      rectangle starts at x = Double.MIN_VALUE and does not intersect the
      query. Rooted at FullRect the same walk finds it. */
  lemma NegativePointMissedByRange()
    ensures var p, query := Point(-1.0, 5.0), Rect(-2.0, 4.0, -0.5, 6.0);
      var t := Insert(Nil, p, true, RootRect, VERTICAL);
      && Find(t, p, VERTICAL) == Some(true)
      && Within(PreOrder(t), query) == [p]
      && RangeWalk(t, query) == []
      && RangeWalk(Insert(Nil, p, true, FullRect, VERTICAL), query) == [p]
  {
    var p, query := Point(-1.0, 5.0), Rect(-2.0, 4.0, -0.5, 6.0);
    assert Insert(Nil, p, true, RootRect, VERTICAL) == Node(p, true, RootRect, Nil, Nil);
    assert Insert(Nil, p, true, FullRect, VERTICAL) == Node(p, true, FullRect, Nil, Nil);
    assert !Intersects(RootRect, query);
    assert Intersects(FullRect, query) && Geometry.Contains(query, p);
  }

  /** Rooted at FullRect, put keeps the region invariant for every finite
      point, and range then reports exactly the stored points inside the
      query rectangle. */
  lemma FullRootRangeSound<V>(t: Tree<V>, key: Point, val: V)
    requires Regions(t, FullRect, VERTICAL)
    requires Geometry.Contains(FullRect, key)
    ensures Regions(Insert(t, key, val, FullRect, VERTICAL), FullRect, VERTICAL)
    ensures forall rect :: RangeWalk(Insert(t, key, val, FullRect, VERTICAL), rect)
                        == Within(PreOrder(Insert(t, key, val, FullRect, VERTICAL)), rect)
  {
    var t' := Insert(t, key, val, FullRect, VERTICAL);
    InsertRegions(t, key, val, FullRect, VERTICAL);
    forall rect ensures RangeWalk(t', rect) == Within(PreOrder(t'), rect) {
      RangeWalkSound(t', rect, FullRect, VERTICAL);
    }
  }
}
