/** Three inputs on which KdTreeST.nearest, as written, breaks its promise to
    return a nearest stored point (or null for an empty table), each set
    against the corrected search. */
module NearestFindings {
  import opened Results
  import opened Geometry
  import opened KdNodes
  import opened KdTrees

  /** The tree that put(A), put(B), put(C) builds, in that order. */
  function Build3(a: Point, b: Point, c: Point): Tree<bool> {
    var t1 := Insert(Nil, a, true, RootRect, VERTICAL);
    var t2 := Insert(t1, b, true, RootRect, VERTICAL);
    Insert(t2, c, true, RootRect, VERTICAL)
  }

  /** The search never compares a node's own point with nearestKnown: it
      records the node's point at distance nearestKnown. With A = (1, 10),
      B = (9, 10), C = (10, 12) and the query (10, 10), B (squared distance
      1) is recorded at A's distance 81 and loses to C (squared distance 4). */
  lemma SkipsCloserNodePoint()
    ensures var a, b, c, q := Point(1.0, 10.0), Point(9.0, 10.0), Point(10.0, 12.0), Point(10.0, 10.0);
      var t := Build3(a, b, c);
      && Inv(t)
      && Keys(t) == {a, b, c}
      && NearestFrom(t, q, Dist2(a, q), VERTICAL) == Some(c)
      && Dist2(b, q) < Dist2(c, q)
      && NearestOf(t, q) == Some(b)
  {
    var a, b, c, q := Point(1.0, 10.0), Point(9.0, 10.0), Point(10.0, 12.0), Point(10.0, 10.0);
    var t1 := Insert(Nil, a, true, RootRect, VERTICAL);
    var t2 := Insert(t1, b, true, RootRect, VERTICAL);
    var t := Insert(t2, c, true, RootRect, VERTICAL);
    InsertInv(Nil, a, true);
    InsertInv(t1, b, true);
    InsertInv(t2, c, true);
    var rb := ClipAbove(RootRect, a, VERTICAL);
    var rc := ClipAbove(rb, b, HORIZONTAL);
    assert t == Node(a, true, RootRect, Nil,
                     Node(b, true, rb, Nil,
                          Node(c, true, rc, Nil, Nil)));
    assert Dist2(a, q) == 81.0 && Dist2(b, q) == 1.0 && Dist2(c, q) == 4.0;
    assert RectDist2(RootRect, q) == 0.0 && RectDist2(rb, q) == 0.0 && RectDist2(rc, q) == 0.0;
  }

  /** The prune compares the unsquared distance to a rectangle with the
      squared nearestKnown. With A = (1, 1.4), B = (0.7, 3), C = (0.99, 1) and
      the query (1.3, 1), nearestKnown is 0.25 and B's rectangle is at
      distance 0.3, so B's subtree is skipped and A is returned, although C
      has squared distance 0.0961. */
  lemma SquaredPruneLosesNearest()
    ensures var a, b, c, q := Point(1.0, 1.4), Point(0.7, 3.0), Point(0.99, 1.0), Point(1.3, 1.0);
      var t := Build3(a, b, c);
      && Inv(t)
      && Keys(t) == {a, b, c}
      && NearestFrom(t, q, Dist2(a, q), VERTICAL) == Some(a)
      && Dist2(c, q) < Dist2(a, q)
      && NearestOf(t, q) == Some(c)
  {
    var a, b, c, q := Point(1.0, 1.4), Point(0.7, 3.0), Point(0.99, 1.0), Point(1.3, 1.0);
    var t1 := Insert(Nil, a, true, RootRect, VERTICAL);
    var t2 := Insert(t1, b, true, RootRect, VERTICAL);
    var t := Insert(t2, c, true, RootRect, VERTICAL);
    InsertInv(Nil, a, true);
    InsertInv(t1, b, true);
    InsertInv(t2, c, true);
    var rb := ClipBelow(RootRect, a, VERTICAL);
    var rc := ClipBelow(rb, b, HORIZONTAL);
    assert t == Node(a, true, RootRect,
                     Node(b, true, rb,
                          Node(c, true, rc, Nil, Nil), Nil),
                     Nil);
    assert Dist2(a, q) == 0.25 && Dist2(b, q) == 4.36 && Dist2(c, q) == 0.0961;
    assert RectDist2(RootRect, q) == 0.0 && RectDist2(rb, q) == 0.09 && RectDist2(rc, q) == 0.09;
    DistanceExceedsMeans(rb, q, 0.25, 0.3);
  }

  /** An empty table does not answer null, as documented: seeding the search
      with root.point throws. The corrected search answers None. */
  lemma EmptyTreeNearestThrows(st: KdTreeST<bool>, p: Point)
    requires st.Valid() && st.root == Nil
    ensures st.Nearest(Some(p)) == Err(NullPointer)
    ensures st.NearestNeighbour(Some(p)) == Ok(None)
  {
  }
}
