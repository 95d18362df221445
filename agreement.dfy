/** The brute-force table as the reference for the 2d-tree: two tables that
    hold the same point-to-value map answer every query alike, and putting
    the same entry into both keeps them holding the same map. */
module Agreement {
  import opened Results
  import opened Geometry
  import opened PointSeqs
  import opened KdNodes
  import opened KdTrees
  import opened BruteForce

  /** The two tables represent the same map. */
  ghost predicate SameMap<V>(kd: KdTreeST<V>, bf: PointST<V>)
    reads kd, bf
  {
    ToMap(kd.root) == bf.points
  }

  /** put(p, val) on both tables: both reject the same nulls, and afterwards
      they still represent the same map. */
  method PutBoth<V>(kd: KdTreeST<V>, bf: PointST<V>, p: Option<Point>, val: Option<V>)
    returns (kdResult: Outcome, bfResult: Outcome)
    requires kd.Valid() && bf.Valid() && SameMap(kd, bf)
    requires p.Some? ==> Geometry.Contains(RootRect, p.value)
    modifies kd, bf
    ensures kd.Valid() && bf.Valid() && SameMap(kd, bf)
    ensures kdResult == bfResult
  {
    kdResult := kd.Put(p, val);
    bfResult := bf.Put(p, val);
  }

  /** Both tables store the same points, so they have the same size. */
  lemma SameSize<V>(kd: KdTreeST<V>, bf: PointST<V>)
    requires kd.Valid() && bf.Valid() && SameMap(kd, bf)
    ensures kd.Size() == bf.Size()
    ensures kd.IsEmpty() == bf.IsEmpty()
  {
    KeysToMap(kd.root);
  }

  /** get and contains answer alike, null queries included. */
  lemma SameLookups<V>(kd: KdTreeST<V>, bf: PointST<V>, p: Option<Point>)
    requires kd.Valid() && bf.Valid() && SameMap(kd, bf)
    ensures kd.Get(p) == bf.Get(p)
    ensures kd.Contains(p) == bf.Contains(p)
  {
    KeysToMap(kd.root);
  }

  /** points() enumerates the same points in both tables, in possibly
      different orders. */
  lemma SamePoints<V>(kd: KdTreeST<V>, bf: PointST<V>)
    requires kd.Valid() && bf.Valid() && SameMap(kd, bf)
    ensures multiset(PreOrder(kd.root)) == multiset(bf.Points())
  {
    KeysToMap(kd.root);
    PreOrderMembers(kd.root);
    PreOrderNoDuplicates(kd.root);
    SameMembersPermutation(PreOrder(kd.root), bf.Points());
  }

  /** range(rect) reports the same points in both tables, in possibly
      different orders: the 2d-tree's pruning loses no point. */
  lemma SameRange<V>(kd: KdTreeST<V>, bf: PointST<V>, rect: Rect)
    requires kd.Valid() && bf.Valid() && SameMap(kd, bf)
    ensures multiset(Within(PreOrder(kd.root), rect)) == multiset(Within(bf.keys, rect))
  {
    KeysToMap(kd.root);
    PreOrderMembers(kd.root);
    PreOrderNoDuplicates(kd.root);
    WithinMembers(PreOrder(kd.root), rect);
    WithinMembers(bf.keys, rect);
    WithinNoDuplicates(PreOrder(kd.root), rect);
    SortedNoDuplicates(bf.keys);
    WithinNoDuplicates(bf.keys, rect);
    SameMembersPermutation(Within(PreOrder(kd.root), rect), Within(bf.keys, rect));
  }

  /** The corrected 2d-tree search finds a point exactly when the table is
      not empty, and whenever the brute-force scan finds a point, the two
      are at the same squared distance from the query (ties between equally
      near points may be broken differently). */
  lemma SameNearestDistance<V>(kd: KdTreeST<V>, bf: PointST<V>, q: Point)
    requires kd.Valid() && bf.Valid() && SameMap(kd, bf)
    ensures kd.NearestNeighbour(Some(q)).value.Some? <==> bf.keys != []
    ensures LinearNearest(bf.keys, q).Some? ==>
      Dist2(kd.NearestNeighbour(Some(q)).value.value, q) == Dist2(LinearNearest(bf.keys, q).value, q)
  {
    KeysToMap(kd.root);
    var kdResult := kd.NearestNeighbour(Some(q)).value;
    if bf.keys != [] {
      assert bf.keys[0] in bf.points;
    } else {
      assert forall k :: k !in bf.points;
    }
    LinearNearestFacts(bf.keys, q);
    var bfResult := LinearNearest(bf.keys, q);
    if bfResult.Some? {
      var i :| 0 <= i < |bf.keys| && bf.keys[i] == bfResult.value && FirstNearestAt(bf.keys, q, i);
      assert kdResult.value in bf.points;
      var j :| 0 <= j < |bf.keys| && bf.keys[j] == kdResult.value;
      assert Dist2(bf.keys[j], q) >= Dist2(bf.keys[i], q);
    }
  }
}
