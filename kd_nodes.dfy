/** The nodes of the 2d-tree and the recursive helpers of KdTreeST that walk
    them: put, get, keys, nearest. A node is a value here; the class in
    module KdTrees owns the root and the size count. */
module KdNodes {
  import opened Results
  import opened Geometry
  import opened PointSeqs

  /** Split orientation, recomputed from depth: the root splits on x
      (vertical), its children on y (horizontal), and so on. */
  const VERTICAL: bool := false
  const HORIZONTAL: bool := true

  /** The bounds of the root region: Double.MIN_VALUE and Double.MAX_VALUE,
      so the root owns (roughly) the positive quadrant, not the whole plane. */
  const XMIN: real := MIN_VALUE
  const YMIN: real := MIN_VALUE
  const XMAX: real := MAX_VALUE
  const YMAX: real := MAX_VALUE

  const RootRect: Rect := Rect(XMIN, YMIN, XMAX, YMAX)

  /** A subtree: empty (a null link), or a node with its key point, its
      value, the rectangle of the region it owns, and its left/bottom and
      right/top subtrees. */
  datatype Tree<V> =
    | Nil
    | Node(point: Point, value: V, rect: Rect, lb: Tree<V>, rt: Tree<V>)

  /** The coordinate a node of orientation o compares on. */
  function Coord(p: Point, o: bool): real {
    if o == VERTICAL then p.x else p.y
  }

  /** The region of the left/bottom child: the parent region with the upper
      bound of the active axis clamped to p. */
  function ClipBelow(r: Rect, p: Point, o: bool): Rect {
    if o == VERTICAL then Rect(r.xmin, r.ymin, p.x, r.ymax)
    else Rect(r.xmin, r.ymin, r.xmax, p.y)
  }

  /** The region of the right/top child: the parent region with the lower
      bound of the active axis clamped to p. */
  function ClipAbove(r: Rect, p: Point, o: bool): Rect {
    if o == VERTICAL then Rect(p.x, r.ymin, r.xmax, r.ymax)
    else Rect(r.xmin, p.y, r.xmax, r.ymax)
  }

  // ---------------------------------------------------------------------
  // The abstract content of a subtree

  function Keys<V>(t: Tree<V>): set<Point> {
    match t
    case Nil => {}
    case Node(p, _, _, lb, rt) => {p} + Keys(lb) + Keys(rt)
  }

  /** The number of nodes. */
  function Count<V>(t: Tree<V>): nat {
    match t
    case Nil => 0
    case Node(_, _, _, lb, rt) => 1 + Count(lb) + Count(rt)
  }

  /** The symbol table a subtree represents. */
  function ToMap<V>(t: Tree<V>): map<Point, V> {
    match t
    case Nil => map[]
    case Node(p, v, _, lb, rt) => ToMap(lb) + ToMap(rt) + map[p := v]
  }

  /** Pre-order enumeration: the order in which keys() enqueues the points. */
  function PreOrder<V>(t: Tree<V>): seq<Point> {
    match t
    case Nil => []
    case Node(p, _, _, lb, rt) => [p] + PreOrder(lb) + PreOrder(rt)
  }

  // ---------------------------------------------------------------------
  // The invariants of a 2d-tree

  /** The kd ordering: at a node of orientation o, every key of lb is
      strictly below the node's coordinate, every key of rt at or above it. */
  ghost predicate Ordered<V>(t: Tree<V>, o: bool) {
    match t
    case Nil => true
    case Node(p, _, _, lb, rt) =>
      && (forall k :: k in Keys(lb) ==> Coord(k, o) < Coord(p, o))
      && (forall k :: k in Keys(rt) ==> Coord(k, o) >= Coord(p, o))
      && Ordered(lb, !o)
      && Ordered(rt, !o)
  }

  /** The region invariant: a subtree whose region is rect has rect stored in
      its root, the root's point lies in it, and the children own the two
      clipped halves. */
  ghost predicate Regions<V>(t: Tree<V>, rect: Rect, o: bool) {
    match t
    case Nil => true
    case Node(p, _, r, lb, rt) =>
      && r == rect
      && Contains(rect, p)
      && Regions(lb, ClipBelow(rect, p, o), !o)
      && Regions(rt, ClipAbove(rect, p, o), !o)
  }

  /** Every key of every subtree lies in the rectangle stored at that
      subtree's root. */
  ghost predicate Covers<V>(t: Tree<V>) {
    match t
    case Nil => true
    case Node(_, _, r, lb, rt) =>
      && (forall k :: k in Keys(t) ==> Contains(r, k))
      && Covers(lb)
      && Covers(rt)
  }

  /** No key is stored in two nodes. */
  ghost predicate Distinct<V>(t: Tree<V>) {
    match t
    case Nil => true
    case Node(p, _, _, lb, rt) =>
      && p !in Keys(lb)
      && p !in Keys(rt)
      && Keys(lb) !! Keys(rt)
      && Distinct(lb)
      && Distinct(rt)
  }

  /** What every tree the symbol table builds satisfies. */
  ghost predicate Inv<V>(t: Tree<V>) {
    Ordered(t, VERTICAL) && Regions(t, RootRect, VERTICAL) && Distinct(t)
  }

  // ---------------------------------------------------------------------
  // The recursive helpers, as the source writes them

  /** put(x, key, val, rect, orientation): overwrite the value at key, or
      hang a new node with region rect where the search falls off the tree.
      Ties on the active coordinate go right/top. */
  function Insert<V>(x: Tree<V>, key: Point, val: V, rect: Rect, o: bool): Tree<V> {
    match x
    case Nil => Node(key, val, rect, Nil, Nil)
    case Node(p, v, r, lb, rt) =>
      if p == key then Node(p, val, r, lb, rt)
      else if Coord(key, o) < Coord(p, o) then
        Node(p, v, r, Insert(lb, key, val, ClipBelow(rect, p, o), !o), rt)
      else
        Node(p, v, r, lb, Insert(rt, key, val, ClipAbove(rect, p, o), !o))
  }

  /** get(x, key, orientation): follow the comparison path; None is Java's
      null for a missing key. */
  function Find<V>(x: Tree<V>, key: Point, o: bool): Option<V> {
    match x
    case Nil => None
    case Node(p, v, _, lb, rt) =>
      if p == key then Some(v)
      else if Coord(key, o) < Coord(p, o) then Find(lb, key, !o)
      else Find(rt, key, !o)
  }

  /** The running best of nearest(): a squared distance and a point. */
  datatype Best = Best(dist: real, point: Point)

  /** One "if (nearestDist > cand.distanceSquaredTo(q))" step. A missing
      candidate (a null child) never wins. */
  function Improve(b: Best, cand: Option<Point>, q: Point): Best {
    if cand.Some? && b.dist > Dist2(cand.value, q) then Best(Dist2(cand.value, q), cand.value)
    else b
  }

  /** nearest(x, q, nearestKnown, orientation), as written: a subtree whose
      region is farther than nearestKnown (an unsquared distance compared
      with a squared one) yields its own root point; otherwise the running
      best starts from nearestKnown and the root's point without comparing
      the two, and the child on q's side (ties: right/top) is searched
      first. A null subtree yields None. */
  function NearestFrom<V>(x: Tree<V>, q: Point, known: real, o: bool): Option<Point> {
    match x
    case Nil => None
    case Node(p, _, rect, lb, rt) =>
      if DistanceExceeds(rect, q, known) then Some(p)
      else
        var start := Best(known, p);
        if Coord(q, o) >= Coord(p, o) then
          var afterRt := Improve(start, NearestFrom(rt, q, known, !o), q);
          Some(Improve(afterRt, NearestFrom(lb, q, afterRt.dist, !o), q).point)
        else
          var afterLb := Improve(start, NearestFrom(lb, q, known, !o), q);
          Some(Improve(afterLb, NearestFrom(rt, q, afterLb.dist, !o), q).point)
  }

  // ---------------------------------------------------------------------
  // Facts about the abstraction

  lemma {:induction false} KeysToMap<V>(t: Tree<V>)
    ensures ToMap(t).Keys == Keys(t)
  {
    match t
    case Nil =>
    case Node(_, _, _, lb, rt) =>
      KeysToMap(lb);
      KeysToMap(rt);
  }

  /** The pre-order enumeration visits exactly the keys, once per node. */
  lemma {:induction false} PreOrderMembers<V>(t: Tree<V>)
    ensures forall k :: k in PreOrder(t) <==> k in Keys(t)
    ensures |PreOrder(t)| == Count(t)
  {
    match t
    case Nil =>
    case Node(_, _, _, lb, rt) =>
      PreOrderMembers(lb);
      PreOrderMembers(rt);
  }

  lemma {:induction false} PreOrderNoDuplicates<V>(t: Tree<V>)
    requires Distinct(t)
    ensures NoDuplicates(PreOrder(t))
  {
    match t
    case Nil =>
    case Node(p, _, _, lb, rt) =>
      PreOrderNoDuplicates(lb);
      PreOrderNoDuplicates(rt);
      PreOrderMembers(lb);
      PreOrderMembers(rt);
      NoDuplicatesJoin(p, PreOrder(lb), PreOrder(rt));
  }

  /** Without duplicate keys, the number of nodes is the number of keys. */
  lemma {:induction false} CountKeys<V>(t: Tree<V>)
    requires Distinct(t)
    ensures |Keys(t)| == Count(t)
  {
    match t
    case Nil =>
    case Node(p, _, _, lb, rt) =>
      CountKeys(lb);
      CountKeys(rt);
      assert |Keys(lb) + Keys(rt)| == |Keys(lb)| + |Keys(rt)|;
      assert {p} !! (Keys(lb) + Keys(rt));
      assert Keys(t) == {p} + (Keys(lb) + Keys(rt));
  }

  // ---------------------------------------------------------------------
  // put

  lemma {:induction false} InsertKeys<V>(x: Tree<V>, key: Point, val: V, rect: Rect, o: bool)
    ensures Keys(Insert(x, key, val, rect, o)) == Keys(x) + {key}
  {
    match x
    case Nil =>
    case Node(p, _, _, lb, rt) =>
      if p == key {
      } else if Coord(key, o) < Coord(p, o) {
        InsertKeys(lb, key, val, ClipBelow(rect, p, o), !o);
      } else {
        InsertKeys(rt, key, val, ClipAbove(rect, p, o), !o);
      }
  }

  lemma {:induction false} InsertOrdered<V>(x: Tree<V>, key: Point, val: V, rect: Rect, o: bool)
    requires Ordered(x, o)
    ensures Ordered(Insert(x, key, val, rect, o), o)
  {
    match x
    case Nil =>
    case Node(p, _, _, lb, rt) =>
      if p == key {
      } else if Coord(key, o) < Coord(p, o) {
        InsertKeys(lb, key, val, ClipBelow(rect, p, o), !o);
        InsertOrdered(lb, key, val, ClipBelow(rect, p, o), !o);
      } else {
        InsertKeys(rt, key, val, ClipAbove(rect, p, o), !o);
        InsertOrdered(rt, key, val, ClipAbove(rect, p, o), !o);
      }
  }

  /** Given a key inside the region, put keeps every region exact. */
  lemma {:induction false} InsertRegions<V>(x: Tree<V>, key: Point, val: V, rect: Rect, o: bool)
    requires Regions(x, rect, o)
    requires Contains(rect, key)
    ensures Regions(Insert(x, key, val, rect, o), rect, o)
  {
    match x
    case Nil =>
    case Node(p, _, _, lb, rt) =>
      if p == key {
      } else if Coord(key, o) < Coord(p, o) {
        InsertRegions(lb, key, val, ClipBelow(rect, p, o), !o);
      } else {
        InsertRegions(rt, key, val, ClipAbove(rect, p, o), !o);
      }
  }

  lemma {:induction false} InsertDistinct<V>(x: Tree<V>, key: Point, val: V, rect: Rect, o: bool)
    requires Ordered(x, o) && Distinct(x)
    ensures Distinct(Insert(x, key, val, rect, o))
  {
    match x
    case Nil =>
    case Node(p, _, _, lb, rt) =>
      if p == key {
      } else if Coord(key, o) < Coord(p, o) {
        InsertKeys(lb, key, val, ClipBelow(rect, p, o), !o);
        InsertDistinct(lb, key, val, ClipBelow(rect, p, o), !o);
      } else {
        InsertKeys(rt, key, val, ClipAbove(rect, p, o), !o);
        InsertDistinct(rt, key, val, ClipAbove(rect, p, o), !o);
      }
  }

  /** put implements a map update. */
  lemma {:induction false} InsertToMap<V>(x: Tree<V>, key: Point, val: V, rect: Rect, o: bool)
    requires Ordered(x, o)
    ensures ToMap(Insert(x, key, val, rect, o)) == ToMap(x)[key := val]
  {
    match x
    case Nil =>
    case Node(p, v, _, lb, rt) =>
      var own := map[p := v];
      assert ToMap(x) == ToMap(lb) + ToMap(rt) + own;
      if p == key {
        OverwriteLast(ToMap(lb) + ToMap(rt), p, v, val);
      } else if Coord(key, o) < Coord(p, o) {
        var lb' := Insert(lb, key, val, ClipBelow(rect, p, o), !o);
        assert ToMap(Insert(x, key, val, rect, o)) == ToMap(lb') + ToMap(rt) + own;
        InsertToMap(lb, key, val, ClipBelow(rect, p, o), !o);
        KeysToMap(rt);
        UnionLeftUpdated(ToMap(lb), ToMap(lb'), ToMap(rt), own, key, val);
      } else {
        var rt' := Insert(rt, key, val, ClipAbove(rect, p, o), !o);
        assert ToMap(Insert(x, key, val, rect, o)) == ToMap(lb) + ToMap(rt') + own;
        InsertToMap(rt, key, val, ClipAbove(rect, p, o), !o);
        UnionMiddleUpdated(ToMap(lb), ToMap(rt), ToMap(rt'), own, key, val);
      }
  }

  lemma OverwriteLast<V>(a: map<Point, V>, p: Point, v: V, val: V)
    ensures a + map[p := val] == (a + map[p := v])[p := val]
  {
  }

  /** Updating the left operand of a union at a key the other operands do
      not hold is updating the union. */
  lemma UnionLeftUpdated<V>(a: map<Point, V>, a': map<Point, V>, b: map<Point, V>, c: map<Point, V>, key: Point, val: V)
    requires a' == a[key := val]
    requires key !in b && key !in c
    ensures a' + b + c == (a + b + c)[key := val]
  {
  }

  /** Updating the middle operand of a union at a key the last operand does
      not hold is updating the union. */
  lemma UnionMiddleUpdated<V>(a: map<Point, V>, b: map<Point, V>, b': map<Point, V>, c: map<Point, V>, key: Point, val: V)
    requires b' == b[key := val]
    requires key !in c
    ensures a + b' + c == (a + b + c)[key := val]
  {
  }

  /** put creates a node exactly when the key is new. */
  lemma {:induction false} InsertCount<V>(x: Tree<V>, key: Point, val: V, rect: Rect, o: bool)
    requires Ordered(x, o)
    ensures Count(Insert(x, key, val, rect, o)) == Count(x) + (if key in Keys(x) then 0 else 1)
  {
    match x
    case Nil =>
    case Node(p, _, _, lb, rt) =>
      if p == key {
      } else if Coord(key, o) < Coord(p, o) {
        assert key !in Keys(rt);
        InsertCount(lb, key, val, ClipBelow(rect, p, o), !o);
      } else {
        assert key !in Keys(lb);
        InsertCount(rt, key, val, ClipAbove(rect, p, o), !o);
      }
  }

  /** The whole invariant survives a put of a key inside the root region. */
  lemma InsertInv<V>(t: Tree<V>, key: Point, val: V)
    requires Inv(t) && Contains(RootRect, key)
    ensures Inv(Insert(t, key, val, RootRect, VERTICAL))
  {
    InsertOrdered(t, key, val, RootRect, VERTICAL);
    InsertRegions(t, key, val, RootRect, VERTICAL);
    InsertDistinct(t, key, val, RootRect, VERTICAL);
  }

  // ---------------------------------------------------------------------
  // get

  /** get after put finds the value just put: both follow the same path. */
  lemma {:induction false} FindInsertSame<V>(x: Tree<V>, key: Point, val: V, rect: Rect, o: bool)
    ensures Find(Insert(x, key, val, rect, o), key, o) == Some(val)
  {
    match x
    case Nil =>
    case Node(p, _, _, lb, rt) =>
      if p == key {
      } else if Coord(key, o) < Coord(p, o) {
        FindInsertSame(lb, key, val, ClipBelow(rect, p, o), !o);
      } else {
        FindInsertSame(rt, key, val, ClipAbove(rect, p, o), !o);
      }
  }

  /** put leaves get of every other key unchanged. */
  lemma {:induction false} FindInsertOther<V>(x: Tree<V>, key: Point, val: V, rect: Rect, o: bool, other: Point)
    requires other != key
    ensures Find(Insert(x, key, val, rect, o), other, o) == Find(x, other, o)
  {
    match x
    case Nil =>
    case Node(p, _, _, lb, rt) =>
      if p == key {
      } else if Coord(key, o) < Coord(p, o) {
        FindInsertOther(lb, key, val, ClipBelow(rect, p, o), !o, other);
      } else {
        FindInsertOther(rt, key, val, ClipAbove(rect, p, o), !o, other);
      }
  }

  /** In an ordered tree get is map lookup: the single comparison path
      reaches every stored key, and get is null exactly for missing keys. */
  lemma {:induction false} FindIsLookup<V>(t: Tree<V>, key: Point, o: bool)
    requires Ordered(t, o)
    ensures Find(t, key, o) == if key in ToMap(t) then Some(ToMap(t)[key]) else None
  {
    match t
    case Nil =>
    case Node(p, v, _, lb, rt) =>
      KeysToMap(lb);
      KeysToMap(rt);
      if p == key {
      } else if Coord(key, o) < Coord(p, o) {
        assert key !in ToMap(rt);
        FindIsLookup(lb, key, !o);
      } else {
        assert key !in ToMap(lb);
        FindIsLookup(rt, key, !o);
      }
  }

  // ---------------------------------------------------------------------
  // Regions and pruning

  /** Every point of a subtree lies in the region the invariant assigns it,
      and every node's stored rectangle covers its subtree. */
  lemma {:induction false} RegionsCover<V>(t: Tree<V>, rect: Rect, o: bool)
    requires Regions(t, rect, o)
    ensures forall k :: k in Keys(t) ==> Contains(rect, k)
    ensures Covers(t)
  {
    match t
    case Nil =>
    case Node(p, _, _, lb, rt) =>
      RegionsCover(lb, ClipBelow(rect, p, o), !o);
      RegionsCover(rt, ClipAbove(rect, p, o), !o);
  }

  /** The range prune: a subtree whose region misses the query rectangle
      holds no point the query contains. */
  lemma RangePruneSound<V>(t: Tree<V>, query: Rect)
    requires Covers(t) && t.Node? && !Intersects(t.rect, query)
    ensures Within(PreOrder(t), query) == []
  {
    PreOrderMembers(t);
    WithinNoneContained(PreOrder(t), query);
  }

  /** range(queue, x, rect) as a value: nothing from a null subtree or from
      one whose stored rectangle misses rect; otherwise x's point when rect
      contains it, then the matches in lb, then those in rt. */
  function RangeWalk<V>(x: Tree<V>, rect: Rect): seq<Point> {
    match x
    case Nil => []
    case Node(p, _, r, lb, rt) =>
      if !Intersects(r, rect) then []
      else (if Contains(rect, p) then [p] else []) + RangeWalk(lb, rect) + RangeWalk(rt, rect)
  }

  /** Under the region invariant the pruned walk reports exactly the points
      of the pre-order enumeration that rect contains, in that order. */
  lemma {:induction false} RangeWalkSound<V>(x: Tree<V>, rect: Rect, region: Rect, o: bool)
    requires Regions(x, region, o)
    ensures RangeWalk(x, rect) == Within(PreOrder(x), rect)
  {
    match x
    case Nil =>
    case Node(p, _, r, lb, rt) =>
      if !Intersects(r, rect) {
        RegionsCover(x, region, o);
        RangePruneSound(x, rect);
      } else {
        RangeWalkSound(lb, rect, ClipBelow(region, p, o), !o);
        RangeWalkSound(rt, rect, ClipAbove(region, p, o), !o);
        assert PreOrder(x) == [p] + PreOrder(lb) + PreOrder(rt);
        WithinConcat([p] + PreOrder(lb), PreOrder(rt), rect);
        WithinConcat([p], PreOrder(lb), rect);
      }
  }

  // ---------------------------------------------------------------------
  // nearest, as written

  /** What nearest(x, q, nearestKnown) does promise: nothing for a null
      subtree; otherwise a point of the subtree that is either the
      subtree's root point or strictly closer (squared) than nearestKnown. */
  lemma {:induction false} NearestFromFacts<V>(x: Tree<V>, q: Point, known: real, o: bool)
    ensures NearestFrom(x, q, known, o).None? <==> x.Nil?
    ensures NearestFrom(x, q, known, o).Some? ==> NearestFrom(x, q, known, o).value in Keys(x)
    ensures x.Node? && NearestFrom(x, q, known, o) != Some(x.point) ==>
              Dist2(NearestFrom(x, q, known, o).value, q) < known
  {
    match x
    case Nil =>
    case Node(p, _, rect, lb, rt) =>
      if !DistanceExceeds(rect, q, known) {
        var start := Best(known, p);
        if Coord(q, o) >= Coord(p, o) {
          NearestFromFacts(rt, q, known, !o);
          var afterRt := Improve(start, NearestFrom(rt, q, known, !o), q);
          NearestFromFacts(lb, q, afterRt.dist, !o);
        } else {
          NearestFromFacts(lb, q, known, !o);
          var afterLb := Improve(start, NearestFrom(lb, q, known, !o), q);
          NearestFromFacts(rt, q, afterLb.dist, !o);
        }
      }
  }

  // ---------------------------------------------------------------------
  // nearest, corrected

  /** The nearest search the algorithm intends: the node's own point competes
      with the best so far, and a subtree is skipped only when the squared
      distance to its rectangle exceeds the best squared distance. The result
      is best or a point of x, and no point of x is closer to q. */
  function NearestWithin<V>(x: Tree<V>, q: Point, best: Point, o: bool): (r: Point)
    requires Covers(x)
    ensures r == best || r in Keys(x)
    ensures Dist2(r, q) <= Dist2(best, q)
    ensures forall k :: k in Keys(x) ==> Dist2(r, q) <= Dist2(k, q)
    decreases x
  {
    match x
    case Nil => best
    case Node(p, _, rect, lb, rt) =>
      if RectDist2(rect, q) > Dist2(best, q) then
        PruneSound(x, q);
        best
      else
        var own := if Dist2(p, q) < Dist2(best, q) then p else best;
        if Coord(q, o) >= Coord(p, o) then
          NearestWithin(lb, q, NearestWithin(rt, q, own, !o), !o)
        else
          NearestWithin(rt, q, NearestWithin(lb, q, own, !o), !o)
  }

  /** The distance prune: no point of a subtree is closer to q than the
      rectangle stored at its root. */
  lemma PruneSound<V>(t: Tree<V>, q: Point)
    requires Covers(t) && t.Node?
    ensures forall k :: k in Keys(t) ==> RectDist2(t.rect, q) <= Dist2(k, q)
  {
    forall k | k in Keys(t) ensures RectDist2(t.rect, q) <= Dist2(k, q) {
      RectDist2LowerBound(t.rect, q, k);
    }
  }

  /** The corrected nearest(p): None for an empty tree, otherwise a stored
      point at minimal squared distance from q, seeded with the root's point. */
  function NearestOf<V>(t: Tree<V>, q: Point): (r: Option<Point>)
    requires Covers(t)
    ensures r.None? <==> t.Nil?
    ensures r.Some? ==> r.value in Keys(t)
    ensures r.Some? ==> forall k :: k in Keys(t) ==> Dist2(r.value, q) <= Dist2(k, q)
  {
    match t
    case Nil => None
    case Node(p, _, _, _, _) => Some(NearestWithin(t, q, p, VERTICAL))
  }
}
