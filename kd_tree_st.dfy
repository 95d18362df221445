/** KdTreeST: the 2d-tree symbol table. The object owns the root subtree and
    the node count; every public operation rejects a null argument before
    doing anything else. */
module KdTrees {
  import opened Results
  import opened Geometry
  import opened PointSeqs
  import opened KdNodes

  class KdTreeST<V> {
    var root: Tree<V>
    var size: nat

    /** The object invariant: the root subtree is a valid 2d-tree over the
        root region, and size counts its nodes. */
    ghost predicate Valid()
      reads this
    {
      Inv(root) && size == Count(root)
    }

    /** An empty symbol table. */
    constructor ()
      ensures Valid()
      ensures root == Nil && size == 0
    {
      size := 0;
      root := Nil;
    }

    /** isEmpty(): true exactly when no point is stored. */
    function IsEmpty(): (b: bool)
      reads this
      requires Valid()
      ensures b <==> Keys(root) == {}
    {
      CountKeys(root);
      size == 0
    }

    /** size(): the number of nodes, which is the number of distinct points. */
    function Size(): (n: nat)
      reads this
      requires Valid()
      ensures n == Count(root)
      ensures n == |Keys(root)|
    {
      CountKeys(root);
      size
    }

    /** put(p, val): store val under p, overwriting an existing value. A
        null point or value throws before anything changes. */
    method Put(p: Option<Point>, val: Option<V>) returns (r: Outcome)
      requires Valid()
      requires p.Some? ==> Geometry.Contains(RootRect, p.value)
      modifies this
      ensures Valid()
      ensures r.Fail? <==> p.None? || val.None?
      ensures r.Fail? ==> root == old(root) && size == old(size)
      ensures r.Pass? ==> root == Insert(old(root), p.value, val.value, RootRect, VERTICAL)
      ensures r.Pass? ==> ToMap(root) == ToMap(old(root))[p.value := val.value]
      ensures r.Pass? ==> Keys(root) == Keys(old(root)) + {p.value}
      ensures r.Pass? ==> size == old(size) + (if p.value in Keys(old(root)) then 0 else 1)
    {
      if p.None? || val.None? {
        return Fail(NullPointer);
      }
      ghost var before := root;
      var newRoot := PutAt(root, p.value, val.value, RootRect, VERTICAL);
      root := newRoot;
      InsertInv(before, p.value, val.value);
      InsertToMap(before, p.value, val.value, RootRect, VERTICAL);
      InsertKeys(before, p.value, val.value, RootRect, VERTICAL);
      InsertCount(before, p.value, val.value, RootRect, VERTICAL);
      r := Pass;
    }

    /** The recursive put: a node is created, and size incremented, only where
        the search reaches a null link; an equal key has its value
        overwritten; each child link is reassigned to the updated subtree. */
    method PutAt(x: Tree<V>, key: Point, val: V, rect: Rect, o: bool) returns (r: Tree<V>)
      modifies this`size
      ensures r == Insert(x, key, val, rect, o)
      ensures size == old(size) + Count(r) - Count(x)
      decreases x
    {
      match x
      case Nil =>
        size := size + 1;
        r := Node(key, val, rect, Nil, Nil);
      case Node(p, v, nodeRect, lb, rt) =>
        if p == key {
          r := Node(p, val, nodeRect, lb, rt);
        } else if Coord(key, o) < Coord(p, o) {
          var newLb := PutAt(lb, key, val, ClipBelow(rect, p, o), !o);
          r := Node(p, v, nodeRect, newLb, rt);
        } else {
          var newRt := PutAt(rt, key, val, ClipAbove(rect, p, o), !o);
          r := Node(p, v, nodeRect, lb, newRt);
        }
    }

    /** get(p): the value stored under p, None (null) when there is none. */
    function Get(p: Option<Point>): (r: Result<Option<V>>)
      reads this
      requires Valid()
      ensures r.Err? <==> p.None?
      ensures r.Ok? ==> r.value == if p.value in ToMap(root) then Some(ToMap(root)[p.value]) else None
    {
      if p.None? then Err(NullPointer)
      else
        FindIsLookup(root, p.value, VERTICAL);
        Ok(Find(root, p.value, VERTICAL))
    }

    /** contains(p): whether get(p) is non-null. */
    function Contains(p: Option<Point>): (r: Result<bool>)
      reads this
      requires Valid()
      ensures r.Err? <==> p.None?
      ensures r.Ok? ==> (r.value <==> p.value in Keys(root))
    {
      KeysToMap(root);
      match Get(p)
      case Err(e) => Err(e)
      case Ok(v) => Ok(v.Some?)
    }

    /** points(): every stored point once, in pre-order. */
    method Points() returns (s: seq<Point>)
      requires Valid()
      ensures s == PreOrder(root)
      ensures NoDuplicates(s) && |s| == size
      ensures forall k :: k in s <==> k in Keys(root)
    {
      var queue := new PointQueue();
      KeysInto(root, queue);
      s := queue.items;
      PreOrderMembers(root);
      PreOrderNoDuplicates(root);
    }

    /** keys(x, queue): enqueue x's point, then its left/bottom subtree, then
        its right/top subtree. */
    method KeysInto(x: Tree<V>, queue: PointQueue)
      modifies queue
      ensures queue.items == old(queue.items) + PreOrder(x)
      decreases x
    {
      match x
      case Nil =>
      case Node(p, _, _, lb, rt) =>
        queue.Enqueue(p);
        KeysInto(lb, queue);
        KeysInto(rt, queue);
    }

    /** range(rect): the stored points rect contains (inclusively), each
        once, in pre-order; a null rectangle throws. */
    method Range(rect: Option<Rect>) returns (r: Result<seq<Point>>)
      requires Valid()
      ensures r.Err? <==> rect.None?
      ensures r.Ok? ==> r.value == Within(PreOrder(root), rect.value)
      ensures r.Ok? ==> NoDuplicates(r.value)
      ensures r.Ok? ==> forall k :: k in r.value <==> k in Keys(root) && Geometry.Contains(rect.value, k)
    {
      if rect.None? {
        return Err(NullPointer);
      }
      var queue := new PointQueue();
      RangeInto(queue, root, rect.value);
      RangeWalkSound(root, rect.value, RootRect, VERTICAL);
      PreOrderMembers(root);
      PreOrderNoDuplicates(root);
      WithinNoDuplicates(PreOrder(root), rect.value);
      WithinMembers(PreOrder(root), rect.value);
      r := Ok(queue.items);
    }

    /** range(queue, x, rect): skip a subtree whose stored rectangle misses
        rect; otherwise enqueue x's point if rect contains it and search both
        children. */
    method RangeInto(queue: PointQueue, x: Tree<V>, rect: Rect)
      modifies queue
      ensures queue.items == old(queue.items) + RangeWalk(x, rect)
      decreases x
    {
      match x
      case Nil =>
      case Node(p, _, nodeRect, lb, rt) =>
        if !Intersects(nodeRect, rect) {
          return;
        }
        if Geometry.Contains(rect, p) {
          queue.Enqueue(p);
        }
        RangeInto(queue, lb, rect);
        RangeInto(queue, rt, rect);
    }

    /** nearest(p), as written: a null query throws, and so does an empty
        table (root.point is dereferenced to seed the search); otherwise the
        result is a stored point no farther from p than the root's point. */
    function Nearest(p: Option<Point>): (r: Result<Point>)
      reads this
      requires Valid()
      ensures r.Ok? <==> p.Some? && root.Node?
      ensures r.Ok? ==> r.value in Keys(root)
      ensures r.Ok? ==> Dist2(r.value, p.value) <= Dist2(root.point, p.value)
    {
      if p.None? || root.Nil? then Err(NullPointer)
      else
        var known := Dist2(root.point, p.value);
        NearestFromFacts(root, p.value, known, VERTICAL);
        Ok(NearestFrom(root, p.value, known, VERTICAL).value)
    }
  
    /** nearest(p) as its documentation promises it: a null query throws, an
        empty table has no nearest point, and otherwise the result is a
        stored point no stored point is closer to p than. */
    function NearestNeighbour(p: Option<Point>): (r: Result<Option<Point>>)
      reads this
      requires Valid()
      ensures r.Err? <==> p.None?
      ensures r.Ok? ==> (r.value.None? <==> Keys(root) == {})
      ensures r.Ok? && r.value.Some? ==> r.value.value in Keys(root)
      ensures r.Ok? && r.value.Some? ==> forall k :: k in Keys(root) ==> Dist2(r.value.value, p.value) <= Dist2(k, p.value)
    {
      if p.None? then Err(NullPointer)
      else
        RegionsCover(root, RootRect, VERTICAL);
        Ok(NearestOf(root, p.value))
    }
  }
}
