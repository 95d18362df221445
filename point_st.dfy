/** PointST: the brute-force symbol table. Its ordered symbol table of points
    (a red-black BST) is modelled as the map it represents together with the
    sequence in which keys() enumerates the stored points: ascending in the
    order of Point2D.compareTo, by y and then by x. */
module BruteForce {
  import opened Results
  import opened Geometry
  import opened PointSeqs

  /** Point2D.compareTo(a, b) < 0: a has the smaller y, or the same y and the
      smaller x. */
  predicate Precedes(a: Point, b: Point) {
    a.y < b.y || (a.y == b.y && a.x < b.x)
  }

  /** Strictly ascending in the order of Point2D.compareTo. */
  predicate Sorted(s: seq<Point>) {
    forall i, j :: 0 <= i < j < |s| ==> Precedes(s[i], s[j])
  }

  /** An ascending enumeration has no duplicates. */
  lemma SortedNoDuplicates(s: seq<Point>)
    requires Sorted(s)
    ensures NoDuplicates(s)
  {
  }

  /** The key enumeration after the ordered table's put(p): p takes its place
      in the ascending order unless it is already stored. */
  function InsertSorted(s: seq<Point>, p: Point): seq<Point> {
    if s == [] then [p]
    else if Precedes(p, s[0]) then [p] + s
    else if p == s[0] then s
    else [s[0]] + InsertSorted(s[1..], p)
  }

  /** Inserting into an ascending enumeration keeps it ascending, adds exactly
      p, and changes nothing when p is already there. */
  lemma {:induction false} InsertSortedFacts(s: seq<Point>, p: Point)
    requires Sorted(s)
    ensures forall k :: k in InsertSorted(s, p) <==> k in s || k == p
    ensures Sorted(InsertSorted(s, p))
    ensures p in s ==> InsertSorted(s, p) == s
  {
    if s == [] {
    } else if Precedes(p, s[0]) {
      forall k | k in s ensures Precedes(p, k) {
        var i :| 0 <= i < |s| && s[i] == k;
        if i > 0 { assert Precedes(s[0], s[i]); }
      }
      var t := [p] + s;
      forall i, j | 0 <= i < j < |t| ensures Precedes(t[i], t[j]) {
        if i == 0 { assert t[j] == s[j - 1]; } else { assert t[i] == s[i - 1] && t[j] == s[j - 1]; }
      }
    } else if p == s[0] {
    } else {
      var rest := s[1..];
      assert Sorted(rest) by {
        forall i, j | 0 <= i < j < |rest| ensures Precedes(rest[i], rest[j]) {
          assert rest[i] == s[i + 1] && rest[j] == s[j + 1];
        }
      }
      InsertSortedFacts(rest, p);
      var t := InsertSorted(rest, p);
      assert Precedes(s[0], p);
      forall k | k in t ensures Precedes(s[0], k) {
        if k != p {
          var i :| 0 <= i < |rest| && rest[i] == k;
          assert s[i + 1] == k;
        }
      }
      var u := [s[0]] + t;
      forall i, j | 0 <= i < j < |u| ensures Precedes(u[i], u[j]) {
        assert u[j] == t[j - 1];
        if i > 0 { assert u[i] == t[i - 1]; }
      }
      assert s == [s[0]] + rest;
    }
  }

  /** The arg-min scan of nearest(p): walk s, and replace the best point so far
      whenever a point is strictly closer than the best distance so far. */
  function Scan(s: seq<Point>, q: Point, best: Option<Point>, bestDist: real): Option<Point> {
    if s == [] then best
    else if Dist2(s[0], q) < bestDist then Scan(s[1..], q, Some(s[0]), Dist2(s[0], q))
    else Scan(s[1..], q, best, bestDist)
  }

  /** The point nearest(p) reports for the enumeration s: the scan seeded with
      no point and Double.MAX_VALUE. */
  function LinearNearest(s: seq<Point>, q: Point): Option<Point> {
    Scan(s, q, None, MAX_VALUE)
  }

  /** s[i] is at least as close to q as every point of s, and strictly closer
      than every point before it. */
  predicate FirstNearestAt(s: seq<Point>, q: Point, i: int)
    requires 0 <= i < |s|
  {
    (forall j :: 0 <= j < |s| ==> Dist2(s[j], q) >= Dist2(s[i], q))
    && (forall j :: 0 <= j < i ==> Dist2(s[j], q) > Dist2(s[i], q))
  }

  /** The scan keeps its seed when no point beats the seed distance; otherwise
      it ends on a point that beats the seed, is at least as close as every
      point of s, and is strictly closer than every point before it (the first
      minimum wins). */
  lemma {:induction false} ScanFacts(s: seq<Point>, q: Point, best: Option<Point>, bestDist: real)
    ensures var r := Scan(s, q, best, bestDist);
      (r == best && forall j :: 0 <= j < |s| ==> Dist2(s[j], q) >= bestDist)
      || (r.Some? && exists i :: 0 <= i < |s| && s[i] == r.value && Dist2(s[i], q) < bestDist && FirstNearestAt(s, q, i))
  {
    if s != [] {
      var d0 := Dist2(s[0], q);
      var rest := s[1..];
      var r := Scan(s, q, best, bestDist);
      if d0 < bestDist {
        ScanFacts(rest, q, Some(s[0]), d0);
        if r == Some(s[0]) && forall j :: 0 <= j < |rest| ==> Dist2(rest[j], q) >= d0 {
          AtLeastOnCons(s, q, d0);
          assert FirstNearestAt(s, q, 0);
        } else {
          var i :| 0 <= i < |rest| && rest[i] == r.value && Dist2(rest[i], q) < d0 && FirstNearestAt(rest, q, i);
          FirstNearestOnCons(s, q, i);
        }
      } else {
        ScanFacts(rest, q, best, bestDist);
        if r == best && forall j :: 0 <= j < |rest| ==> Dist2(rest[j], q) >= bestDist {
          AtLeastOnCons(s, q, bestDist);
        } else {
          var i :| 0 <= i < |rest| && rest[i] == r.value && Dist2(rest[i], q) < bestDist && FirstNearestAt(rest, q, i);
          FirstNearestOnCons(s, q, i);
        }
      }
    }
  }

  /** A bound met by the head and by every point of the tail is met by all. */
  lemma AtLeastOnCons(s: seq<Point>, q: Point, bound: real)
    requires s != [] && Dist2(s[0], q) >= bound
    requires forall j :: 0 <= j < |s[1..]| ==> Dist2(s[1..][j], q) >= bound
    ensures forall j :: 0 <= j < |s| ==> Dist2(s[j], q) >= bound
  {
    forall j | 0 < j < |s| ensures Dist2(s[j], q) >= bound {
      assert s[j] == s[1..][j - 1];
    }
  }

  /** The first nearest point of the tail is the first nearest point of the
      whole sequence when the head is strictly farther. */
  lemma FirstNearestOnCons(s: seq<Point>, q: Point, i: int)
    requires s != [] && 0 <= i < |s[1..]| && FirstNearestAt(s[1..], q, i)
    requires Dist2(s[0], q) > Dist2(s[1..][i], q)
    ensures s[i + 1] == s[1..][i] && FirstNearestAt(s, q, i + 1)
  {
    var rest := s[1..];
    forall j | 0 < j < |s| ensures s[j] == rest[j - 1] && Dist2(s[j], q) >= Dist2(rest[i], q) {
      assert s[j] == rest[j - 1];
    }
    forall j | 0 < j < i + 1 ensures Dist2(s[j], q) > Dist2(rest[i], q) {
      assert s[j] == rest[j - 1];
    }
  }

  /** nearest(p) finds nothing exactly when every point is at squared distance
      Double.MAX_VALUE or more (in particular when s is empty); otherwise its
      result is the first point of s at minimal squared distance. */
  lemma LinearNearestFacts(s: seq<Point>, q: Point)
    ensures LinearNearest(s, q).None? <==> forall j :: 0 <= j < |s| ==> Dist2(s[j], q) >= MAX_VALUE
    ensures LinearNearest(s, q).Some? ==>
      exists i :: 0 <= i < |s| && s[i] == LinearNearest(s, q).value && FirstNearestAt(s, q, i)
  {
    ScanFacts(s, q, None, MAX_VALUE);
  }

  /** The enumeration follows the key order, not the order of the puts:
      after put((1, 0)) and put((-1, 0)), keys() yields (-1, 0) first, so for
      the query (0, 0), where both are at squared distance 1, nearest keeps
      (-1, 0). */
  lemma KeyOrderTieBreak()
    ensures var a, b := Point(1.0, 0.0), Point(-1.0, 0.0);
      var s := InsertSorted(InsertSorted([], a), b);
      && s == [b, a]
      && LinearNearest(s, Point(0.0, 0.0)) == Some(b)
  {
    var a, b, q := Point(1.0, 0.0), Point(-1.0, 0.0), Point(0.0, 0.0);
    assert InsertSorted(InsertSorted([], a), b) == [b, a];
    assert Dist2(b, q) == 1.0 && Dist2(a, q) == 1.0;
    assert [b, a][1..] == [a];
    assert Scan([a], q, Some(b), 1.0) == Scan([], q, Some(b), 1.0);
  }

  class PointST<V> {
    var points: map<Point, V>
    var keys: seq<Point>

    /** keys enumerates the stored points in ascending order. */
    ghost predicate Valid()
      reads this
    {
      Sorted(keys) && forall k :: k in keys <==> k in points
    }

    /** An empty symbol table. */
    constructor ()
      ensures Valid()
      ensures points == map[] && keys == []
    {
      points := map[];
      keys := [];
    }

    /** size(): the number of stored points. */
    function Size(): (n: nat)
      reads this
      requires Valid()
      ensures n == |keys|
      ensures n == |points.Keys|
    {
      SortedNoDuplicates(keys);
      NoDuplicatesCardinality(keys, points.Keys);
      |points|
    }

    /** isEmpty(): whether size() is zero. */
    function IsEmpty(): (b: bool)
      reads this
      requires Valid()
      ensures b <==> keys == []
      ensures b <==> points == map[]
    {
      var n := Size();
      assert points == map[] <== points.Keys == {};
      n == 0
    }

    /** put(p, val): a null point or value throws before anything changes;
        otherwise val is stored under p, a new point taking its place in the
        ascending enumeration. */
    method Put(p: Option<Point>, val: Option<V>) returns (r: Outcome)
      requires Valid()
      modifies this
      ensures Valid()
      ensures r.Fail? <==> p.None? || val.None?
      ensures r.Fail? ==> points == old(points) && keys == old(keys)
      ensures r.Pass? ==> points == old(points)[p.value := val.value]
      ensures r.Pass? ==> keys == InsertSorted(old(keys), p.value)
      ensures r.Pass? && p.value in old(points) ==> keys == old(keys)
    {
      if p.None? || val.None? {
        return Fail(NullPointer);
      }
      InsertSortedFacts(keys, p.value);
      keys := InsertSorted(keys, p.value);
      points := points[p.value := val.value];
      r := Pass;
    }

    /** get(p): the value stored under p, None (null) when there is none; a
        null point throws. */
    function Get(p: Option<Point>): (r: Result<Option<V>>)
      reads this
      requires Valid()
      ensures r.Err? <==> p.None?
      ensures r.Ok? ==> (r.value.Some? <==> p.value in keys)
      ensures r.Ok? && r.value.Some? ==> r.value.value == points[p.value]
    {
      if p.None? then Err(NullPointer)
      else if p.value in points then Ok(Some(points[p.value]))
      else Ok(None)
    }

    /** contains(p): whether p is stored; a null point throws. */
    function Contains(p: Option<Point>): (r: Result<bool>)
      reads this
      requires Valid()
      ensures r.Err? <==> p.None?
      ensures r.Ok? ==> (r.value <==> p.value in keys)
    {
      if p.None? then Err(NullPointer) else Ok(p.value in points)
    }

    /** points(): every stored point once, in ascending order. */
    function Points(): (s: seq<Point>)
      reads this
      requires Valid()
      ensures Sorted(s) && NoDuplicates(s) && |s| == Size()
      ensures forall k :: k in s <==> k in points
    {
      SortedNoDuplicates(keys);
      keys
    }

    /** range(rect): walk points() and enqueue each point rect contains; a
        null rectangle throws. */
    method Range(rect: Option<Rect>) returns (r: Result<seq<Point>>)
      requires Valid()
      ensures r.Err? <==> rect.None?
      ensures r.Ok? ==> r.value == Within(keys, rect.value)
      ensures r.Ok? ==> NoDuplicates(r.value)
      ensures r.Ok? ==> forall k :: k in r.value <==> k in points && Geometry.Contains(rect.value, k)
    {
      if rect.None? {
        return Err(NullPointer);
      }
      var queue := new PointQueue();
      var all := Points();
      var i := 0;
      while i < |all|
        invariant 0 <= i <= |all|
        invariant queue.items == Within(all[..i], rect.value)
      {
        var current := all[i];
        if Geometry.Contains(rect.value, current) {
          queue.Enqueue(current);
        }
        assert all[..i + 1] == all[..i] + [current];
        WithinConcat(all[..i], [current], rect.value);
        i := i + 1;
      }
      assert all[..i] == all;
      SortedNoDuplicates(keys);
      WithinNoDuplicates(keys, rect.value);
      WithinMembers(keys, rect.value);
      r := Ok(queue.items);
    }

    /** nearest(p): walk points() keeping the strictly closest point so far,
        starting from null at distance Double.MAX_VALUE; a null query throws. */
    method Nearest(p: Option<Point>) returns (r: Result<Option<Point>>)
      requires Valid()
      ensures r.Err? <==> p.None?
      ensures r.Ok? ==> r.value == LinearNearest(keys, p.value)
      ensures r.Ok? ==> (r.value.None? <==> forall k :: k in points ==> Dist2(k, p.value) >= MAX_VALUE)
      ensures r.Ok? && r.value.Some? ==> r.value.value in points
      ensures r.Ok? && r.value.Some? ==> forall k :: k in points ==> Dist2(r.value.value, p.value) <= Dist2(k, p.value)
    {
      if p.None? {
        return Err(NullPointer);
      }
      var q := p.value;
      var minDistP: Option<Point> := None;
      var minDistance := MAX_VALUE;
      var all := Points();
      var i := 0;
      while i < |all|
        invariant 0 <= i <= |all|
        invariant LinearNearest(all, q) == Scan(all[i..], q, minDistP, minDistance)
      {
        var current := all[i];
        var distanceToP := Dist2(current, q);
        assert all[i..][1..] == all[i + 1..];
        if distanceToP < minDistance {
          minDistP := Some(current);
          minDistance := distanceToP;
        }
        i := i + 1;
      }
      assert all[i..] == [];
      LinearNearestFacts(keys, q);
      r := Ok(minDistP);
    }
  }
}
