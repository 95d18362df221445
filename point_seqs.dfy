/** Sequences of points: the queue both symbol tables fill (algs4's Queue),
    the inclusive-rectangle filter that specifies every range query, and the
    facts about duplicate-free sequences that relate a sequence to the set
    of keys it enumerates. */
module PointSeqs {
  import opened Geometry

  /** No point occurs twice. */
  predicate NoDuplicates(s: seq<Point>) {
    forall i, j :: 0 <= i < j < |s| ==> s[i] != s[j]
  }

  /** The points of s that r contains, in the order of s. */
  function Within(s: seq<Point>, r: Rect): seq<Point> {
    if s == [] then []
    else (if Contains(r, s[0]) then [s[0]] else []) + Within(s[1..], r)
  }

  /** The filter keeps exactly the points of s that r contains. */
  lemma {:induction false} WithinMembers(s: seq<Point>, r: Rect)
    ensures forall k :: k in Within(s, r) <==> k in s && Contains(r, k)
    ensures |Within(s, r)| <= |s|
  {
    if s != [] {
      WithinMembers(s[1..], r);
    }
  }

  lemma {:induction false} WithinConcat(a: seq<Point>, b: seq<Point>, r: Rect)
    ensures Within(a + b, r) == Within(a, r) + Within(b, r)
  {
    if a == [] {
      assert a + b == b;
    } else {
      assert (a + b)[0] == a[0];
      assert (a + b)[1..] == a[1..] + b;
      WithinConcat(a[1..], b, r);
    }
  }

  /** Filtering a sequence none of whose points r contains leaves nothing. */
  lemma {:induction false} WithinNoneContained(s: seq<Point>, r: Rect)
    requires forall k :: k in s ==> !Contains(r, k)
    ensures Within(s, r) == []
  {
    if s != [] {
      assert s[0] in s;
      WithinNoneContained(s[1..], r);
    }
  }

  lemma NoDuplicatesConcat(a: seq<Point>, b: seq<Point>)
    requires NoDuplicates(a) && NoDuplicates(b)
    requires forall k :: k in a ==> k !in b
    ensures NoDuplicates(a + b)
  {
    forall i, j | 0 <= i < j < |a + b|
      ensures (a + b)[i] != (a + b)[j]
    {
      if j < |a| {
      } else if i < |a| {
        assert (a + b)[i] in a;
        assert (a + b)[j] == b[j - |a|];
      } else {
        assert (a + b)[i] == b[i - |a|];
      }
    }
  }

  /** A node's point followed by two disjoint duplicate-free enumerations
      that do not hold it is duplicate-free. */
  lemma NoDuplicatesJoin(p: Point, a: seq<Point>, b: seq<Point>)
    requires NoDuplicates(a) && NoDuplicates(b)
    requires p !in a && p !in b
    requires forall k :: k in a ==> k !in b
    ensures NoDuplicates([p] + a + b)
  {
    NoDuplicatesConcat(a, b);
    NoDuplicatesConcat([p], a + b);
    assert [p] + a + b == [p] + (a + b);
  }

  lemma {:induction false} WithinNoDuplicates(s: seq<Point>, r: Rect)
    requires NoDuplicates(s)
    ensures NoDuplicates(Within(s, r))
  {
    if s != [] {
      assert NoDuplicates(s[1..]) by {
        forall i, j | 0 <= i < j < |s[1..]| ensures s[1..][i] != s[1..][j] {
          assert s[1..][i] == s[i + 1] && s[1..][j] == s[j + 1];
        }
      }
      WithinNoDuplicates(s[1..], r);
      WithinMembers(s[1..], r);
      assert s[0] !in s[1..] by {
        forall j | 0 <= j < |s[1..]| ensures s[1..][j] != s[0] {
          assert s[1..][j] == s[j + 1];
        }
      }
      NoDuplicatesConcat(if Contains(r, s[0]) then [s[0]] else [], Within(s[1..], r));
    }
  }

  /** A duplicate-free enumeration of a set has as many elements as the set. */
  lemma {:induction false} NoDuplicatesCardinality(s: seq<Point>, keys: set<Point>)
    requires NoDuplicates(s)
    requires forall k :: k in s <==> k in keys
    ensures |s| == |keys|
  {
    if s != [] {
      var rest := s[1..];
      assert NoDuplicates(rest) by {
        forall i, j | 0 <= i < j < |rest| ensures rest[i] != rest[j] {
          assert rest[i] == s[i + 1] && rest[j] == s[j + 1];
        }
      }
      assert forall k :: k in rest <==> k in keys - {s[0]} by {
        forall k ensures k in rest <==> k in keys - {s[0]} {
          if k in rest {
            var j :| 0 <= j < |rest| && rest[j] == k;
            assert s[j + 1] == k;
          }
          if k in s && k != s[0] {
            var j :| 0 <= j < |s| && s[j] == k;
            assert j != 0;
            assert rest[j - 1] == k;
          }
        }
      }
      NoDuplicatesCardinality(rest, keys - {s[0]});
    }
  }

  /** In a duplicate-free sequence every point occurs once or not at all. */
  lemma {:induction false} NoDuplicatesMultiplicity(s: seq<Point>, k: Point)
    requires NoDuplicates(s)
    ensures multiset(s)[k] == if k in s then 1 else 0
  {
    if s != [] {
      var rest := s[1..];
      assert s == [s[0]] + rest;
      assert NoDuplicates(rest) by {
        forall i, j | 0 <= i < j < |rest| ensures rest[i] != rest[j] {
          assert rest[i] == s[i + 1] && rest[j] == s[j + 1];
        }
      }
      assert s[0] !in rest by {
        forall j | 0 <= j < |rest| ensures rest[j] != s[0] {
          assert rest[j] == s[j + 1];
        }
      }
      NoDuplicatesMultiplicity(rest, k);
    }
  }

  /** Two duplicate-free sequences with the same members are permutations of
      each other. */
  lemma SameMembersPermutation(a: seq<Point>, b: seq<Point>)
    requires NoDuplicates(a) && NoDuplicates(b)
    requires forall k :: k in a <==> k in b
    ensures multiset(a) == multiset(b)
  {
    forall k ensures multiset(a)[k] == multiset(b)[k] {
      NoDuplicatesMultiplicity(a, k);
      NoDuplicatesMultiplicity(b, k);
    }
  }

  /** The FIFO queue the traversals append to (algs4's Queue<Point2D>), as
      the sequence of its items. */
  class PointQueue {
    var items: seq<Point>

    constructor ()
      ensures items == []
    {
      items := [];
    }

    method Enqueue(p: Point)
      modifies this
      ensures items == old(items) + [p]
    {
      items := items + [p];
    }
  }
}
