/**
 * Sequences of points: the sort by x that ends `Line::circle_intersections`
 * and the filter that its segment mode amounts to, and the concatenation of
 * per-edge results that `Layer::circle_intersections` builds.
 */
module PointLists {
  import opened Shapes

  predicate SortedByX(s: seq<Point>)
  {
    forall i, j :: 0 <= i < j < |s| ==> s[i].x <= s[j].x
  }

  /** The points of `pts` for which `keep` holds, in their order. */
  function Filter(pts: seq<Point>, keep: Point -> bool): (kept: seq<Point>)
    ensures |kept| <= |pts|
    ensures forall p :: p in kept <==> p in pts && keep(p)
  {
    if pts == [] then []
    else (if keep(pts[0]) then [pts[0]] else []) + Filter(pts[1..], keep)
  }

  /** Inserts p before the first element whose x is not below p.x. */
  function InsertByX(p: Point, s: seq<Point>): (r: seq<Point>)
    ensures multiset(r) == multiset(s) + multiset{p}
  {
    if s == [] || p.x <= s[0].x then [p] + s
    else assert s == [s[0]] + s[1..]; [s[0]] + InsertByX(p, s[1..])
  }

  /**
   * The sort by x (`sort_unstable_by` comparing x with `partial_cmp`), as a
   * stable insertion sort: on the at most two points it is applied to, it
   * swaps them exactly when the second has the smaller x.
   */
  function SortByX(s: seq<Point>): (r: seq<Point>)
    ensures multiset(r) == multiset(s)
  {
    if s == [] then [] else assert s == [s[0]] + s[1..]; InsertByX(s[0], SortByX(s[1..]))
  }

  lemma {:induction false} InsertByXSorted(p: Point, s: seq<Point>)
    requires SortedByX(s)
    ensures SortedByX(InsertByX(p, s))
  {
    if s != [] && p.x > s[0].x {
      var rest := InsertByX(p, s[1..]);
      InsertByXSorted(p, s[1..]);
      forall j | 0 <= j < |rest|
        ensures s[0].x <= rest[j].x
      {
        assert rest[j] in multiset(rest);
        if rest[j] != p {
          assert rest[j] in s[1..];
        }
      }
    }
  }

  /** The sort returns the points of its input, as many of them, ordered by non-decreasing x. */
  lemma {:induction false} SortByXSorted(s: seq<Point>)
    ensures SortedByX(SortByX(s))
    ensures |SortByX(s)| == |s|
    ensures forall p :: p in SortByX(s) <==> p in s
  {
    var r := SortByX(s);
    assert |multiset(r)| == |multiset(s)|;
    forall p
      ensures p in r <==> p in s
    {
      assert p in r <==> p in multiset(r);
      assert p in s <==> p in multiset(s);
    }
    if s != [] {
      SortByXSorted(s[1..]);
      InsertByXSorted(s[0], SortByX(s[1..]));
    }
  }

  /** A point not above the first x of a sorted sequence also goes first in any of its filterings. */
  lemma FilterInsertFront(p: Point, s: seq<Point>, keep: Point -> bool)
    requires SortedByX(s)
    requires s == [] || p.x <= s[0].x
    ensures InsertByX(p, Filter(s, keep)) == [p] + Filter(s, keep)
  {
    var k := Filter(s, keep);
    if k != [] {
      assert k[0] in s;
      var i :| 0 <= i < |s| && s[i] == k[0];
      assert s[0].x <= s[i].x;
    }
  }

  lemma {:induction false} FilterInsert(p: Point, s: seq<Point>, keep: Point -> bool)
    requires SortedByX(s)
    ensures Filter(InsertByX(p, s), keep) ==
            if keep(p) then InsertByX(p, Filter(s, keep)) else Filter(s, keep)
  {
    if s == [] || p.x <= s[0].x {
      var ins := [p] + s;
      assert InsertByX(p, s) == ins;
      assert ins[0] == p && ins[1..] == s;
      assert Filter(ins, keep) == (if keep(p) then [p] else []) + Filter(s, keep);
      FilterInsertFront(p, s, keep);
    } else {
      var rest := InsertByX(p, s[1..]);
      var ins := [s[0]] + rest;
      var k' := Filter(s[1..], keep);
      assert InsertByX(p, s) == ins;
      assert ins[0] == s[0] && ins[1..] == rest;
      SortedTail(s);
      FilterInsert(p, s[1..], keep);
      if keep(s[0]) {
        FilterInsertKeptHead(p, s, keep);
      } else {
        assert Filter(s, keep) == k';
        assert Filter(ins, keep) == Filter(rest, keep);
      }
    }
  }

  /**
   * The step of `FilterInsert` past a kept first element: the first element
   * stays in front on both sides of the equation, and the rest is the
   * equation for the tail.
   */
  lemma FilterInsertKeptHead(p: Point, s: seq<Point>, keep: Point -> bool)
    requires s != [] && p.x > s[0].x && keep(s[0])
    requires Filter(InsertByX(p, s[1..]), keep) ==
             if keep(p) then InsertByX(p, Filter(s[1..], keep)) else Filter(s[1..], keep)
    ensures Filter(InsertByX(p, s), keep) ==
            if keep(p) then InsertByX(p, Filter(s, keep)) else Filter(s, keep)
  {
    var rest := InsertByX(p, s[1..]);
    var ins := [s[0]] + rest;
    var k' := Filter(s[1..], keep);
    var sk := [s[0]] + k';
    assert InsertByX(p, s) == ins;
    assert ins[0] == s[0] && ins[1..] == rest;
    assert Filter(s, keep) == sk;
    assert Filter(ins, keep) == [s[0]] + Filter(rest, keep);
    assert sk[0] == s[0] && sk[1..] == k';
    assert InsertByX(p, sk) == [s[0]] + InsertByX(p, k');
  }

  lemma SortedTail(s: seq<Point>)
    requires SortedByX(s) && s != []
    ensures SortedByX(s[1..])
  {
  }

  /** Filtering commutes with the sort: sorting the kept points keeps the sorted ones. */
  lemma {:induction false} FilterSort(s: seq<Point>, keep: Point -> bool)
    ensures Filter(SortByX(s), keep) == SortByX(Filter(s, keep))
  {
    if s != [] {
      var k := Filter(s, keep);
      var k' := Filter(s[1..], keep);
      SortByXSorted(s[1..]);
      FilterInsert(s[0], SortByX(s[1..]), keep);
      FilterSort(s[1..], keep);
      if keep(s[0]) {
        assert k == [s[0]] + k';
        assert k[0] == s[0] && k[1..] == k';
      } else {
        assert k == k';
      }
    }
  }

  /** Two tests that agree on every point keep the same points. */
  lemma {:induction false} FilterCongruent(pts: seq<Point>, keep1: Point -> bool, keep2: Point -> bool)
    requires forall p :: keep1(p) == keep2(p)
    ensures Filter(pts, keep1) == Filter(pts, keep2)
  {
    if pts != [] {
      FilterCongruent(pts[1..], keep1, keep2);
    }
  }

  /** Filtering one or two points keeps each exactly when the test holds, in order. */
  lemma FilterShort(p1: Point, p2: Point, keep: Point -> bool)
    ensures Filter([p1], keep) == if keep(p1) then [p1] else []
    ensures Filter([p1, p2], keep) == (if keep(p1) then [p1] else []) + (if keep(p2) then [p2] else [])
  {
    assert [p1][1..] == [];
    assert [p1, p2][1..] == [p2];
  }

  /** Sorting two points swaps them exactly when the second lies strictly left of the first. */
  lemma SortTwo(p: Point, q: Point)
    ensures SortByX([p, q]) == if p.x <= q.x then [p, q] else [q, p]
  {
    assert [p, q][1..] == [q];
    assert [q][1..] == [];
  }

  // ---------------------------------------------------------------------------
  // Concatenation of per-edge results

  /** The lists of `ss` one after the other, in order. */
  function Concat(ss: seq<seq<Point>>): seq<Point>
  {
    if ss == [] then [] else Concat(ss[..|ss| - 1]) + ss[|ss| - 1]
  }

  /** Concatenating one more list of a prefix appends that list. */
  lemma ConcatPrefixStep(ss: seq<seq<Point>>, i: nat)
    requires 0 < i <= |ss|
    ensures Concat(ss[..i]) == Concat(ss[..i - 1]) + ss[i - 1]
  {
    assert ss[..i][..i - 1] == ss[..i - 1];
  }

  /** A point is in the concatenation exactly when it is in one of the lists. */
  lemma {:induction false} ConcatMembers(ss: seq<seq<Point>>, p: Point)
    ensures p in Concat(ss) <==> exists j :: 0 <= j < |ss| && p in ss[j]
  {
    if ss != [] {
      var init := ss[..|ss| - 1];
      ConcatMembers(init, p);
      if exists j :: 0 <= j < |init| && p in init[j] {
        var j :| 0 <= j < |init| && p in init[j];
        assert ss[j] == init[j];
      }
      if exists j :: 0 <= j < |ss| && p in ss[j] {
        var j :| 0 <= j < |ss| && p in ss[j];
        if j < |init| {
          assert init[j] == ss[j];
        }
      }
    }
  }

  /** Lists of at most two points concatenate to at most twice as many points as there are lists. */
  lemma {:induction false} ConcatLength(ss: seq<seq<Point>>)
    requires forall j :: 0 <= j < |ss| ==> |ss[j]| <= 2
    ensures |Concat(ss)| <= 2 * |ss|
  {
    if ss != [] {
      ConcatLength(ss[..|ss| - 1]);
    }
  }

  /** Concatenation turns appending lists of lists into appending lists. */
  lemma {:induction false} ConcatAppend(a: seq<seq<Point>>, b: seq<seq<Point>>)
    ensures Concat(a + b) == Concat(a) + Concat(b)
    decreases |b|
  {
    if b == [] {
      assert a + b == a;
    } else {
      var init := b[..|b| - 1];
      ConcatAppend(a, init);
      assert (a + b)[..|a + b| - 1] == a + init;
    }
  }
}
