/** Chaining segments into a path: `_lines_points` and the one-pixel `dotted_line` of backend_pil.py. */
module Polyline {
  import opened Bresenham

  /** `more_itertools.unique_justseen`: drops an element equal to the one before it. */
  function UniqueJustSeen(s: seq<Point>): seq<Point> {
    if |s| <= 1 then s
    else if s[0] == s[1] then UniqueJustSeen(s[1..])
    else [s[0]] + UniqueJustSeen(s[1..])
  }

  /** What is left has no two equal neighbours, and equal neighbours are all that goes. */
  lemma {:induction false} NoneTwice(s: seq<Point>)
    ensures var r := UniqueJustSeen(s);
      && (forall i :: 0 < i < |r| ==> r[i - 1] != r[i])
      && (forall p :: p in s <==> p in r)
      && (s != [] ==> r != [] && r[0] == s[0])
      && (r == s <==> forall i :: 0 < i < |s| ==> s[i - 1] != s[i])
  {
    if |s| > 1 {
      NoneTwice(s[1..]);
      var r, rest := UniqueJustSeen(s), UniqueJustSeen(s[1..]);
      assert s == [s[0]] + s[1..];
      if s[0] != s[1] {
        assert r[1..] == rest;
        if r == s {
          assert rest == s[1..];
          forall i | 0 < i < |s| ensures s[i - 1] != s[i] {
            assert i > 1 ==> s[1..][i - 2] != s[1..][i - 1];
          }
        } else {
          assert rest != s[1..];
          var i :| 0 < i < |s[1..]| && s[1..][i - 1] == s[1..][i];
          assert s[i] == s[i + 1];
        }
      }
    }
  }

  /** `islice(s, 0, None, 2)`. */
  function EveryOther(s: seq<Point>): (r: seq<Point>)
    ensures |r| == (|s| + 1) / 2
  {
    if |s| <= 1 then s else [s[0]] + EveryOther(s[2..])
  }

  lemma {:induction false} EveryOtherAt(s: seq<Point>, j: nat)
    requires j < |EveryOther(s)|
    ensures EveryOther(s)[j] == s[2 * j]
  {
    if j > 0 {
      EveryOtherAt(s[2..], j - 1);
    }
  }

  /** The segments between neighbouring vertices, one after the other. */
  function PathPoints(vs: seq<Point>): seq<Point> {
    if |vs| < 2 then []
    else PathPoints(vs[..|vs| - 1]) + Segment(vs[|vs| - 2], vs[|vs| - 1])
  }

  function PathLength(vs: seq<Point>): nat {
    if |vs| < 2 then 0
    else PathLength(vs[..|vs| - 1]) + Length(vs[|vs| - 2], vs[|vs| - 1])
  }

  /** Neighbouring pixels, diagonals included, and never the same pixel. */
  predicate Adjacent(p: Point, q: Point) {
    Length(p, q) == 1
  }

  predicate Connected(s: seq<Point>) {
    forall i :: 0 < i < |s| ==> Adjacent(s[i - 1], s[i])
  }

  lemma AxisMoves(start: int, d: int, n: nat, i: nat)
    requires n > 0 && Abs(d) <= n
    ensures Abs(Along(start, d, n, i + 1) - Along(start, d, n, i)) <= 1
    ensures Abs(d) == n ==> Abs(Along(start, d, n, i + 1) - Along(start, d, n, i)) == 1
  {
    hide Along, Error;
    if d == 0 {
      FlatStep(start, n, i);
      FlatStep(start, n, i + 1);
    } else if Abs(d) == n {
      MajorStep(start, d, n, i);
    } else {
      MinorStep(start, d, n, i);
    }
  }

  lemma {:induction false} SegmentConnected(p: Point, q: Point, i: nat)
    requires i < Length(p, q)
    ensures Adjacent(At(p, q, i), At(p, q, i + 1))
  {
    hide Along;
    AxisMoves(p.x, q.x - p.x, Length(p, q), i);
    AxisMoves(p.y, q.y - p.y, Length(p, q), i);
  }

  /** A path of pixels that starts on `first` and would next step onto `next`. */
  ghost predicate Walk(s: seq<Point>, first: Point, next: Point) {
    Connected(s) && if s == [] then first == next else s[0] == first && Adjacent(s[|s| - 1], next)
  }

  lemma SegmentWalks(p: Point, q: Point)
    ensures Walk(Segment(p, q), p, q)
  {
    var n, s := Length(p, q), Segment(p, q);
    SegmentEnds(p, q);
    forall i | 0 < i < |s| ensures Adjacent(s[i - 1], s[i]) {
      SegmentConnected(p, q, i - 1);
    }
    if n > 0 {
      SegmentConnected(p, q, n - 1);
    }
  }

  lemma WalksJoin(s: seq<Point>, t: seq<Point>, a: Point, b: Point, c: Point)
    requires Walk(s, a, b) && Walk(t, b, c)
    ensures Walk(s + t, a, c)
  {
    var u := s + t;
    forall i | 0 < i < |u| ensures Adjacent(u[i - 1], u[i]) {
      if i > |s| {
        assert Adjacent(t[i - |s| - 1], t[i - |s|]);
      }
    }
  }

  /** The whole path starts on the first vertex, stays 8-connected across every vertex and stops one pixel short of
      the last; it has as many pixels as the longer sides add up to. */
  lemma {:induction false} PathWalks(vs: seq<Point>)
    requires vs != []
    ensures Walk(PathPoints(vs), vs[0], vs[|vs| - 1])
    ensures |PathPoints(vs)| == PathLength(vs)
  {
    if |vs| >= 2 {
      hide Walk, Segment;
      var front := vs[..|vs| - 1];
      PathWalks(front);
      SegmentWalks(vs[|vs| - 2], vs[|vs| - 1]);
      WalksJoin(PathPoints(front), Segment(vs[|vs| - 2], vs[|vs| - 1]), vs[0], vs[|vs| - 2], vs[|vs| - 1]);
    } else {
      assert PathPoints(vs) == [];
    }
  }

  /** Along every segment the path takes that segment's own pixels: from the pixel where the lengths of the segments
    * before it add up, step `j` is the segment's nearest pixel after `j` steps. */
  lemma {:induction false} PathPixel(vs: seq<Point>, k: nat, j: nat)
    requires 0 < k < |vs| && j < Length(vs[k - 1], vs[k])
    ensures |PathPoints(vs)| == PathLength(vs) && PathLength(vs[..k]) + j < PathLength(vs)
    ensures PathPoints(vs)[PathLength(vs[..k]) + j] == At(vs[k - 1], vs[k], j)
    decreases |vs|
  {
    var front := vs[..|vs| - 1];
    PathWalks(front);
    PathWalks(vs);
    if k < |vs| - 1 {
      assert front[..k] == vs[..k];
      PathPixel(front, k, j);
    }
  }

  /** The same for whole segments. */
  lemma PathSegment(vs: seq<Point>, k: nat)
    requires 0 < k < |vs|
    ensures var start, n := PathLength(vs[..k]), Length(vs[k - 1], vs[k]);
      && start + n <= |PathPoints(vs)| == PathLength(vs)
      && PathPoints(vs)[start..start + n] == Segment(vs[k - 1], vs[k])
  {
    hide Walk, PathPoints, PathLength;
    PathWalks(vs);
    var start, n := PathLength(vs[..k]), Length(vs[k - 1], vs[k]);
    if n == 0 {
      PathPrefix(vs, k);
    } else {
      PathPixel(vs, k, n - 1);
      var part, segment := PathPoints(vs)[start..start + n], Segment(vs[k - 1], vs[k]);
      forall j | 0 <= j < n ensures part[j] == segment[j] {
        PathPixel(vs, k, j);
      }
    }
  }

  lemma {:induction false} PathPrefix(vs: seq<Point>, k: nat)
    requires k <= |vs|
    ensures PathLength(vs[..k]) <= PathLength(vs)
  {
    if k < |vs| {
      assert vs[..|vs| - 1][..k] == vs[..k];
      PathPrefix(vs[..|vs| - 1], k);
    } else {
      assert vs[..k] == vs;
    }
  }

  lemma {:induction false} ConnectedHasNoRepeats(s: seq<Point>)
    requires Connected(s)
    ensures UniqueJustSeen(s) == s
  {
    if |s| > 1 {
      assert Adjacent(s[0], s[1]);
      assert Connected(s[1..]) by {
        forall i | 0 < i < |s[1..]| ensures Adjacent(s[1..][i - 1], s[1..][i]) {
          assert Adjacent(s[i], s[i + 1]);
        }
      }
      ConnectedHasNoRepeats(s[1..]);
    }
  }

  /** Removing repeats changes nothing, for any vertex list, repeated vertices included. */
  lemma {:induction false} NothingToDrop(vs: seq<Point>)
    ensures UniqueJustSeen(PathPoints(vs)) == PathPoints(vs)
  {
    if vs != [] {
      PathWalks(vs);
      ConnectedHasNoRepeats(PathPoints(vs));
    }
  }

  lemma NoPath(vs: seq<Point>)
    ensures |vs| < 2 ==> PathPoints(vs) == [] && PathLength(vs) == 0
    ensures vs != [] ==> PathPoints(vs[..1]) == []
    ensures vs != [] && Walk(PathPoints(vs), vs[0], vs[|vs| - 1]) ==> Connected(PathPoints(vs))
  {
  }

  lemma PathGrows(vs: seq<Point>, i: nat)
    requires 0 < i < |vs|
    ensures PathPoints(vs[..i + 1]) == PathPoints(vs[..i]) + Segment(vs[i - 1], vs[i])
  {
    assert vs[..i + 1][..i] == vs[..i];
  }

  method LinesPoints(xys: seq<Point>) returns (points: seq<Point>)
    ensures points == PathPoints(xys)
    ensures Connected(points) && |points| == PathLength(xys)
    ensures forall k :: 0 < k < |xys| ==>
      var start, n := PathLength(xys[..k]), Length(xys[k - 1], xys[k]);
      start + n <= |points| && points[start..start + n] == Segment(xys[k - 1], xys[k])
  {
    hide PathPoints, PathLength, Segment, Walk, UniqueJustSeen, Length;
    points := [];
    NoPath(xys);
    if xys != [] {
      PathWalks(xys);
      assert xys[..1] == [xys[0]];
      for i := 1 to |xys|
        invariant points == PathPoints(xys[..i])
      {
        var segment := LinePoints(xys[i - 1], xys[i]);
        PathGrows(xys, i);
        points := points + segment;
      }
      assert xys[..|xys|] == xys;
    }
    NothingToDrop(xys);
    points := UniqueJustSeen(points);
    forall k | 0 < k < |xys|
      ensures var start, n := PathLength(xys[..k]), Length(xys[k - 1], xys[k]);
        start + n <= |points| && points[start..start + n] == Segment(xys[k - 1], xys[k])
    {
      PathSegment(xys, k);
    }
  }

  /** If the path's step `start + j` is even, its dot is the segment's pixel after `j` steps. */
  predicate DotAt(dots: seq<Point>, start: nat, p: Point, q: Point, j: nat)
    requires j < Length(p, q)
  {
    (start + j) % 2 == 0 ==> (start + j) / 2 < |dots| && dots[(start + j) / 2] == At(p, q, j)
  }

  ghost predicate DotsAlong(dots: seq<Point>, start: nat, p: Point, q: Point) {
    forall j: nat :: j < Length(p, q) ==> DotAt(dots, start, p, q, j)
  }

  /** The pixels a one-pixel-wide dotted line sets: one of every two along the path, in step across vertices. */
  method DottedLine(xy: seq<Point>) returns (dots: seq<Point>)
    ensures |dots| == (PathLength(xy) + 1) / 2
    ensures forall k :: 0 < k < |xy| ==> DotsAlong(dots, PathLength(xy[..k]), xy[k - 1], xy[k])
    ensures forall j :: 0 <= j < |dots| ==> 2 * j < |PathPoints(xy)| && dots[j] == PathPoints(xy)[2 * j]
    ensures forall j :: 0 < j < |dots| ==> Length(dots[j - 1], dots[j]) <= 2
  {
    var points := LinesPoints(xy);
    dots := EveryOther(points);
    forall j | 0 <= j < |dots| ensures dots[j] == points[2 * j] {
      EveryOtherAt(points, j);
    }
    forall k | 0 < k < |xy| ensures DotsAlong(dots, PathLength(xy[..k]), xy[k - 1], xy[k]) {
      DotsOfSegment(xy, dots, k);
    }
    DotsAreClose(points, dots);
  }

  lemma DotsOfSegment(vs: seq<Point>, dots: seq<Point>, k: nat)
    requires 0 < k < |vs| && |dots| == (PathLength(vs) + 1) / 2
    requires forall j :: 0 <= j < |dots| ==> 2 * j < |PathPoints(vs)| && dots[j] == PathPoints(vs)[2 * j]
    ensures DotsAlong(dots, PathLength(vs[..k]), vs[k - 1], vs[k])
  {
    hide PathPoints, PathLength, At, Length;
    var start, p, q := PathLength(vs[..k]), vs[k - 1], vs[k];
    forall j: nat | j < Length(p, q) ensures DotAt(dots, start, p, q, j) {
      PathPixel(vs, k, j);
      if (start + j) % 2 == 0 {
        assert 2 * ((start + j) / 2) == start + j;
      }
    }
  }

  lemma DotsAreClose(points: seq<Point>, dots: seq<Point>)
    requires Connected(points) && |dots| == (|points| + 1) / 2
    requires forall j :: 0 <= j < |dots| ==> dots[j] == points[2 * j]
    ensures forall j :: 0 < j < |dots| ==> Length(dots[j - 1], dots[j]) <= 2
  {
    forall j | 0 < j < |dots| ensures Length(dots[j - 1], dots[j]) <= 2 {
      assert dots[j - 1] == points[2 * (j - 1)] && 2 * (j - 1) == 2 * j - 2;
      assert Adjacent(points[2 * j - 2], points[2 * j - 1]) && Adjacent(points[2 * j - 1], points[2 * j]);
    }
  }
}
