/** The dotted-line rasteriser of workshop/dashboard/src/dashboard/backend_pil.py (`DashedImageDraw`). */
module Bresenham {
  import opened Division

  datatype Point = Point(x: int, y: int)

  function Abs(a: int): (r: nat)
    ensures r == a || r == -a
  {
    if a < 0 then -a else a
  }

  function Max(a: nat, b: nat): nat {
    if a > b then a else b
  }

  /** The number of pixels a segment yields: its longer side. */
  function Length(p: Point, q: Point): (n: nat)
    ensures n >= Abs(q.x - p.x) && n >= Abs(q.y - p.y) && (n == Abs(q.x - p.x) || n == Abs(q.y - p.y))
  {
    Max(Abs(q.x - p.x), Abs(q.y - p.y))
  }

  /** `m * i / n` rounded to the nearest integer, halves upwards: the offset along a side of length `m`
      after `i` of `n` steps. */
  function Offset(m: nat, n: nat, i: nat): (k: nat)
    requires n > 0
  {
    (2 * (m * i) + n) / (2 * n)
  }

  /** The nearest coordinate after `i` of `n` steps towards a signed displacement `d`. */
  function Along(start: int, d: int, n: nat, i: nat): int
    requires n > 0
  {
    if d < 0 then start - Offset(-d, n, i) else start + Offset(d, n, i)
  }

  /** Where the ideal segment is after `i` steps, to the nearest pixel. */
  function At(p: Point, q: Point, i: nat): Point
    requires i <= Length(p, q)
  {
    var n := Length(p, q);
    if n == 0 then p else Point(Along(p.x, q.x - p.x, n, i), Along(p.y, q.y - p.y, n, i))
  }

  function Segment(p: Point, q: Point): (s: seq<Point>)
    ensures |s| == Length(p, q)
  {
    seq(Length(p, q), i requires 0 <= i < Length(p, q) => At(p, q, i))
  }

  /** `Offset` is the only integer within the half-open rounding interval. */
  lemma OffsetIff(m: nat, n: int, i: nat, k: int)
    requires n > 0
    ensures k == Offset(m, n, i) <==> -n < 2 * (n * k - m * i) <= n
  {
    assert k * (2 * n) == 2 * (n * k);
    QuotientIs(2 * (m * i) + n, 2 * n, k);
  }

  /** No integer is nearer to the ideal offset m * i / n than `Offset`, and a tie goes up. */
  lemma {:induction false} OffsetNearest(m: nat, n: int, i: nat, k: int)
    requires n > 0
    ensures var o := Offset(m, n, i);
      Abs(n * o - m * i) <= Abs(n * k - m * i) &&
      (Abs(n * k - m * i) == Abs(n * o - m * i) ==> k <= o)
  {
    var o := Offset(m, n, i);
    OffsetIff(m, n, i, o);
    if k < o {
      MultiplesApart(n, k, o);
    } else if k > o {
      MultiplesApart(n, o, k);
    }
  }

  lemma OffsetEnds(m: nat, n: nat)
    requires n > 0
    ensures Offset(m, n, 0) == 0 && Offset(m, n, n) == m
  {
    OffsetIff(m, n, 0, 0);
    OffsetIff(m, n, n, m);
  }

  lemma OffsetMajor(n: nat, i: nat)
    requires n > 0
    ensures Offset(n, n, i) == i
  {
    OffsetIff(n, n, i, i);
  }

  lemma OffsetFlat(n: nat, i: nat)
    requires n > 0
    ensures Offset(0, n, i) == 0
  {
    OffsetIff(0, n, i, 0);
  }

  /** The error accumulator after `i` steps. */
  ghost function Error(m: nat, n: nat, i: nat): int
    requires n > 0
  {
    2 * (m * (i + 1)) - n - 2 * (n * Offset(m, n, i))
  }

  lemma NextMultiple(a: nat, b: nat)
    ensures a * (b + 1) == a * b + a
  {
  }

  /** The sign of the accumulator decides exactly whether the minor offset moves on. */
  lemma ErrorStep(m: nat, n: nat, i: nat)
    requires 0 < m <= n
    ensures var k, e := Offset(m, n, i), Error(m, n, i);
      && Offset(m, n, i + 1) == (if e >= 0 then k + 1 else k)
      && Error(m, n, i + 1) == e + 2 * m - if e >= 0 then 2 * n else 0
  {
    hide Offset;
    var k := Offset(m, n, i);
    NextMultiple(m, i);
    NextMultiple(m, i + 1);
    NextMultiple(n, k);
    OffsetIff(m, n, i, k);
    OffsetIff(m, n, i + 1, k);
    OffsetIff(m, n, i + 1, k + 1);
  }

  /** The end points: a segment starts on its first vertex, and one more step would reach its second. */
  lemma SegmentEnds(p: Point, q: Point)
    ensures At(p, q, 0) == p && At(p, q, Length(p, q)) == q
  {
    hide Offset;
    var n := Length(p, q);
    if n > 0 {
      OffsetEnds(Abs(q.x - p.x), n);
      OffsetEnds(Abs(q.y - p.y), n);
    }
  }

  /** The distance from a coordinate to the ideal segment after `i` of `n` steps, times `n`. */
  function Deviation(start: int, d: int, n: nat, i: nat, c: int): nat {
    Abs(n * (c - start) - d * i)
  }

  lemma MulNegates(a: int, b: int)
    ensures (-a) * b == -(a * b) && a * (-b) == -(a * b)
  {
  }

  lemma NearestOnAxis(start: int, d: int, n: nat, i: nat, c: int)
    requires n > 0
    ensures 2 * Deviation(start, d, n, i, Along(start, d, n, i)) <= n
    ensures Deviation(start, d, n, i, Along(start, d, n, i)) <= Deviation(start, d, n, i, c)
  {
    hide Offset;
    var m, k := Abs(d), if d < 0 then start - c else c - start;
    var o := Offset(m, n, i);
    OffsetIff(m, n, i, o);
    OffsetNearest(m, n, i, k);
    if d < 0 {
      MulNegates(d, i);
      MulNegates(n, o);
      MulNegates(n, k);
    }
  }

  /** `c` is the integer nearest to `start + d * i / n`, and of two equally near ones the one further along. */
  predicate Nearest(start: int, d: int, n: nat, i: nat, c: int) {
    var off := 2 * (n * (c - start) - d * i);
    if d < 0 then -off <= n && off < n else -off < n && off <= n
  }

  lemma NearestIff(start: int, d: int, n: nat, i: nat, c: int)
    requires n > 0
    ensures Nearest(start, d, n, i, c) <==> c == Along(start, d, n, i)
  {
    hide Offset;
    var m, k := Abs(d), if d < 0 then start - c else c - start;
    OffsetIff(m, n, i, k);
    if d < 0 {
      MulNegates(d, i);
      MulNegates(n, k);
    }
  }

  /** Every pixel is a nearest one: in each coordinate it is at most half a pixel from the ideal segment, no other
      integer is closer, and of two that are as close it is the one nearer to the end vertex. */
  lemma {:induction false} NearestPixel(p: Point, q: Point, i: nat, c: int)
    requires i < Length(p, q)
    ensures var n, a := Length(p, q), Segment(p, q)[i];
      && a == At(p, q, i)
      && 2 * Deviation(p.x, q.x - p.x, n, i, a.x) <= n
      && 2 * Deviation(p.y, q.y - p.y, n, i, a.y) <= n
      && Deviation(p.x, q.x - p.x, n, i, a.x) <= Deviation(p.x, q.x - p.x, n, i, c)
      && Deviation(p.y, q.y - p.y, n, i, a.y) <= Deviation(p.y, q.y - p.y, n, i, c)
      && (Nearest(p.x, q.x - p.x, n, i, c) <==> c == a.x)
      && (Nearest(p.y, q.y - p.y, n, i, c) <==> c == a.y)
  {
    NearestIff(p.x, q.x - p.x, Length(p, q), i, c);
    NearestIff(p.y, q.y - p.y, Length(p, q), i, c);
    NearestOnAxis(p.x, q.x - p.x, Length(p, q), i, c);
    NearestOnAxis(p.y, q.y - p.y, Length(p, q), i, c);
  }

  lemma SegmentGrows(p: Point, q: Point, i: nat)
    requires i < Length(p, q)
    ensures Segment(p, q)[..i] + [At(p, q, i)] == Segment(p, q)[..i + 1]
  {
  }

  lemma FlatStep(start: int, n: nat, i: nat)
    requires n > 0
    ensures Along(start, 0, n, i) == start
  {
    OffsetFlat(n, i);
  }

  lemma MajorStep(start: int, d: int, n: nat, i: nat)
    requires n > 0 && n == Abs(d)
    ensures Along(start, d, n, i + 1) == Along(start, d, n, i) + if d < 0 then -1 else 1
  {
    hide Offset;
    OffsetMajor(n, i);
    OffsetMajor(n, i + 1);
  }

  lemma MinorStep(start: int, d: int, n: nat, i: nat)
    requires 0 < Abs(d) <= n
    ensures var e := Error(Abs(d), n, i);
      && Along(start, d, n, i + 1) == Along(start, d, n, i) + (if e < 0 then 0 else if d < 0 then -1 else 1)
      && Error(Abs(d), n, i + 1) == e + 2 * Abs(d) - if e >= 0 then 2 * n else 0
  {
    ErrorStep(Abs(d), n, i);
  }

  lemma ErrorStart(m: nat, n: nat)
    requires n > 0
    ensures Error(m, n, 0) == 2 * m - n
  {
    OffsetEnds(m, n);
  }

  /** `_line_points`: the incremental walk, which yields every pixel but the end vertex. */
  method LinePoints(p: Point, q: Point) returns (points: seq<Point>)
    ensures points == Segment(p, q) && |points| == Length(p, q)
  {
    hide Along, Error, Segment;
    var x0, y0 := p.x, p.y;
    points := [];
    var dx, xs := q.x - x0, 1;
    if dx < 0 {
      dx, xs := -dx, -1;
    }
    var dy, ys := q.y - y0, 1;
    if dy < 0 {
      dy, ys := -dy, -1;
    }
    var n := Max(dx, dy);
    SegmentEnds(p, q);
    if dx == 0 {
      for i := 0 to dy
        invariant points == Segment(p, q)[..i] && Point(x0, y0) == At(p, q, i)
      {
        SegmentGrows(p, q, i);
        FlatStep(x0, n, i);
        FlatStep(x0, n, i + 1);
        MajorStep(p.y, q.y - p.y, n, i);
        points := points + [Point(x0, y0)];
        y0 := y0 + ys;
      }
    } else if dy == 0 {
      for i := 0 to dx
        invariant points == Segment(p, q)[..i] && Point(x0, y0) == At(p, q, i)
      {
        SegmentGrows(p, q, i);
        FlatStep(y0, n, i);
        FlatStep(y0, n, i + 1);
        MajorStep(p.x, q.x - p.x, n, i);
        points := points + [Point(x0, y0)];
        x0 := x0 + xs;
      }
    } else if dx > dy {
      n := dx;
      dy := dy + dy;
      var e := dy - dx;
      dx := dx + dx;
      ErrorStart(Abs(q.y - p.y), n);
      for i := 0 to n
        invariant points == Segment(p, q)[..i] && Point(x0, y0) == At(p, q, i)
        invariant e == Error(Abs(q.y - p.y), n, i)
      {
        SegmentGrows(p, q, i);
        MinorStep(p.y, q.y - p.y, n, i);
        MajorStep(p.x, q.x - p.x, n, i);
        points := points + [Point(x0, y0)];
        if e >= 0 {
          y0 := y0 + ys;
          e := e - dx;
        }
        e := e + dy;
        x0 := x0 + xs;
      }
    } else {
      n := dy;
      dx := dx + dx;
      var e := dx - dy;
      dy := dy + dy;
      ErrorStart(Abs(q.x - p.x), n);
      for i := 0 to n
        invariant points == Segment(p, q)[..i] && Point(x0, y0) == At(p, q, i)
        invariant e == Error(Abs(q.x - p.x), n, i)
      {
        SegmentGrows(p, q, i);
        MinorStep(p.x, q.x - p.x, n, i);
        MajorStep(p.y, q.y - p.y, n, i);
        points := points + [Point(x0, y0)];
        if e >= 0 {
          x0 := x0 + xs;
          e := e - dy;
        }
        e := e + dx;
        y0 := y0 + ys;
      }
    }
  }
}
