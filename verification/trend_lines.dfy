/** `calculateTrendLine` and the pipeline `calculateThreePointTrendLines`:
    turning points, then trends with at least three touches, then one line
    per trend through its first and last touch, drawn on towards the next
    trend. */
module TrendLines {
  import opened Wrappers
  import opened Types
  import opened Seqs
  import TurningPoints
  import ValidTrends

  /** Where the drawing of a line must stop: the bar count `n`, or the next
      trend's first x when that comes earlier. */
  function Limit(n: int, next: Option<int>): int
  {
    if next.Some? && next.value < n then next.value else n
  }

  /** The x at which a line through `x2` is drawn to: the last bar before
      `Limit`, but never short of `x2`. */
  function EndX(x2: int, n: int, next: Option<int>): int
  {
    if Limit(n, next) - 1 > x2 then Limit(n, next) - 1 else x2
  }

  /** The line `calculateTrendLine` fits, in closed form: `None` for a
      vertical pair, otherwise the line through `p1` and `p2`, ending at
      `p2` or at the extension up to `EndX`. The end point carries no
      turning-point tag. */
  function FittedLine(p1: Point, p2: Point, n: int, next: Option<int>): Option<TrendLine>
  {
    if p1.x == p2.x then None
    else
      var slope := (p2.y - p1.y) / (p2.x - p1.x) as real;
      var intercept := p1.y - slope * p1.x as real;
      var endX := EndX(p2.x, n, next);
      var endY := if endX == p2.x then p2.y else slope * endX as real + intercept;
      Some(TrendLine(slope, intercept, [p1, Point(endX, endY, None)]))
  }

  /** `calculateTrendLine(point1, point2, data, nextTrendStartX)` with `n`
      the length of `data`: the loop walks the line forward one bar at a
      time until the data or the next trend's start is reached. */
  method CalculateTrendLine(p1: Point, p2: Point, n: int, next: Option<int>) returns (r: Option<TrendLine>)
    ensures r == FittedLine(p1, p2, n, next)
  {
    if p1.x == p2.x {
      return None;
    }
    var slope := (p2.y - p1.y) / (p2.x - p1.x) as real;
    var intercept := p1.y - slope * p1.x as real;
    var endX := p2.x;
    var endY := p2.y;
    var i := p2.x + 1;
    while i < n
      invariant i == p2.x + 1 || i <= Limit(n, next)
      invariant p2.x < i && endX == i - 1
      invariant endY == if endX == p2.x then p2.y else slope * endX as real + intercept
      decreases n - i
    {
      if next.Some? && i >= next.value {
        assert endX == EndX(p2.x, n, next);
        break;
      }
      endX := i;
      endY := slope * i as real + intercept;
      i := i + 1;
    }
    assert endX == EndX(p2.x, n, next);
    assert FittedLine(p1, p2, n, next).value.slope == slope;
    assert FittedLine(p1, p2, n, next).value.intercept == intercept;
    assert FittedLine(p1, p2, n, next).value.points[1] == Point(endX, endY, None);
    r := Some(TrendLine(slope, intercept, [p1, Point(endX, endY, None)]));
  }

  /** The line passes through both of its defining points. */
  lemma LineThroughBoth(p1: Point, p2: Point)
    requires p1.x != p2.x
    ensures var slope := Slope(p1, p2);
      && OnLine(slope, p1.y - slope * p1.x as real, p1.x, p1.y)
      && OnLine(slope, p1.y - slope * p1.x as real, p2.x, p2.y)
  {
    var slope := Slope(p1, p2);
    var d := (p2.x - p1.x) as real;
    assert slope * d == p2.y - p1.y;
    assert slope * p2.x as real - slope * p1.x as real == slope * d;
  }

  /** What `calculateTrendLine` returns: nothing exactly for a vertical
      pair; otherwise the line of slope `Slope(p1, p2)` through both points,
      starting at `p1` and ending on the line at an x from `p2.x` on that
      stays before the data's end and the next trend's start, and goes as
      far as they allow. */
  lemma FittedLineCharacterised(p1: Point, p2: Point, n: int, next: Option<int>)
    ensures FittedLine(p1, p2, n, next).None? <==> p1.x == p2.x
    ensures FittedLine(p1, p2, n, next).Some? ==>
      var l := FittedLine(p1, p2, n, next).value;
      && l.slope == Slope(p1, p2)
      && OnLine(l.slope, l.intercept, p1.x, p1.y)
      && OnLine(l.slope, l.intercept, p2.x, p2.y)
      && |l.points| == 2 && l.points[0] == p1
      && OnLine(l.slope, l.intercept, l.points[1].x, l.points[1].y)
      && p2.x <= l.points[1].x
      && (l.points[1].x > p2.x ==> l.points[1].x < n && (next.Some? ==> l.points[1].x < next.value))
      && (l.points[1].x + 1 >= n || (next.Some? && l.points[1].x + 1 >= next.value))
  {
    if p1.x != p2.x {
      LineThroughBoth(p1, p2);
    }
  }

  /** `validTrends[index + 1]`'s first x, or `null` past the end. A trend
      always has points; the guard only makes the function total. */
  function NextStart(valid: seq<Trend>, i: nat): Option<int>
  {
    if i + 1 < |valid| && |valid[i + 1].points| > 0 then Some(valid[i + 1].points[0].x) else None
  }

  /** The line for the `i`-th kept trend. */
  function LineFor(kept: seq<Trend>, valid: seq<Trend>, n: int, i: nat): Option<TrendLine>
    requires i < |kept| && |kept[i].points| > 0
  {
    FittedLine(kept[i].points[0], Last(kept[i].points), n, NextStart(valid, i))
  }

  /** The trends of the pipeline: `findValidTrends` on the turning points,
      with three touches required. */
  function TrendsOf(data: seq<Bar>, windowSize: nat, tolerance: real): seq<Trend>
  {
    TurningPoints.TurningPointsCharacterised(data, windowSize);
    ValidTrends.FindValidTrends(TurningPoints.TurningPoints(data, windowSize), 3, tolerance)
  }

  predicate ThreeTouches(t: Trend)
  {
    |t.points| >= 3
  }

  /** The lines drawn for a list of trends over `n` bars: the trends with
      three touches, each fitted through its first and last touch, the
      vertical ones dropped (`.filter(...).map(...).filter(Boolean)`). */
  function LinesOf(valid: seq<Trend>, n: int): seq<TrendLine>
  {
    var kept := Filter(valid, ThreeTouches);
    Values(seq(|kept|, i requires 0 <= i < |kept| => LineFor(kept, valid, n, i)))
  }

  /** `calculateThreePointTrendLines(data, windowSize, angleTolerance)`. */
  function CalculateThreePointTrendLines(data: seq<Bar>, windowSize: nat, tolerance: real): seq<TrendLine>
  {
    LinesOf(TrendsOf(data, windowSize, tolerance), |data|)
  }

  /** A contiguous run of increasing points is increasing. */
  lemma SliceIncreasing(points: seq<Point>, pts: seq<Point>)
    requires ValidTrends.IsSliceOf(points, pts) && IncreasingX(pts)
    ensures IncreasingX(points)
  {
    var lo :| 0 <= lo <= |pts| && points <= pts[lo..];
    forall i, j | 0 <= i < j < |points|
      ensures points[i].x < points[j].x
    {
      assert points[i] == pts[lo + i] && points[j] == pts[lo + j];
    }
  }

  /** Every trend of the pipeline has at least three points, increasing in
      x. */
  lemma TrendsAreLong(data: seq<Bar>, windowSize: nat, tolerance: real)
    ensures forall t :: t in TrendsOf(data, windowSize, tolerance) ==>
      |t.points| >= 3 && IncreasingX(t.points)
  {
    var turning := TurningPoints.TurningPoints(data, windowSize);
    TurningPoints.TurningPointsCharacterised(data, windowSize);
    ValidTrends.ValidTrendsFit(turning, 3, tolerance);
    forall t | t in TrendsOf(data, windowSize, tolerance)
      ensures |t.points| >= 3 && IncreasingX(t.points)
    {
      SliceIncreasing(t.points, turning);
    }
  }

  /** For trends with at least three increasing touches each, there is
      exactly one line per trend, in order: the `i`-th line is the one
      fitted through the trend's first and last touch, drawn on until the
      next trend's start, so it has that slope and passes through both
      touches. The three-touch filter keeps every trend, which is why the
      index into the unfiltered trends is the right one. */
  lemma LinesOfLongTrends(valid: seq<Trend>, n: int)
    requires forall t :: t in valid ==> |t.points| >= 3 && IncreasingX(t.points)
    ensures |LinesOf(valid, n)| == |valid|
    ensures forall i :: 0 <= i < |valid| ==>
      && Some(LinesOf(valid, n)[i]) == FittedLine(valid[i].points[0], Last(valid[i].points), n, NextStart(valid, i))
      && LinesOf(valid, n)[i].points[0] == valid[i].points[0]
      && LinesOf(valid, n)[i].slope == Slope(valid[i].points[0], Last(valid[i].points))
      && OnLine(LinesOf(valid, n)[i].slope, LinesOf(valid, n)[i].intercept, valid[i].points[0].x, valid[i].points[0].y)
      && OnLine(LinesOf(valid, n)[i].slope, LinesOf(valid, n)[i].intercept,
                Last(valid[i].points).x, Last(valid[i].points).y)
  {
    FilterAll(valid, ThreeTouches);
    var xs := seq(|valid|, i requires 0 <= i < |valid| => LineFor(valid, valid, n, i));
    forall i | 0 <= i < |valid|
      ensures xs[i].Some?
      ensures var l := xs[i].value;
        && l.points[0] == valid[i].points[0]
        && l.slope == Slope(valid[i].points[0], Last(valid[i].points))
        && OnLine(l.slope, l.intercept, valid[i].points[0].x, valid[i].points[0].y)
        && OnLine(l.slope, l.intercept, Last(valid[i].points).x, Last(valid[i].points).y)
    {
      assert valid[i] in valid;
      FittedLineCharacterised(valid[i].points[0], Last(valid[i].points), n, NextStart(valid, i));
    }
    ValuesAll(xs);
  }

  /** The pipeline draws exactly one line per trend, in order, each the line
      fitted through the trend's first and last touch. */
  lemma ThreePointLines(data: seq<Bar>, windowSize: nat, tolerance: real)
    ensures var valid := TrendsOf(data, windowSize, tolerance);
      var lines := CalculateThreePointTrendLines(data, windowSize, tolerance);
      && |lines| == |valid|
      && forall i :: 0 <= i < |lines| ==>
           && |valid[i].points| >= 3
           && Some(lines[i]) == FittedLine(valid[i].points[0], Last(valid[i].points), |data|, NextStart(valid, i))
           && lines[i].points[0] == valid[i].points[0]
           && lines[i].slope == Slope(valid[i].points[0], Last(valid[i].points))
           && OnLine(lines[i].slope, lines[i].intercept, valid[i].points[0].x, valid[i].points[0].y)
           && OnLine(lines[i].slope, lines[i].intercept, Last(valid[i].points).x, Last(valid[i].points).y)
  {
    TrendsAreLong(data, windowSize, tolerance);
    LinesOfLongTrends(TrendsOf(data, windowSize, tolerance), |data|);
  }

  /** A contiguous run of points within `[0, n)` is within it. */
  lemma SliceWithin(points: seq<Point>, pts: seq<Point>, n: int)
    requires ValidTrends.IsSliceOf(points, pts)
    requires forall k :: 0 <= k < |pts| ==> 0 <= pts[k].x < n
    ensures forall k :: 0 <= k < |points| ==> 0 <= points[k].x < n
  {
    var lo :| 0 <= lo <= |pts| && points <= pts[lo..];
    forall k | 0 <= k < |points|
      ensures 0 <= points[k].x < n
    {
      assert points[k] == pts[lo + k];
    }
  }

  /** Every touch of a pipeline trend is a bar of the data. */
  lemma TrendsInData(data: seq<Bar>, windowSize: nat, tolerance: real)
    ensures forall t, k :: t in TrendsOf(data, windowSize, tolerance) && 0 <= k < |t.points| ==>
      0 <= t.points[k].x < |data|
  {
    var turning := TurningPoints.TurningPoints(data, windowSize);
    assert forall k :: 0 <= k < |turning| ==> 0 <= turning[k].x < |data| by {
      TurningPoints.TurningPointsCharacterised(data, windowSize);
    }
    assert IncreasingX(turning) by {
      TurningPoints.TurningPointsCharacterised(data, windowSize);
    }
    ValidTrends.ValidTrendsFit(turning, 3, tolerance);
    forall t | t in TrendsOf(data, windowSize, tolerance)
      ensures forall k :: 0 <= k < |t.points| ==> 0 <= t.points[k].x < |data|
    {
      SliceWithin(t.points, turning, |data|);
    }
  }

  /** A drawn line: two points, the second strictly to the right of the
      first, both on the line. */
  predicate Fitted(l: TrendLine)
  {
    && |l.points| == 2
    && l.points[0].x < l.points[1].x
    && OnLine(l.slope, l.intercept, l.points[0].x, l.points[0].y)
    && OnLine(l.slope, l.intercept, l.points[1].x, l.points[1].y)
  }

  /** Every line of the pipeline is a forward segment on its own line that
      ends within the data. */
  lemma LinesWithinData(data: seq<Bar>, windowSize: nat, tolerance: real)
    ensures forall l :: l in CalculateThreePointTrendLines(data, windowSize, tolerance) ==>
      Fitted(l) && l.points[1].x < |data|
  {
    var valid := TrendsOf(data, windowSize, tolerance);
    var lines := CalculateThreePointTrendLines(data, windowSize, tolerance);
    ThreePointLines(data, windowSize, tolerance);
    TrendsAreLong(data, windowSize, tolerance);
    TrendsInData(data, windowSize, tolerance);
    forall i | 0 <= i < |lines|
      ensures Fitted(lines[i]) && lines[i].points[1].x < |data|
    {
      var t := valid[i];
      assert t in valid;
      FittedLineCharacterised(t.points[0], Last(t.points), |data|, NextStart(valid, i));
    }
  }
}
