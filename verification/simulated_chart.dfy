/** The trend-line state of the simulated live chart: each time the bars
    change, the lines already shown are extended to the newest bar and the
    lines of a new pipeline run that start at a new point are appended
    (the `setTrendLines` updater of `SimulatedChart.tsx`). The state is
    declared as `Trend[]` but only ever holds the pipeline's `TrendLine`s,
    so it is modelled as such. */
module SimulatedChart {
  import opened Wrappers
  import opened Types
  import opened Seqs
  import TrendLines

  /** `calculateTrend(data)`: the pipeline with its default window size 2
      and angle tolerance 0.1. */
  function CalculateTrend(data: seq<Bar>): seq<TrendLine>
  {
    TrendLines.CalculateThreePointTrendLines(data, 2, 0.1)
  }

  /** A line extended to bar `n - 1`: the slope of its first and last
      point carries the last point on to `x = n - 1`; the first point, the
      slope and the intercept are kept, and the new end has no tag. */
  function Extend(l: TrendLine, n: int): TrendLine
    requires |l.points| > 0
  {
    var first, last := l.points[0], Last(l.points);
    var slope := Slope(first, last);
    var nextX := n - 1;
    TrendLine(l.slope, l.intercept, [first, Point(nextX, last.y + slope * (nextX - last.x) as real, None)])
  }

  /** Two lines start at the same point (same x and same y). */
  predicate SameStart(a: TrendLine, b: TrendLine)
  {
    |a.points| > 0 && |b.points| > 0 && a.points[0].x == b.points[0].x && a.points[0].y == b.points[0].y
  }

  /** `prevTrends.some(...)`: a shown line starts where `l` starts. */
  predicate Matched(prev: seq<TrendLine>, l: TrendLine)
  {
    exists i :: 0 <= i < |prev| && SameStart(prev[i], l)
  }

  /** The filter of the new lines: those no shown line starts like. */
  function Unconfirmed(prev: seq<TrendLine>): TrendLine -> bool
  {
    l => !Matched(prev, l)
  }

  /** Every shown line has a point (the updater reads its first and last). */
  predicate HasPoints(lines: seq<TrendLine>)
  {
    forall i :: 0 <= i < |lines| ==> |lines[i].points| > 0
  }

  /** `[...extendedTrends, ...newConfirmedTrends]` for `n` bars. */
  function Merge(prev: seq<TrendLine>, newLines: seq<TrendLine>, n: int): seq<TrendLine>
    requires HasPoints(prev)
  {
    seq(|prev|, i requires 0 <= i < |prev| => Extend(prev[i], n)) + Filter(newLines, Unconfirmed(prev))
  }

  /** The effect on new bars `data`: nothing when there are none, else the
      merge with the pipeline's lines over `data`. */
  function UpdateTrendLines(prev: seq<TrendLine>, data: seq<Bar>): seq<TrendLine>
    requires |data| > 0 ==> HasPoints(prev)
  {
    if |data| == 0 then prev else Merge(prev, CalculateTrend(data), |data|)
  }

  /** The extension keeps the first point, slope and intercept, ends at
      `n - 1` with no tag, and its end lies on the line through the old
      first and last points. */
  lemma ExtendCharacterised(l: TrendLine, n: int)
    requires |l.points| > 0
    ensures Extend(l, n).slope == l.slope && Extend(l, n).intercept == l.intercept
    ensures |Extend(l, n).points| == 2 && Extend(l, n).points[0] == l.points[0]
    ensures Extend(l, n).points[1].x == n - 1 && Extend(l, n).points[1].kind.None?
    ensures l.points[0].x != Last(l.points).x ==>
      OnLine(Slope(l.points[0], Last(l.points)),
             l.points[0].y - Slope(l.points[0], Last(l.points)) * l.points[0].x as real,
             n - 1, Extend(l, n).points[1].y)
  {
    var first, last := l.points[0], Last(l.points);
    if first.x != last.x {
      var s := Slope(first, last);
      assert s * (last.x - first.x) as real == last.y - first.y;
      assert s * (n - 1 - last.x) as real + s * (last.x - first.x) as real == s * (n - 1 - first.x) as real;
    }
  }

  /** Extending a fitted line keeps it on its own line; the result is again
      a forward segment when the new end lies right of the start. */
  lemma ExtendStaysFitted(l: TrendLine, n: int)
    requires TrendLines.Fitted(l)
    ensures OnLine(l.slope, l.intercept, Extend(l, n).points[1].x, Extend(l, n).points[1].y)
    ensures l.points[0].x < n - 1 ==> TrendLines.Fitted(Extend(l, n))
  {
    var first, last := l.points[0], l.points[1];
    var d := (last.x - first.x) as real;
    assert l.slope * d == last.y - first.y;
    assert Slope(first, last) == l.slope;
    ExtendCharacterised(l, n);
  }

  /** Extending twice to the same bar is extending once. */
  lemma ExtendIdempotent(l: TrendLine, n: int)
    requires |l.points| > 0
    ensures Extend(Extend(l, n), n) == Extend(l, n)
  {
    var e := Extend(l, n);
    var end := e.points[1];
    assert Last(e.points) == end && end.x == n - 1;
    assert end.y + Slope(e.points[0], end) * ((n - 1) - end.x) as real == end.y;
    var f := Extend(e, n);
    assert |f.points| == 2;
    assert f.points[0] == e.points[0];
    assert f.points[1].x == n - 1;
    assert f.points[1].kind == None;
    assert f.points[1].y == end.y;
  }

  /** The merge extends every shown line in place and appends exactly the
      new lines that start at a point no shown line starts at, in their
      order. */
  lemma MergeCharacterised(prev: seq<TrendLine>, newLines: seq<TrendLine>, n: int)
    requires HasPoints(prev)
    ensures |Merge(prev, newLines, n)| >= |prev|
    ensures forall i :: 0 <= i < |prev| ==> Merge(prev, newLines, n)[i] == Extend(prev[i], n)
    ensures forall l :: l in Merge(prev, newLines, n)[|prev|..] <==> l in newLines && !Matched(prev, l)
    ensures forall i :: |prev| <= i < |Merge(prev, newLines, n)| ==> !Matched(prev, Merge(prev, newLines, n)[i])
  {
    var added := Filter(newLines, Unconfirmed(prev));
    assert Merge(prev, newLines, n)[|prev|..] == added;
    forall l | l in newLines && !Matched(prev, l)
      ensures l in added
    {
      var k :| 0 <= k < |newLines| && newLines[k] == l;
      assert Unconfirmed(prev)(newLines[k]);
    }
    forall i | |prev| <= i < |Merge(prev, newLines, n)|
      ensures !Matched(prev, Merge(prev, newLines, n)[i])
    {
      assert Merge(prev, newLines, n)[i] == added[i - |prev|];
    }
  }

  /** A merged line starts where a shown line or a new line starts, so
      every new line is matched by the merge. */
  lemma MergeMatchesFresh(prev: seq<TrendLine>, newLines: seq<TrendLine>, n: int)
    requires HasPoints(prev)
    requires forall i :: 0 <= i < |newLines| ==> |newLines[i].points| > 0
    ensures forall i :: 0 <= i < |newLines| ==> Matched(Merge(prev, newLines, n), newLines[i])
  {
    var merged := Merge(prev, newLines, n);
    MergeCharacterised(prev, newLines, n);
    forall i | 0 <= i < |newLines|
      ensures Matched(merged, newLines[i])
    {
      var l := newLines[i];
      if Matched(prev, l) {
        var j :| 0 <= j < |prev| && SameStart(prev[j], l);
        ExtendCharacterised(prev[j], n);
        assert SameStart(merged[j], l);
      } else {
        assert l in merged[|prev|..];
        var k :| 0 <= k < |merged[|prev|..]| && merged[|prev|..][k] == l;
        assert SameStart(merged[|prev| + k], l);
      }
    }
  }

  /** Running the updater again on its own result with the same bars adds
      no line: every line is extended in place and, the ones it had just
      extended, left as they are. React may call an updater twice; the
      second call duplicates nothing. */
  lemma UpdateTwiceAddsNothing(prev: seq<TrendLine>, data: seq<Bar>)
    requires |data| > 0 && HasPoints(prev)
    ensures HasPoints(UpdateTrendLines(prev, data))
    ensures var once := UpdateTrendLines(prev, data);
      && |UpdateTrendLines(once, data)| == |once|
      && (forall i :: 0 <= i < |once| ==> UpdateTrendLines(once, data)[i] == Extend(once[i], |data|))
      && (forall i :: 0 <= i < |prev| ==> UpdateTrendLines(once, data)[i] == once[i])
  {
    var n := |data|;
    var newLines := CalculateTrend(data);
    var once := Merge(prev, newLines, n);
    TrendLines.LinesWithinData(data, 2, 0.1);
    assert forall i :: 0 <= i < |newLines| ==> |newLines[i].points| > 0 by {
      forall i | 0 <= i < |newLines|
        ensures |newLines[i].points| > 0
      {
        assert newLines[i] in newLines;
      }
    }
    MergeCharacterised(prev, newLines, n);
    assert HasPoints(once) by {
      forall i | 0 <= i < |once|
        ensures |once[i].points| > 0
      {
        if i < |prev| {
          ExtendCharacterised(prev[i], n);
        } else {
          assert once[i] in once[|prev|..];
        }
      }
    }
    MergeMatchesFresh(prev, newLines, n);
    FilterNone(newLines, Unconfirmed(once));
    var twice := Merge(once, newLines, n);
    forall i | 0 <= i < |prev|
      ensures twice[i] == once[i]
    {
      ExtendIdempotent(prev[i], n);
    }
  }

  /** Whatever the new bar count, even one below the last (the chart's
      Restart empties the bars but keeps the lines): no bars change nothing;
      otherwise every shown line keeps its place and its start and now ends
      at the last bar. */
  lemma UpdateKeepsStarts(prev: seq<TrendLine>, data: seq<Bar>)
    requires |data| > 0 ==> HasPoints(prev)
    ensures |data| == 0 ==> UpdateTrendLines(prev, data) == prev
    ensures |UpdateTrendLines(prev, data)| >= |prev|
    ensures |data| > 0 ==> forall i :: 0 <= i < |prev| ==>
      && |UpdateTrendLines(prev, data)[i].points| == 2
      && UpdateTrendLines(prev, data)[i].points[0] == prev[i].points[0]
      && UpdateTrendLines(prev, data)[i].points[1].x == |data| - 1
  {
    if |data| > 0 {
      var n := |data|;
      MergeCharacterised(prev, CalculateTrend(data), n);
      forall i | 0 <= i < |prev|
        ensures |Extend(prev[i], n).points| == 2 && Extend(prev[i], n).points[0] == prev[i].points[0]
        ensures Extend(prev[i], n).points[1].x == n - 1
      {
        ExtendCharacterised(prev[i], n);
      }
    }
  }

  /** The lines shown for `n` bars: forward segments on their own lines
      that end at or before the last bar. */
  predicate Shown(lines: seq<TrendLine>, n: int)
  {
    forall i :: 0 <= i < |lines| ==> TrendLines.Fitted(lines[i]) && lines[i].points[1].x < n
  }

  /** As bars arrive, the updater keeps every line a forward segment on its
      own line ending within the bars: shown lines are carried to the newest
      bar, and the appended lines come from the pipeline. No shown line is
      lost or reordered, and each keeps its start. */
  lemma UpdateKeepsShown(prev: seq<TrendLine>, m: int, data: seq<Bar>)
    requires Shown(prev, m) && m <= |data|
    ensures HasPoints(prev)
    ensures |data| == 0 ==> UpdateTrendLines(prev, data) == prev
    ensures Shown(UpdateTrendLines(prev, data), if |data| == 0 then m else |data|)
    ensures |UpdateTrendLines(prev, data)| >= |prev|
    ensures forall i :: 0 <= i < |prev| ==>
      UpdateTrendLines(prev, data)[i].points[0] == prev[i].points[0]
  {
    if |data| > 0 {
      var n := |data|;
      var newLines := CalculateTrend(data);
      var next := Merge(prev, newLines, n);
      MergeCharacterised(prev, newLines, n);
      TrendLines.LinesWithinData(data, 2, 0.1);
      forall i | 0 <= i < |next|
        ensures TrendLines.Fitted(next[i]) && next[i].points[1].x < n
      {
        if i < |prev| {
          ExtendCharacterised(prev[i], n);
          ExtendStaysFitted(prev[i], n);
        } else {
          assert next[i] in next[|prev|..];
        }
      }
      forall i | 0 <= i < |prev|
        ensures next[i].points[0] == prev[i].points[0]
      {
        ExtendCharacterised(prev[i], n);
      }
    }
  }
}
