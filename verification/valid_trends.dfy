/** `findValidTrends`: the turning points are walked once, growing a candidate
    trend while the slope from its first point stays within `angleTolerance`
    of the slope fixed by its second addition, and closing it on the first
    point that deviates further. Closed candidates with at least
    `minTouches` points are the trends.

    The walk is modelled as written (`Step`, `Run`); `Candidates` describes the
    same result declaratively, as maximal segments, and `WalkBySegments`
    proves the two agree. Both are stated for any slope measure `slopeOf`;
    `FindValidTrends` instantiates it with `Slope`, so the proofs about the
    walk do not depend on the arithmetic of division. */
module ValidTrends {
  import opened Wrappers
  import opened Types
  import opened Seqs

  /** `Math.abs`. */
  function Abs(r: real): real
  {
    if r < 0.0 then -r else r
  }

  /** A slope measure between two points. */
  type SlopeOf = (Point, Point) -> real

  /** The loop state: the trends closed so far, the candidate being grown
      (`currentTrend`) and its `initialSlope` (`None` for `null`). */
  datatype Scan = Scan(trends: seq<Trend>, current: seq<Point>, slope: Option<real>)

  /** `initialSlope > 0 ? "up" : "down"`; a `null` slope reads as "down". */
  function DirectionOf(slope: Option<real>): Direction
  {
    if slope.Some? && slope.value > 0.0 then Up else Down
  }

  /** Closing a candidate keeps it only when it has `minTouches` points. */
  function Close(current: seq<Point>, slope: Option<real>, minTouches: int): seq<Trend>
  {
    if |current| >= minTouches then [Trend(DirectionOf(slope), current)] else []
  }

  /** One pass of the loop body for the point `p`. */
  function Step(s: Scan, p: Point, minTouches: int, tolerance: real, slopeOf: SlopeOf): (r: Scan)
    ensures || r.current == s.current + [p]
            || (|s.current| > 0 && r.current == [Last(s.current), p])
  {
    if |s.current| == 0 then Scan(s.trends, [p], s.slope)
    else
      var newSlope := slopeOf(s.current[0], p);
      if s.slope.None? then Scan(s.trends, s.current + [p], Some(newSlope))
      else if Abs(newSlope - s.slope.value) > tolerance then
        Scan(s.trends + Close(s.current, s.slope, minTouches), [Last(s.current), p], None)
      else Scan(s.trends, s.current + [p], s.slope)
  }

  /** The loop over `pts[k..]`. */
  function Run(pts: seq<Point>, k: nat, s: Scan, minTouches: int, tolerance: real, slopeOf: SlopeOf): Scan
    requires k <= |pts|
    decreases |pts| - k
  {
    if k == |pts| then s
    else Run(pts, k + 1, Step(s, pts[k], minTouches, tolerance, slopeOf), minTouches, tolerance, slopeOf)
  }

  /** The loop followed by the closing of the last candidate. */
  function Finish(r: Scan, minTouches: int): seq<Trend>
  {
    r.trends + Close(r.current, r.slope, minTouches)
  }

  /** The whole function for the slope measure `slopeOf`: fewer than two
      points give no trend. */
  function Walk(pts: seq<Point>, minTouches: int, tolerance: real, slopeOf: SlopeOf): seq<Trend>
  {
    if |pts| < 2 then []
    else Finish(Run(pts, 0, Scan([], [], None), minTouches, tolerance, slopeOf), minTouches)
  }

  /** `findValidTrends(turningPoints, minTouches, angleTolerance)`. */
  function FindValidTrends(pts: seq<Point>, minTouches: int, tolerance: real): (trends: seq<Trend>)
    requires IncreasingX(pts)
    ensures |pts| < 2 ==> trends == []
  {
    Walk(pts, minTouches, tolerance, Slope)
  }

  // ---------------------------------------------------------------------
  // The same trends described as maximal segments.

  /** With the candidate starting at `pts[s]` and its slope fixed by
      `pts[s + a]`, the point `pts[j]` breaks the tolerance. */
  predicate Deviates(pts: seq<Point>, s: nat, a: nat, tolerance: real, slopeOf: SlopeOf, j: nat)
    requires 1 <= a && s + a < j < |pts|
  {
    Abs(slopeOf(pts[s], pts[j]) - slopeOf(pts[s], pts[s + a])) > tolerance
  }

  /** The first index from `j` on that breaks the tolerance, or `|pts|`. */
  function FirstDeviation(pts: seq<Point>, s: nat, a: nat, tolerance: real, slopeOf: SlopeOf, j: nat): (e: nat)
    requires 1 <= a && s + a < j <= |pts|
    ensures j <= e <= |pts|
    decreases |pts| - j
  {
    if j == |pts| || Deviates(pts, s, a, tolerance, slopeOf, j) then j
    else FirstDeviation(pts, s, a, tolerance, slopeOf, j + 1)
  }

  /** No point of `pts[s + a + 1..k]` breaks the tolerance. */
  predicate NoDeviation(pts: seq<Point>, s: nat, a: nat, tolerance: real, slopeOf: SlopeOf, k: nat)
    requires 1 <= a && k <= |pts|
    decreases k
  {
    k <= s + a + 1
    || (!Deviates(pts, s, a, tolerance, slopeOf, k - 1) && NoDeviation(pts, s, a, tolerance, slopeOf, k - 1))
  }

  /** Where the candidate starting at `pts[s]` with its slope fixed by
      `pts[s + a]` ends: before the first deviating point, or at the end. */
  function SegmentEnd(pts: seq<Point>, s: nat, a: nat, tolerance: real, slopeOf: SlopeOf): (e: nat)
    requires (a == 1 || a == 2) && s + 2 <= |pts|
    ensures s + 2 <= e <= |pts| && s + a <= e
    ensures s + a < |pts| ==> s + a < e
  {
    if s + a == |pts| then |pts| else FirstDeviation(pts, s, a, tolerance, slopeOf, s + a + 1)
  }

  /** The candidate as a trend: "up" exactly when its slope got fixed and is
      positive. */
  function Segment(pts: seq<Point>, s: nat, a: nat, tolerance: real, slopeOf: SlopeOf): Trend
    requires (a == 1 || a == 2) && s + 2 <= |pts|
  {
    var up := s + a < |pts| && slopeOf(pts[s], pts[s + a]) > 0.0;
    Trend(if up then Up else Down, pts[s..SegmentEnd(pts, s, a, tolerance, slopeOf)])
  }

  /** The candidates of the walk from a candidate starting at `pts[s]` whose
      slope is fixed by `pts[s + a]`: each extends up to the first deviating
      point, and the next one starts at its last point with the deviating
      point as its second. */
  function Candidates(pts: seq<Point>, s: nat, a: nat, tolerance: real, slopeOf: SlopeOf): seq<Trend>
    requires (a == 1 || a == 2) && s + 2 <= |pts|
    decreases |pts| - s
  {
    var e := SegmentEnd(pts, s, a, tolerance, slopeOf);
    [Segment(pts, s, a, tolerance, slopeOf)]
      + (if e < |pts| then Candidates(pts, e - 1, 2, tolerance, slopeOf) else [])
  }

  /** The candidates with at least `minTouches` points, in order. */
  function KeepLong(ts: seq<Trend>, minTouches: int): seq<Trend>
  {
    if |ts| == 0 then []
    else (if |ts[0].points| >= minTouches then [ts[0]] else []) + KeepLong(ts[1..], minTouches)
  }

  /** The slope state of the walk while the candidate `pts[s..k]` grows:
      unset until the anchor `pts[s + a]` has joined. */
  function SlopeState(pts: seq<Point>, s: nat, a: nat, slopeOf: SlopeOf, k: nat): Option<real>
    requires 1 <= a && k <= |pts|
  {
    if k > s + a then Some(slopeOf(pts[s], pts[s + a])) else None
  }

  /** The walk's state while it grows the candidate `pts[s..k]`. */
  function Growing(done: seq<Trend>, pts: seq<Point>, s: nat, a: nat, slopeOf: SlopeOf, k: nat): Scan
    requires 1 <= a && s <= k <= |pts|
  {
    Scan(done, pts[s..k], SlopeState(pts, s, a, slopeOf, k))
  }

  /** The walk and the segment description give the same trends. */
  lemma WalkBySegments(pts: seq<Point>, minTouches: int, tolerance: real, slopeOf: SlopeOf)
    requires |pts| >= 2
    ensures Walk(pts, minTouches, tolerance, slopeOf)
         == KeepLong(Candidates(pts, 0, 1, tolerance, slopeOf), minTouches)
  {
    var init := Scan([], [], None);
    assert Step(init, pts[0], minTouches, tolerance, slopeOf) == Growing([], pts, 0, 1, slopeOf, 1);
    RunFollowsCandidates(pts, minTouches, tolerance, slopeOf, 0, 1, 1, []);
  }

  /** `findValidTrends` keeps the long maximal segments of the turning
      points. */
  lemma FindValidTrendsBySegments(pts: seq<Point>, minTouches: int, tolerance: real)
    requires IncreasingX(pts)
    ensures FindValidTrends(pts, minTouches, tolerance)
         == if |pts| < 2 then [] else KeepLong(Candidates(pts, 0, 1, tolerance, Slope), minTouches)
  {
    if |pts| >= 2 {
      WalkBySegments(pts, minTouches, tolerance, Slope);
    }
  }

  /** The invariant of the walk: while it grows the candidate `pts[s..k]`
      and no point has deviated yet, the rest of the walk closes exactly the
      remaining candidates. */
  lemma {:induction false} RunFollowsCandidates(pts: seq<Point>, minTouches: int, tolerance: real, slopeOf: SlopeOf,
                                                 s: nat, a: nat, k: nat, done: seq<Trend>)
    requires (a == 1 || a == 2) && s + 2 <= |pts|
    requires s + a <= k <= |pts|
    requires NoDeviation(pts, s, a, tolerance, slopeOf, k)
    ensures Finish(Run(pts, k, Growing(done, pts, s, a, slopeOf, k), minTouches, tolerance, slopeOf), minTouches)
         == done + KeepLong(Candidates(pts, s, a, tolerance, slopeOf), minTouches)
    decreases |pts| - k, 1
  {
    if k == |pts| {
      EndCase(pts, minTouches, tolerance, slopeOf, s, a, done);
    } else if k == s + a || !Deviates(pts, s, a, tolerance, slopeOf, k) {
      GrowCase(pts, minTouches, tolerance, slopeOf, s, a, k, done);
    } else {
      BreakCase(pts, minTouches, tolerance, slopeOf, s, a, k, done);
    }
  }

  /** The points have run out: the walk closes the one remaining candidate. */
  lemma EndCase(pts: seq<Point>, minTouches: int, tolerance: real, slopeOf: SlopeOf, s: nat, a: nat, done: seq<Trend>)
    requires (a == 1 || a == 2) && s + 2 <= |pts| && s + a <= |pts|
    requires NoDeviation(pts, s, a, tolerance, slopeOf, |pts|)
    ensures Finish(Run(pts, |pts|, Growing(done, pts, s, a, slopeOf, |pts|), minTouches, tolerance, slopeOf), minTouches)
         == done + KeepLong(Candidates(pts, s, a, tolerance, slopeOf), minTouches)
  {
    if s + a < |pts| {
      NoDeviationMeans(pts, s, a, tolerance, slopeOf, |pts|);
      FirstDeviationIs(pts, s, a, tolerance, slopeOf, s + a + 1, |pts|);
    }
    SingleCandidate(pts, s, a, tolerance, slopeOf, minTouches);
    assert pts[s..|pts|] == pts[s..];
  }

  /** The next point joins the candidate. */
  lemma {:induction false} GrowCase(pts: seq<Point>, minTouches: int, tolerance: real, slopeOf: SlopeOf,
                                     s: nat, a: nat, k: nat, done: seq<Trend>)
    requires (a == 1 || a == 2) && s + 2 <= |pts|
    requires s + a <= k < |pts|
    requires NoDeviation(pts, s, a, tolerance, slopeOf, k)
    requires k == s + a || !Deviates(pts, s, a, tolerance, slopeOf, k)
    ensures Finish(Run(pts, k, Growing(done, pts, s, a, slopeOf, k), minTouches, tolerance, slopeOf), minTouches)
         == done + KeepLong(Candidates(pts, s, a, tolerance, slopeOf), minTouches)
    decreases |pts| - k, 0
  {
    RunFollowsCandidates(pts, minTouches, tolerance, slopeOf, s, a, k + 1, done);
    StepGrows(pts, minTouches, tolerance, slopeOf, s, a, k, done);
  }

  /** The next point deviates: the walk closes the candidate, whose segment
      ends right there, and restarts from the candidate's last point. */
  lemma {:induction false} BreakCase(pts: seq<Point>, minTouches: int, tolerance: real, slopeOf: SlopeOf,
                                      s: nat, a: nat, k: nat, done: seq<Trend>)
    requires (a == 1 || a == 2) && s + a < k < |pts|
    requires Deviates(pts, s, a, tolerance, slopeOf, k) && NoDeviation(pts, s, a, tolerance, slopeOf, k)
    ensures Finish(Run(pts, k, Growing(done, pts, s, a, slopeOf, k), minTouches, tolerance, slopeOf), minTouches)
         == done + KeepLong(Candidates(pts, s, a, tolerance, slopeOf), minTouches)
    decreases |pts| - k, 0
  {
    var closed := Close(pts[s..k], SlopeState(pts, s, a, slopeOf, k), minTouches);
    RunFollowsCandidates(pts, minTouches, tolerance, slopeOf, k - 1, 2, k + 1, done + closed);
    CloseBreak(pts, minTouches, tolerance, slopeOf, s, a, k, done, closed);
  }

  /** `BreakCase` once the walk after the break is known. */
  lemma CloseBreak(pts: seq<Point>, minTouches: int, tolerance: real, slopeOf: SlopeOf,
                   s: nat, a: nat, k: nat, done: seq<Trend>, closed: seq<Trend>)
    requires (a == 1 || a == 2) && s + a < k < |pts|
    requires Deviates(pts, s, a, tolerance, slopeOf, k) && NoDeviation(pts, s, a, tolerance, slopeOf, k)
    requires closed == Close(pts[s..k], SlopeState(pts, s, a, slopeOf, k), minTouches)
    requires Finish(Run(pts, k + 1, Growing(done + closed, pts, k - 1, 2, slopeOf, k + 1), minTouches, tolerance, slopeOf),
                    minTouches)
          == done + closed + KeepLong(Candidates(pts, k - 1, 2, tolerance, slopeOf), minTouches)
    ensures Finish(Run(pts, k, Growing(done, pts, s, a, slopeOf, k), minTouches, tolerance, slopeOf), minTouches)
         == done + KeepLong(Candidates(pts, s, a, tolerance, slopeOf), minTouches)
  {
    StepBreaks(pts, minTouches, tolerance, slopeOf, s, a, k, done);
    BrokenCandidate(pts, s, a, tolerance, slopeOf, minTouches, k);
    JoinBreak(Run(pts, k, Growing(done, pts, s, a, slopeOf, k), minTouches, tolerance, slopeOf),
              Run(pts, k + 1, Growing(done + closed, pts, k - 1, 2, slopeOf, k + 1), minTouches, tolerance, slopeOf),
              minTouches, done, closed, KeepLong(Candidates(pts, k - 1, 2, tolerance, slopeOf), minTouches),
              KeepLong(Candidates(pts, s, a, tolerance, slopeOf), minTouches));
  }

  /** The equational step that closes `BreakCase`. */
  lemma JoinBreak(r0: Scan, r1: Scan, minTouches: int, done: seq<Trend>, closed: seq<Trend>, rest: seq<Trend>,
                  all: seq<Trend>)
    requires r0 == r1
    requires Finish(r1, minTouches) == done + closed + rest
    requires all == closed + rest
    ensures Finish(r0, minTouches) == done + all
  {
    AppendAssoc(done, closed, rest);
  }

  /** The anchor, or a point within tolerance, joins the candidate. */
  lemma StepGrows(pts: seq<Point>, minTouches: int, tolerance: real, slopeOf: SlopeOf,
                  s: nat, a: nat, k: nat, done: seq<Trend>)
    requires (a == 1 || a == 2)
    requires s + a <= k < |pts|
    requires k == s + a || !Deviates(pts, s, a, tolerance, slopeOf, k)
    ensures Run(pts, k, Growing(done, pts, s, a, slopeOf, k), minTouches, tolerance, slopeOf)
         == Run(pts, k + 1, Growing(done, pts, s, a, slopeOf, k + 1), minTouches, tolerance, slopeOf)
  {
    assert pts[s..k] + [pts[k]] == pts[s..k + 1];
  }

  /** A deviating point closes the candidate and starts the next one from
      the candidate's last point. */
  lemma StepBreaks(pts: seq<Point>, minTouches: int, tolerance: real, slopeOf: SlopeOf,
                   s: nat, a: nat, k: nat, done: seq<Trend>)
    requires (a == 1 || a == 2)
    requires s + a < k < |pts| && Deviates(pts, s, a, tolerance, slopeOf, k)
    ensures Run(pts, k, Growing(done, pts, s, a, slopeOf, k), minTouches, tolerance, slopeOf)
         == Run(pts, k + 1,
                Growing(done + Close(pts[s..k], SlopeState(pts, s, a, slopeOf, k), minTouches),
                        pts, k - 1, 2, slopeOf, k + 1),
                minTouches, tolerance, slopeOf)
  {
    assert [Last(pts[s..k]), pts[k]] == pts[k - 1..k + 1];
  }

  /** `FirstDeviation` finds the first deviating index. */
  lemma {:induction false} FirstDeviationIs(pts: seq<Point>, s: nat, a: nat, tolerance: real, slopeOf: SlopeOf,
                                             j: nat, e: nat)
    requires 1 <= a && s + a < j <= e <= |pts|
    requires forall i :: j <= i < e ==> !Deviates(pts, s, a, tolerance, slopeOf, i)
    requires e < |pts| ==> Deviates(pts, s, a, tolerance, slopeOf, e)
    ensures FirstDeviation(pts, s, a, tolerance, slopeOf, j) == e
    decreases e - j
  {
    if j < e {
      FirstDeviationIs(pts, s, a, tolerance, slopeOf, j + 1, e);
    }
  }

  lemma {:induction false} NoDeviationMeans(pts: seq<Point>, s: nat, a: nat, tolerance: real, slopeOf: SlopeOf, k: nat)
    requires 1 <= a && k <= |pts| && NoDeviation(pts, s, a, tolerance, slopeOf, k)
    ensures forall i :: s + a < i < k ==> !Deviates(pts, s, a, tolerance, slopeOf, i)
    decreases k
  {
    if k > s + a + 1 {
      NoDeviationMeans(pts, s, a, tolerance, slopeOf, k - 1);
    }
  }

  /** The last candidate, closed when the points run out. */
  lemma SingleCandidate(pts: seq<Point>, s: nat, a: nat, tolerance: real, slopeOf: SlopeOf, minTouches: int)
    requires (a == 1 || a == 2) && s + 2 <= |pts|
    requires s + a < |pts| ==> FirstDeviation(pts, s, a, tolerance, slopeOf, s + a + 1) == |pts|
    ensures KeepLong(Candidates(pts, s, a, tolerance, slopeOf), minTouches)
         == Close(pts[s..], SlopeState(pts, s, a, slopeOf, |pts|), minTouches)
  {
    var cs := Candidates(pts, s, a, tolerance, slopeOf);
    assert SegmentEnd(pts, s, a, tolerance, slopeOf) == |pts|;
    assert pts[s..|pts|] == pts[s..];
    assert cs == [Trend(DirectionOf(SlopeState(pts, s, a, slopeOf, |pts|)), pts[s..])];
    assert cs[1..] == [];
  }

  /** A candidate closed by the deviating point `pts[k]`. */
  lemma BrokenCandidate(pts: seq<Point>, s: nat, a: nat, tolerance: real, slopeOf: SlopeOf, minTouches: int, k: nat)
    requires (a == 1 || a == 2) && s + a < k < |pts|
    requires Deviates(pts, s, a, tolerance, slopeOf, k)
    requires NoDeviation(pts, s, a, tolerance, slopeOf, k)
    ensures KeepLong(Candidates(pts, s, a, tolerance, slopeOf), minTouches)
         == Close(pts[s..k], SlopeState(pts, s, a, slopeOf, k), minTouches)
            + KeepLong(Candidates(pts, k - 1, 2, tolerance, slopeOf), minTouches)
  {
    CandidatesBreak(pts, s, a, tolerance, slopeOf, k);
    KeepLongCons(Trend(DirectionOf(SlopeState(pts, s, a, slopeOf, k)), pts[s..k]),
                 Candidates(pts, k - 1, 2, tolerance, slopeOf), minTouches);
  }

  lemma CandidatesBreak(pts: seq<Point>, s: nat, a: nat, tolerance: real, slopeOf: SlopeOf, k: nat)
    requires (a == 1 || a == 2) && s + a < k < |pts|
    requires Deviates(pts, s, a, tolerance, slopeOf, k)
    requires NoDeviation(pts, s, a, tolerance, slopeOf, k)
    ensures Candidates(pts, s, a, tolerance, slopeOf)
         == [Trend(DirectionOf(SlopeState(pts, s, a, slopeOf, k)), pts[s..k])]
            + Candidates(pts, k - 1, 2, tolerance, slopeOf)
  {
    NoDeviationMeans(pts, s, a, tolerance, slopeOf, k);
    FirstDeviationIs(pts, s, a, tolerance, slopeOf, s + a + 1, k);
    CandidatesEndingAt(pts, s, a, tolerance, slopeOf, k);
  }

  lemma CandidatesEndingAt(pts: seq<Point>, s: nat, a: nat, tolerance: real, slopeOf: SlopeOf, k: nat)
    requires (a == 1 || a == 2) && s + a < k < |pts|
    requires SegmentEnd(pts, s, a, tolerance, slopeOf) == k
    ensures Candidates(pts, s, a, tolerance, slopeOf)
         == [Trend(DirectionOf(SlopeState(pts, s, a, slopeOf, k)), pts[s..k])]
            + Candidates(pts, k - 1, 2, tolerance, slopeOf)
  {
  }

  lemma KeepLongCons(t: Trend, rest: seq<Trend>, minTouches: int)
    ensures KeepLong([t] + rest, minTouches)
         == (if |t.points| >= minTouches then [t] else []) + KeepLong(rest, minTouches)
  {
    assert ([t] + rest)[1..] == rest;
  }

  /** `KeepLong` keeps exactly the trends with at least `minTouches`
      points. */
  lemma {:induction false} KeepLongMembers(ts: seq<Trend>, minTouches: int)
    ensures forall t :: t in KeepLong(ts, minTouches) <==> t in ts && |t.points| >= minTouches
  {
    if |ts| > 0 {
      KeepLongMembers(ts[1..], minTouches);
      assert ts == [ts[0]] + ts[1..];
    }
  }

  // ---------------------------------------------------------------------
  // What the segments are.

  /** `FirstDeviation` stops at the first deviating index. */
  lemma {:induction false} FirstDeviationIsFirst(pts: seq<Point>, s: nat, a: nat, tolerance: real, slopeOf: SlopeOf,
                                                  j: nat)
    requires 1 <= a && s + a < j <= |pts|
    ensures var e := FirstDeviation(pts, s, a, tolerance, slopeOf, j);
      && (forall i :: j <= i < e ==> !Deviates(pts, s, a, tolerance, slopeOf, i))
      && (e < |pts| ==> Deviates(pts, s, a, tolerance, slopeOf, e))
    decreases |pts| - j
  {
    if j < |pts| && !Deviates(pts, s, a, tolerance, slopeOf, j) {
      FirstDeviationIsFirst(pts, s, a, tolerance, slopeOf, j + 1);
    }
  }

  /** `points` is a contiguous run of `pts`. */
  predicate IsSliceOf(points: seq<Point>, pts: seq<Point>)
  {
    exists lo :: 0 <= lo <= |pts| && points <= pts[lo..]
  }

  /** A trend whose slope is fixed by `points[anchor]`: every later point is
      within `tolerance` of that slope, and it is "up" exactly when the slope
      is fixed and positive. */
  predicate Fits(t: Trend, anchor: nat, tolerance: real, slopeOf: SlopeOf)
  {
    var p := t.points;
    && |p| >= 2 && 1 <= anchor
    && (forall j :: anchor < j < |p| ==> Within(p, anchor, tolerance, slopeOf, j))
    && (t.direction == Up <==> anchor < |p| && slopeOf(p[0], p[anchor]) > 0.0)
  }

  /** The slope from `p[0]` to `p[j]` is within `tolerance` of the slope to
      the anchor `p[anchor]`. */
  predicate Within(p: seq<Point>, anchor: nat, tolerance: real, slopeOf: SlopeOf, j: nat)
    requires anchor < j < |p|
  {
    Abs(slopeOf(p[0], p[j]) - slopeOf(p[0], p[anchor])) <= tolerance
  }

  /** A fitting trend that is maximal: when a point `next` closed it, that
      point deviates by more than `tolerance`. */
  predicate IsSegment(t: Trend, anchor: nat, next: Option<Point>, tolerance: real, slopeOf: SlopeOf)
  {
    && Fits(t, anchor, tolerance, slopeOf)
    && (next.Some? ==>
          anchor < |t.points|
          && Abs(slopeOf(t.points[0], next.value) - slopeOf(t.points[0], t.points[anchor])) > tolerance)
  }

  lemma SegmentIsSegment(pts: seq<Point>, s: nat, a: nat, tolerance: real, slopeOf: SlopeOf)
    requires (a == 1 || a == 2) && s + 2 <= |pts|
    ensures var e := SegmentEnd(pts, s, a, tolerance, slopeOf);
      IsSegment(Segment(pts, s, a, tolerance, slopeOf), a, if e < |pts| then Some(pts[e]) else None,
                tolerance, slopeOf)
  {
    var e := SegmentEnd(pts, s, a, tolerance, slopeOf);
    var p := Segment(pts, s, a, tolerance, slopeOf).points;
    assert p == pts[s..e];
    if s + a < |pts| {
      FirstDeviationIsFirst(pts, s, a, tolerance, slopeOf, s + a + 1);
      forall j | a < j < |p|
        ensures Within(p, a, tolerance, slopeOf, j)
      {
        assert !Deviates(pts, s, a, tolerance, slopeOf, s + j);
      }
      if e < |pts| {
        assert Deviates(pts, s, a, tolerance, slopeOf, e);
      }
    }
  }

  /** The candidates from the one anchored at `anchor` on: each is a
      contiguous run of `pts`, each is a maximal segment closed by the second
      point of the next, and each one's last point is the next one's
      first. */
  predicate Chain(cs: seq<Trend>, anchor: nat, pts: seq<Point>, tolerance: real, slopeOf: SlopeOf)
    decreases |cs|
  {
    && |cs| > 0
    && |cs[0].points| >= 2
    && IsSliceOf(cs[0].points, pts)
    && (|cs| == 1 ==> IsSegment(cs[0], anchor, None, tolerance, slopeOf))
    && (|cs| > 1 ==>
          && Meets(cs[0], cs[1], anchor, tolerance, slopeOf)
          && Chain(cs[1..], 2, pts, tolerance, slopeOf))
  }

  /** The trend `t` is followed by `u`: they share a point, and the second
      point of `u` is the one that closed `t`. */
  predicate Meets(t: Trend, u: Trend, anchor: nat, tolerance: real, slopeOf: SlopeOf)
  {
    && |t.points| >= 2 && |u.points| >= 2
    && Last(t.points) == u.points[0]
    && IsSegment(t, anchor, Some(u.points[1]), tolerance, slopeOf)
  }

  lemma SegmentIsSlice(pts: seq<Point>, s: nat, a: nat, tolerance: real, slopeOf: SlopeOf)
    requires (a == 1 || a == 2) && s + 2 <= |pts|
    ensures var p := Segment(pts, s, a, tolerance, slopeOf).points;
      && p == pts[s..SegmentEnd(pts, s, a, tolerance, slopeOf)]
      && p[0] == pts[s] && Last(p) == pts[SegmentEnd(pts, s, a, tolerance, slopeOf) - 1]
      && IsSliceOf(p, pts)
  {
    var p := Segment(pts, s, a, tolerance, slopeOf).points;
    assert p <= pts[s..];
  }

  /** The candidates form a chain whose first trend starts at `pts[s]`. */
  lemma {:induction false} CandidatesChain(pts: seq<Point>, s: nat, a: nat, tolerance: real, slopeOf: SlopeOf)
    requires (a == 1 || a == 2) && s + 2 <= |pts|
    ensures Chain(Candidates(pts, s, a, tolerance, slopeOf), a, pts, tolerance, slopeOf)
    ensures Candidates(pts, s, a, tolerance, slopeOf)[0].points[0] == pts[s]
    decreases |pts| - s, 1
  {
    var e := SegmentEnd(pts, s, a, tolerance, slopeOf);
    if e < |pts| {
      ChainStep(pts, s, a, tolerance, slopeOf, e - 1);
    } else {
      ChainEnd(pts, s, a, tolerance, slopeOf);
    }
  }

  /** The base case of `CandidatesChain`: the candidate runs to the end. */
  lemma ChainEnd(pts: seq<Point>, s: nat, a: nat, tolerance: real, slopeOf: SlopeOf)
    requires (a == 1 || a == 2) && s + 2 <= |pts|
    requires SegmentEnd(pts, s, a, tolerance, slopeOf) == |pts|
    ensures Chain(Candidates(pts, s, a, tolerance, slopeOf), a, pts, tolerance, slopeOf)
    ensures Candidates(pts, s, a, tolerance, slopeOf)[0].points[0] == pts[s]
  {
    var cs := Candidates(pts, s, a, tolerance, slopeOf);
    assert cs == [Segment(pts, s, a, tolerance, slopeOf)];
    SegmentIsSegment(pts, s, a, tolerance, slopeOf);
    SegmentIsSlice(pts, s, a, tolerance, slopeOf);
  }

  /** The inductive step of `CandidatesChain`: the candidate closed at
      `pts[m + 1]` in front of the chain of those from `pts[m]` on. */
  lemma {:induction false} ChainStep(pts: seq<Point>, s: nat, a: nat, tolerance: real, slopeOf: SlopeOf, m: nat)
    requires (a == 1 || a == 2) && s + 2 <= |pts|
    requires m + 1 == SegmentEnd(pts, s, a, tolerance, slopeOf) && m + 1 < |pts|
    ensures Chain(Candidates(pts, s, a, tolerance, slopeOf), a, pts, tolerance, slopeOf)
    ensures Candidates(pts, s, a, tolerance, slopeOf)[0].points[0] == pts[s]
    decreases |pts| - s, 0
  {
    var seg := Segment(pts, s, a, tolerance, slopeOf);
    var rest := Candidates(pts, m, 2, tolerance, slopeOf);
    CandidatesChain(pts, m, 2, tolerance, slopeOf);
    UnfoldCandidates(pts, s, a, tolerance, slopeOf, m);
    FirstCandidate(pts, m, 2, tolerance, slopeOf);
    SegmentIsSegment(pts, s, a, tolerance, slopeOf);
    SegmentIsSlice(pts, s, a, tolerance, slopeOf);
    SegmentIsSlice(pts, m, 2, tolerance, slopeOf);
    ChainCons(seg, rest, a, pts[m + 1], pts, tolerance, slopeOf, Candidates(pts, s, a, tolerance, slopeOf));
  }

  lemma FirstCandidate(pts: seq<Point>, s: nat, a: nat, tolerance: real, slopeOf: SlopeOf)
    requires (a == 1 || a == 2) && s + 2 <= |pts|
    ensures Candidates(pts, s, a, tolerance, slopeOf)[0] == Segment(pts, s, a, tolerance, slopeOf)
  {
  }

  /** A segment in front of a chain it meets. */
  lemma ChainCons(t: Trend, rest: seq<Trend>, anchor: nat, next: Point, pts: seq<Point>, tolerance: real,
                  slopeOf: SlopeOf, cs: seq<Trend>)
    requires |t.points| >= 2 && IsSliceOf(t.points, pts)
    requires Chain(rest, 2, pts, tolerance, slopeOf)
    requires Last(t.points) == rest[0].points[0] && rest[0].points[1] == next
    requires IsSegment(t, anchor, Some(next), tolerance, slopeOf)
    requires cs == [t] + rest
    ensures Chain(cs, anchor, pts, tolerance, slopeOf) && cs[0].points[0] == t.points[0]
  {
    assert cs[1..] == rest;
  }

  /** The candidates glued at their shared end points. */
  function Stitch(cs: seq<Trend>): seq<Point>
  {
    if |cs| == 0 then []
    else if |cs| == 1 then cs[0].points
    else
      var r := Stitch(cs[1..]);
      cs[0].points + (if |r| == 0 then [] else r[1..])
  }

  /** The candidates cover the points from `pts[s]` on exactly: glued at the
      points they share, they give back `pts[s..]`. */
  lemma {:induction false} CandidatesCover(pts: seq<Point>, s: nat, a: nat, tolerance: real, slopeOf: SlopeOf)
    requires (a == 1 || a == 2) && s + 2 <= |pts|
    ensures Stitch(Candidates(pts, s, a, tolerance, slopeOf)) == pts[s..]
    decreases |pts| - s, 1
  {
    var e := SegmentEnd(pts, s, a, tolerance, slopeOf);
    if e < |pts| {
      CoverFrom(pts, s, a, tolerance, slopeOf, e);
    } else {
      CoverEnd(pts, s, a, tolerance, slopeOf);
    }
  }

  /** The base case of `CandidatesCover`: one candidate runs to the end. */
  lemma CoverEnd(pts: seq<Point>, s: nat, a: nat, tolerance: real, slopeOf: SlopeOf)
    requires (a == 1 || a == 2) && s + 2 <= |pts|
    requires SegmentEnd(pts, s, a, tolerance, slopeOf) == |pts|
    ensures Stitch(Candidates(pts, s, a, tolerance, slopeOf)) == pts[s..]
  {
    var seg := Segment(pts, s, a, tolerance, slopeOf);
    SegmentIsSlice(pts, s, a, tolerance, slopeOf);
    assert Candidates(pts, s, a, tolerance, slopeOf) == [seg];
    assert pts[s..|pts|] == pts[s..];
  }

  /** The inductive step of `CandidatesCover`. */
  lemma {:induction false} CoverFrom(pts: seq<Point>, s: nat, a: nat, tolerance: real, slopeOf: SlopeOf, e: nat)
    requires (a == 1 || a == 2) && s + 2 <= |pts|
    requires e == SegmentEnd(pts, s, a, tolerance, slopeOf) && e < |pts|
    ensures Stitch(Candidates(pts, s, a, tolerance, slopeOf)) == pts[s..]
    decreases |pts| - s, 0
  {
    var m: nat := e - 1;
    CandidatesCover(pts, m, 2, tolerance, slopeOf);
    SegmentPoints(pts, s, a, tolerance, slopeOf);
    UnfoldCandidates(pts, s, a, tolerance, slopeOf, m);
    CoverStep(pts, s, m, Segment(pts, s, a, tolerance, slopeOf), Candidates(pts, m, 2, tolerance, slopeOf),
              Candidates(pts, s, a, tolerance, slopeOf));
  }

  lemma SegmentPoints(pts: seq<Point>, s: nat, a: nat, tolerance: real, slopeOf: SlopeOf)
    requires (a == 1 || a == 2) && s + 2 <= |pts|
    ensures Segment(pts, s, a, tolerance, slopeOf).points == pts[s..SegmentEnd(pts, s, a, tolerance, slopeOf)]
  {
  }

  /** A candidate closed at `pts[m + 1]` is followed by those from `pts[m]`
      on. */
  lemma UnfoldCandidates(pts: seq<Point>, s: nat, a: nat, tolerance: real, slopeOf: SlopeOf, m: nat)
    requires (a == 1 || a == 2) && s + 2 <= |pts|
    requires m + 1 == SegmentEnd(pts, s, a, tolerance, slopeOf) && m + 1 < |pts|
    ensures Candidates(pts, s, a, tolerance, slopeOf)
         == [Segment(pts, s, a, tolerance, slopeOf)] + Candidates(pts, m, 2, tolerance, slopeOf)
  {
  }

  /** The candidate `pts[s..m + 1]` in front of candidates covering
      `pts[m..]`. */
  lemma CoverStep(pts: seq<Point>, s: nat, m: nat, seg: Trend, rest: seq<Trend>, cs: seq<Trend>)
    requires s <= m < |pts| - 1 && seg.points == pts[s..m + 1]
    requires Stitch(rest) == pts[m..]
    requires cs == [seg] + rest
    ensures Stitch(cs) == pts[s..]
  {
    assert |rest| > 0;
    StitchCons(seg, rest);
    GlueSlices(pts, s, m + 1);
  }

  lemma StitchCons(t: Trend, rest: seq<Trend>)
    requires |rest| > 0 && |Stitch(rest)| > 0
    ensures Stitch([t] + rest) == t.points + Stitch(rest)[1..]
  {
    assert ([t] + rest)[1..] == rest;
  }

  lemma GlueSlices(pts: seq<Point>, s: nat, e: nat)
    requires s < e < |pts|
    ensures pts[s..e] + pts[e - 1..][1..] == pts[s..]
  {
    assert pts[e - 1..][1..] == pts[e..];
  }

  /** What a chain says about each of its trends: a contiguous run of at
      least two points that fits its anchor. */
  lemma {:induction false} ChainMembers(cs: seq<Trend>, anchor: nat, pts: seq<Point>, tolerance: real,
                                         slopeOf: SlopeOf)
    requires Chain(cs, anchor, pts, tolerance, slopeOf)
    ensures forall i :: 0 <= i < |cs| ==>
      && |cs[i].points| >= 2 && IsSliceOf(cs[i].points, pts)
      && Fits(cs[i], if i == 0 then anchor else 2, tolerance, slopeOf)
    decreases |cs|
  {
    if |cs| > 1 {
      ChainMembers(cs[1..], 2, pts, tolerance, slopeOf);
      forall i | 1 <= i < |cs|
        ensures cs[i] == cs[1..][i - 1]
      {
      }
    }
  }

  /** What a chain says about each pair of neighbours. */
  lemma {:induction false} ChainNeighbours(cs: seq<Trend>, anchor: nat, pts: seq<Point>, tolerance: real,
                                            slopeOf: SlopeOf)
    requires Chain(cs, anchor, pts, tolerance, slopeOf)
    ensures forall i :: 0 <= i < |cs| - 1 ==>
      Meets(cs[i], cs[i + 1], if i == 0 then anchor else 2, tolerance, slopeOf)
    decreases |cs|
  {
    if |cs| > 1 {
      ChainNeighbours(cs[1..], 2, pts, tolerance, slopeOf);
      forall i | 1 <= i < |cs| - 1
        ensures Meets(cs[i], cs[i + 1], 2, tolerance, slopeOf)
      {
        assert cs[i] == cs[1..][i - 1] && cs[i + 1] == cs[1..][i];
      }
    }
  }

  /** `findValidTrends` returns exactly the candidates with at least
      `minTouches` points. */
  lemma ValidTrendsAreLongCandidates(pts: seq<Point>, minTouches: int, tolerance: real)
    requires IncreasingX(pts)
    ensures forall t :: t in FindValidTrends(pts, minTouches, tolerance) <==>
      |pts| >= 2 && t in Candidates(pts, 0, 1, tolerance, Slope) && |t.points| >= minTouches
  {
    FindValidTrendsBySegments(pts, minTouches, tolerance);
    if |pts| >= 2 {
      KeepLongMembers(Candidates(pts, 0, 1, tolerance, Slope), minTouches);
    }
  }

  /** Every trend `findValidTrends` returns has at least `minTouches` and at
      least two points, is a contiguous run of the turning points, and keeps
      every point after its anchor (its second or third point) within
      `tolerance` of the anchor's slope, with "up" meaning that slope is
      positive. */
  lemma ValidTrendsFit(pts: seq<Point>, minTouches: int, tolerance: real)
    requires IncreasingX(pts)
    ensures forall t :: t in FindValidTrends(pts, minTouches, tolerance) ==>
      && |t.points| >= minTouches && |t.points| >= 2 && IsSliceOf(t.points, pts)
      && (Fits(t, 1, tolerance, Slope) || Fits(t, 2, tolerance, Slope))
  {
    ValidTrendsAreLongCandidates(pts, minTouches, tolerance);
    if |pts| >= 2 {
      var cs := Candidates(pts, 0, 1, tolerance, Slope);
      CandidatesChain(pts, 0, 1, tolerance, Slope);
      ChainMembers(cs, 1, pts, tolerance, Slope);
      forall t | t in FindValidTrends(pts, minTouches, tolerance)
        ensures Fits(t, 1, tolerance, Slope) || Fits(t, 2, tolerance, Slope)
      {
        var i :| 0 <= i < |cs| && cs[i] == t;
      }
    }
  }
}
