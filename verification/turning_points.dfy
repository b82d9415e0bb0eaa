/** `findSequentialTurningPoints`: the bars whose high (or low) is a strict
    extremum of a symmetric window of `windowSize` bars on either side. */
module TurningPoints {
  import opened Wrappers
  import opened Types

  /** Index `i` has `w` bars on both sides, so the scan visits it. */
  predicate InWindow(data: seq<Bar>, w: nat, i: int)
  {
    w <= i && i + w < |data|
  }

  /** Every high in `[i - w, i)` and in `(i, i + w]` is strictly below bar
      `i`'s high. */
  predicate IsHigh(data: seq<Bar>, w: nat, i: nat)
    requires InWindow(data, w, i)
  {
    && (forall j :: i - w <= j < i ==> data[j].high < data[i].high)
    && (forall j :: i < j <= i + w ==> data[j].high < data[i].high)
  }

  /** Every low in `[i - w, i)` and in `(i, i + w]` is strictly above bar
      `i`'s low. */
  predicate IsLow(data: seq<Bar>, w: nat, i: nat)
    requires InWindow(data, w, i)
  {
    && (forall j :: i - w <= j < i ==> data[j].low > data[i].low)
    && (forall j :: i < j <= i + w ==> data[j].low > data[i].low)
  }

  predicate IsTurning(data: seq<Bar>, w: nat, i: nat)
    requires InWindow(data, w, i)
  {
    IsHigh(data, w, i) || IsLow(data, w, i)
  }

  /** The point recorded for a turning bar; a bar that is both a high and a
      low is recorded once, as a high. */
  function TurningPoint(data: seq<Bar>, w: nat, i: nat): Point
    requires InWindow(data, w, i)
  {
    if IsHigh(data, w, i) then Point(i, data[i].high, Some(High))
    else Point(i, data[i].low, Some(Low))
  }

  /** The turning points at indices `i` and above. */
  function TurningPointsFrom(data: seq<Bar>, w: nat, i: nat): seq<Point>
    requires w <= i
    decreases |data| - i
  {
    if i + w >= |data| then []
    else (if IsTurning(data, w, i) then [TurningPoint(data, w, i)] else [])
         + TurningPointsFrom(data, w, i + 1)
  }

  function TurningPoints(data: seq<Bar>, w: nat): seq<Point>
  {
    TurningPointsFrom(data, w, w)
  }

  /** The scan: only indices with a full window on both sides are examined. */
  method FindSequentialTurningPoints(data: seq<Bar>, w: nat) returns (points: seq<Point>)
    ensures points == TurningPoints(data, w)
  {
    points := [];
    var i := w;
    while i + w < |data|
      invariant w <= i
      invariant points + TurningPointsFrom(data, w, i) == TurningPoints(data, w)
      decreases |data| - i
    {
      var isHigh := IsHigh(data, w, i);
      var isLow := IsLow(data, w, i);
      if isHigh || isLow {
        points := points + [Point(i, if isHigh then data[i].high else data[i].low,
                                  Some(if isHigh then High else Low))];
      }
      i := i + 1;
    }
  }

  /** The turning points are exactly the turning bars, in index order. */
  lemma TurningPointsCharacterised(data: seq<Bar>, w: nat)
    ensures var points := TurningPoints(data, w);
      && IncreasingX(points)
      && (forall k :: 0 <= k < |points| ==>
            InWindow(data, w, points[k].x) && IsTurning(data, w, points[k].x)
            && points[k] == TurningPoint(data, w, points[k].x))
      && (forall i: nat :: InWindow(data, w, i) && IsTurning(data, w, i) ==>
            TurningPoint(data, w, i) in points)
  {
    TurningPointsFromCharacterised(data, w, w);
  }

  lemma {:induction false} TurningPointsFromCharacterised(data: seq<Bar>, w: nat, from: nat)
    requires w <= from
    ensures var points := TurningPointsFrom(data, w, from);
      && IncreasingX(points)
      && (forall k :: 0 <= k < |points| ==>
            from <= points[k].x && InWindow(data, w, points[k].x) && IsTurning(data, w, points[k].x)
            && points[k] == TurningPoint(data, w, points[k].x))
      && (forall i: nat :: from <= i && InWindow(data, w, i) && IsTurning(data, w, i) ==>
            TurningPoint(data, w, i) in points)
    decreases |data| - from
  {
    if from + w < |data| {
      TurningPointsFromCharacterised(data, w, from + 1);
    }
  }

  /** A flat series has no strict extremum, so it has no turning point. */
  lemma FlatSeriesHasNoTurningPoints(data: seq<Bar>, w: nat)
    requires w >= 1
    requires forall j :: 0 <= j < |data| ==> data[j].high == data[0].high && data[j].low == data[0].low
    ensures TurningPoints(data, w) == []
  {
    TurningPointsCharacterised(data, w);
    var points := TurningPoints(data, w);
    if |points| > 0 {
      FlatBarIsNotTurning(data, w, points[0].x);
    }
  }

  lemma FlatBarIsNotTurning(data: seq<Bar>, w: nat, i: nat)
    requires w >= 1 && InWindow(data, w, i)
    requires forall j :: 0 <= j < |data| ==> data[j].high == data[0].high && data[j].low == data[0].low
    ensures !IsTurning(data, w, i)
  {
    assert data[i - 1].high == data[i].high && data[i - 1].low == data[i].low;
  }
}
