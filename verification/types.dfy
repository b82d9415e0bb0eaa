/** The records of the analytics core (`TickData`, `OHLCData`, `Point`,
    `Trend`, `TrendLine`). Prices are reals: floating-point rounding, `NaN`
    and infinities are outside the model. */
module Types {
  import opened Wrappers

  /** One market tick as stored in a daily file. */
  datatype Tick = Tick(timestamp: string, lastPrice: real, bidPrice: real, askPrice: real, volume: int)

  /** One OHLC bar folded from a chunk of ticks. */
  datatype Bar = Bar(open: real, high: real, low: real, close: real, timestamp: string, volume: int)

  /** The `type` tag written on turning points; the declared `Point` type has
      no such field, so points built elsewhere carry `None`. */
  datatype Extremum = High | Low

  datatype Point = Point(x: int, y: real, kind: Option<Extremum>)

  datatype Direction = Up | Down

  datatype Trend = Trend(direction: Direction, points: seq<Point>)

  /** A fitted line. The declared type also has a `direction`, which no code
      path ever sets, so it is not modelled. */
  datatype TrendLine = TrendLine(slope: real, intercept: real, points: seq<Point>)

  /** `points` is ordered by strictly increasing bar index. */
  predicate IncreasingX(points: seq<Point>)
  {
    forall i, j :: 0 <= i < j < |points| ==> points[i].x < points[j].x
  }

  /** The slope of the segment from `a` to `b`. A vertical segment has no
      real slope (JavaScript yields an infinity or `NaN`); every caller keeps
      the two x values apart, and the value `0` merely makes the function
      total. */
  function Slope(a: Point, b: Point): real
  {
    if a.x == b.x then 0.0 else (b.y - a.y) / (b.x - a.x) as real
  }

  /** `(x, y)` lies on the line `y = slope * x + intercept`. */
  predicate OnLine(slope: real, intercept: real, x: int, y: real)
  {
    y == slope * x as real + intercept
  }
}
