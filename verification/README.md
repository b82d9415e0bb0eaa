# vanquish-analytics core, modelled in Dafny

vanquish-analytics turns raw market ticks into candlestick bars and draws
"three-touch" trend lines over them. This project models its computational
core and proves properties of the model:

- the trend engine (`calculateThreePointTrendLines.ts`): turning points
  over a symmetric window of bars, trends grown by a slope-tolerance state
  machine with a minimum-touch rule, and one line per trend, drawn on to the
  next trend or the last bar (modules `TurningPoints`, `ValidTrends`,
  `TrendLines`);
- OHLC aggregation of ticks in fixed-size chunks (`Aggregate`);
- fixed-position decoding of `YYYYMMDD HHMMSS fffffff` timestamps (`Timestamp`);
- inclusive day ranges (`Dates`), with dates as day numbers since
  1970-01-01 and a proved civil-calendar conversion;
- the ranged loader (`DataLoader`): the batched row walk, the row
  collection of one Arrow file, and the per-day path building, existence
  filter and concatenation over a file system given as a map;
- the per-day cache of the date-range hook (`SelectDates`): missing days,
  one fetch per missing day, the cache update, the reassembly in day order,
  `clearCache` and the empty-date guard;
- the ingestion fold (`DailyArrow`) that cuts a tick file into runs of one
  calendar day and names the file each run is saved to;
- the live chart's trend-line updater (`SimulatedChart`), which extends
  the lines shown so far and appends the new lines that start elsewhere.

Shared pieces: `Wrappers` (`Option`, `Result`), `Types` (ticks, bars,
points, trends, lines), `Seqs` (filter, flatten, non-null values) and
`Strings` (digits, padding, trimming, splitting, `parseInt`).

Prices and y values are `real`; indices, volumes and x values are `int`.
The file system, the server and the Arrow tables are parameters: a map from
path to table, and a function from a day to the rows the server returns.

Behaviours of the code that are easy to miss, kept as written:

- a bar that is both a strict high and a strict low of its window gives
  one turning point, a high at its high price;
- a flushed trailing trend whose slope was never set (or is zero) is
  "down";
- a line is drawn on with no check against the bars' price range, up to
  the bar before the next trend's first x or the last bar;
- `parseCustomTimestamp` reads only the first fifteen characters, apart
  from the separator at position 8: the fraction and anything after it
  are ignored;
- strings are read as sequences of Unicode characters, and white space is
  JavaScript's set for `trim` and `parseInt` (a byte-order mark included);
- after a break the new candidate is `[last point, breaking point]` with
  its slope cleared, so the point after the break always joins and fixes
  the slope (for such candidates the slope is anchored at their third
  point, not their second);
- the chart state is declared as a list of trends but only ever holds
  lines, so it is modelled as a list of lines;
- the cache is keyed by day and updated only for the missing days; the
  loader's files are read whole, with no filtering of rows by timestamp.

## Model

| member | source | states |
|---|---|---|
| TurningPoints.FindSequentialTurningPoints | src/utils/calculateThreePointTrendLines.ts:4-35 | the scan over indices with a full window on both sides returns exactly the recursive description of the turning points |
| TurningPoints.TurningPointsCharacterised | src/utils/calculateThreePointTrendLines.ts:10-31 | turning points have strictly increasing x, each lies in `[w, n - w)`, is a strict high or low of its window and is recorded as a high when it is both; every such bar appears |
| TurningPoints.FlatSeriesHasNoTurningPoints | src/utils/calculateThreePointTrendLines.ts:15-22 | with a window of at least one bar, a series of equal highs and equal lows has no turning point |
| TurningPoints.FlatBarIsNotTurning | src/utils/calculateThreePointTrendLines.ts:15-22 | in a flat series no single bar is a strict high or low |
| ValidTrends.FindValidTrends | src/utils/calculateThreePointTrendLines.ts:43 | fewer than two turning points give no trend |
| ValidTrends.WalkBySegments | src/utils/calculateThreePointTrendLines.ts:45-97 | the loop, its closing flush and the minimum-touch filter produce exactly the long maximal segments: each candidate grows until the first point whose slope from its start deviates from the anchor slope by more than the tolerance, and the next starts at its last point |
| ValidTrends.FindValidTrendsBySegments | src/utils/calculateThreePointTrendLines.ts:38-98 | `findValidTrends` is the segment description instantiated with the two-point slope |
| ValidTrends.ValidTrendsAreLongCandidates | src/utils/calculateThreePointTrendLines.ts:73-78 | a trend is returned if and only if it is a candidate segment with at least `minTouches` points |
| ValidTrends.ValidTrendsFit | src/utils/calculateThreePointTrendLines.ts:58-95 | every returned trend has at least `minTouches` and two points, is a contiguous run of the turning points, keeps every point after its anchor within the tolerance of the anchor slope, and is "up" exactly when that slope is set and positive |
| ValidTrends.SegmentIsSegment | src/utils/calculateThreePointTrendLines.ts:69-86 | each segment fits its anchor slope and, when a point closed it, that point deviates by more than the tolerance |
| ValidTrends.CandidatesCover | src/utils/calculateThreePointTrendLines.ts:80-81 | stitched at their shared end points, the candidates are the turning points from the start on: no point is lost |
| ValidTrends.CandidatesChain | src/utils/calculateThreePointTrendLines.ts:69-86 | consecutive candidates share a point and the second point of each closed the one before |
| ValidTrends.KeepLongMembers | src/utils/calculateThreePointTrendLines.ts:90-95 | the kept trends are exactly those with at least `minTouches` points |
| TrendLines.CalculateTrendLine | src/utils/calculateThreePointTrendLines.ts:101-131 | the bar-by-bar extension loop computes the closed-form line `FittedLine` |
| TrendLines.FittedLineCharacterised | src/utils/calculateThreePointTrendLines.ts:112-130 | no line exactly for a vertical pair; otherwise the line through both points, starting at the first, ending on the line at or after the second, before the data's end and the next trend's start, and as far as they allow |
| TrendLines.LineThroughBoth | src/utils/calculateThreePointTrendLines.ts:114-115 | slope and intercept put both defining points on the line |
| TrendLines.CalculateThreePointTrendLines | src/utils/calculateThreePointTrendLines.ts:134-152 | definition: turning points, then `findValidTrends` with three touches, then one fitted line per trend of at least three points towards the next trend's first x; its contract is `ThreePointLines`, `TrendsAreLong`, `TrendsInData` and `LinesWithinData` |
| TrendLines.ThreePointLines | src/utils/calculateThreePointTrendLines.ts:134-152 | the pipeline draws one line per valid trend, in order, fitted through the trend's first and last touch and drawn towards the next trend's first x |
| TrendLines.TrendsAreLong | src/utils/calculateThreePointTrendLines.ts:136-139 | every trend of the pipeline has at least three points with increasing x, so neither filter drops anything |
| TrendLines.TrendsInData | src/utils/calculateThreePointTrendLines.ts:134-136 | every trend point is a bar index of the data |
| TrendLines.LinesWithinData | src/utils/calculateThreePointTrendLines.ts:138-151 | every line is a forward segment with both ends on the line and its end within the data (at or before the last bar) |
| Aggregate.ChunkBar | src/utils/aggregateTicksToOHLC.ts:12-22 | a bar opens at the chunk's first last price, closes at its last, takes the first tick's timestamp and the chunk's volume sum, and has `low <= open, close <= high` |
| Aggregate.ChunkBarExtremes | src/utils/aggregateTicksToOHLC.ts:15-16 | high and low bound every last price of the chunk and are attained by some tick |
| Aggregate.Chunks | src/utils/aggregateTicksToOHLC.ts:8-10 | chunks are non-empty, at most `chunkSize` long, all but the last exactly that long |
| Aggregate.ChunksPartition | src/utils/aggregateTicksToOHLC.ts:8-9 | the chunks concatenate back to the ticks |
| Aggregate.AggregateTicksToOHLC | src/utils/aggregateTicksToOHLC.ts:5-26 | no ticks exactly when no bars; every bar is well formed |
| Aggregate.BarCount | src/utils/aggregateTicksToOHLC.ts:8 | the bar count is the ceiling of the tick count over the chunk size |
| Aggregate.BarCoversChunk | src/utils/aggregateTicksToOHLC.ts:8-22 | bar `k` is the bar of ticks `[k * c, min((k + 1) * c, n))` |
| Aggregate.VolumeConserved | src/utils/aggregateTicksToOHLC.ts:20 | the bars' total volume is the ticks' total volume |
| Aggregate.AggregateAppend | src/utils/aggregateTicksToOHLC.ts:8-9 | when the first part is a whole number of chunks, aggregating a concatenation concatenates the bars |
| Timestamp.ParseCustomTimestamp | src/utils/parseCustomTimestamp.ts:1-16 | six `parseInt`s of the fixed slices handed to the `Date` constructor, `None` when one of them is `NaN`; a timestamp cut off before its seconds is always `None` |
| Timestamp.ParseFieldSlices | src/utils/parseCustomTimestamp.ts:2-7 | on a well-formed timestamp the fields are the values of characters `[0,4)`, `[4,6)` minus one, `[6,8)`, `[9,11)`, `[11,13)` and `[13,15)` |
| Timestamp.ParseIgnoresSeparatorAndFraction | src/utils/parseCustomTimestamp.ts:2-13 | the character at position 8 and everything from position 15 on do not affect the result |
| Timestamp.SameSlicesSameFields | src/utils/parseCustomTimestamp.ts:2-7 | two timestamps that agree on the six field slices decode to the same fields, numbers or not |
| Timestamp.ParseFormatRoundTrip | src/utils/parseCustomTimestamp.ts:1-16 | decoding a written timestamp, with any fraction after it, gives back its fields |
| Dates.CivilOf | src/utils/dataLoader.ts:74-76 | every day number has a valid calendar date that maps back to it |
| Dates.CivilOfDayNumber | src/utils/dataLoader.ts:74-76 | the calendar date of a valid date's day number is that date |
| Dates.GenerateDateArray | src/utils/generateDateArray.ts:8-18 | the loop yields nothing when start is after end, else starts at start, ends at end and steps by one day |
| Dates.DateRange | src/utils/generateDateArray.ts:13-15 | the range has `end - start + 1` days (none when start > end), the i-th being `start + i` |
| Dates.DateRangeCharacterised | src/utils/generateDateArray.ts:13-15 | a day is in the range exactly when it lies between start and end, and the range is strictly ascending |
| Dates.DateRangeSplit | src/utils/generateDateArray.ts:13-15 | a range splits at any day into two adjacent ranges |
| DataLoader.ProcessInChunks | src/utils/dataLoader.ts:7-24 | every index below `totalRows` is processed once, in order, in batches drained at `chunkSize` and at the last index; a non-positive chunk size drains once at the end |
| DataLoader.ProcessArrowFile | src/utils/dataLoader.ts:32-55 | a missing file gives no rows; otherwise the non-null rows in table order |
| DataLoader.MonthFieldReadsBack | src/utils/dataLoader.ts:75 | the month field is two digits that read back as the date's month |
| DataLoader.DayFieldReadsBack | src/utils/dataLoader.ts:76 | the day field is two digits that read back as the date's day |
| DataLoader.YearFieldReadsBack | src/utils/dataLoader.ts:74 | the year field reads back as the date's year |
| DataLoader.DatePath | src/utils/dataLoader.ts:73-83 | definition: `<folder>/<year>/<month>/tickdata_<year>-<month>-<day>.arrow`, fields from `YearField`, `MonthField`, `DayField`; its contract is in the three `ReadsBack` lemmas and `SavedWhereLoaded` |
| DataLoader.LoadDataByDateRange | src/utils/dataLoader.ts:65-99 | definition: the day paths of the range, kept when they exist, read and concatenated in day order; its contract is `LoadByDays`, `LoadSplit`, `LoadEdges`, `LoadedRows`, `LoadedRowSource` and `DayRowLoaded` |
| DataLoader.ReadExisting | src/utils/dataLoader.ts:85-93 | filtering on existence loses no rows |
| DataLoader.LoadByDays | src/utils/dataLoader.ts:65-99 | the loaded rows are the rows of each day's file, concatenated in day order |
| DataLoader.LoadSplit | src/utils/dataLoader.ts:70-93 | loading a range is loading its two halves one after the other |
| DataLoader.LoadEdges | src/utils/dataLoader.ts:70-93 | an empty range loads nothing; a one-day range loads that day's file |
| DataLoader.LoadedRows | src/utils/dataLoader.ts:73-93 | a row is loaded exactly when some day of the range has a file holding it |
| DataLoader.LoadedRowSource | src/utils/dataLoader.ts:73-93 | a loaded row comes from the file of a day in the range |
| DataLoader.DayRowLoaded | src/utils/dataLoader.ts:73-93 | every row of every existing day file in the range is loaded |
| SelectDates.CheckDates | src/hooks/useSelectDates.ts:22-24 | a refusal carries the "select both dates" message |
| SelectDates.CheckDatesCharacterised | src/hooks/useSelectDates.ts:22-24 | the guard passes exactly when both date strings are non-empty |
| SelectDates.MissingDates | src/hooks/useSelectDates.ts:47-49 | the missing days are exactly the range's days without an entry, ascending |
| SelectDates.QueryFn | src/hooks/useSelectDates.ts:46-83 | definition: the missing days of the range; with none, the cached rows; otherwise one fetch per missing day, the upserted cache and the rows reassembled in day order; its contract is `QueryHit`, `QueryMissRequests`, `QueryMissCache`, `QueryMissRows` and `QueryRepeatHits` |
| SelectDates.QueryHit | src/hooks/useSelectDates.ts:51-54 | with every day cached there is no request, the cache is unchanged and the rows are the cached rows in day order |
| SelectDates.QueryMissRequests | src/hooks/useSelectDates.ts:57-68 | one request per missing day, in order, each for that single day |
| SelectDates.QueryMissCache | src/hooks/useSelectDates.ts:71-76 | afterwards the cache holds the old entries unchanged and each missing day mapped to what the server returned for it |
| SelectDates.QueryMissRows | src/hooks/useSelectDates.ts:79-82 | the rows are the updated cache's rows in day order |
| SelectDates.CombineIsCollect | src/hooks/useSelectDates.ts:79-82 | cached rows or else the fetched chunk, day by day, is the collection from the updated cache |
| SelectDates.Upsert | src/hooks/useSelectDates.ts:72-74 | the updated keys are the old ones plus the missing days, and untouched entries keep their rows |
| SelectDates.QueryRepeatHits | src/hooks/useSelectDates.ts:46-83 | a second query over the same range fetches nothing and returns the same rows |
| SelectDates.ClearCache | src/hooks/useSelectDates.ts:90-96 | the cleared cache's keys are the old keys minus the listed days, with entries unchanged |
| SelectDates.ClearCacheCharacterised | src/hooks/useSelectDates.ts:90-96 | the listed days are gone, every other entry stays, and clearing twice is clearing once |
| SelectDates.ClearedDaysRefetched | src/hooks/useSelectDates.ts:49-65 | a cleared day of the range is requested again by the next query |
| DailyArrow.ParseLine | src/parsers/parseAndSaveToDailyArrow.ts:42-44 | definition: the line split on `;`, each piece trimmed, destructured into five fields (absent ones `None`); its contract is `ParseLineRoundTrip` and `TrimByteOrderMark` |
| DailyArrow.ParseLineRoundTrip | src/parsers/parseAndSaveToDailyArrow.ts:42-44 | a line joined from five untrimmable, separator-free fields splits back into those fields |
| Strings.TrimByteOrderMark | src/parsers/parseAndSaveToDailyArrow.ts:42-44 | `trim` removes a leading byte-order mark, so a first field behind one reads as without it |
| DailyArrow.DayLabelPieces | src/parsers/parseAndSaveToDailyArrow.ts:47-54 | a day label always splits on `-` into at least the year and month pieces the flush reads |
| DailyArrow.DayBatches | src/parsers/parseAndSaveToDailyArrow.ts:40-74 | the loop issues no save for an empty file; the saved runs concatenate to the parsed rows in order, each run is non-empty and of one day, and consecutive runs are of different days |
| DailyArrow.Consume | src/parsers/parseAndSaveToDailyArrow.ts:47-67 | with the batch all of the current day (and no day before the first row), the row lands after every row read so far, the batch stays of one day, now the row's, and a save of the old batch under the old day is issued exactly when the row starts another day |
| DailyArrow.Step | src/parsers/parseAndSaveToDailyArrow.ts:46-67 | definition: a row of another day than a non-empty batch flushes the batch and starts a new one; the first row sets the day; the row is always appended; its contract is `Consume` and `RunGood` |
| DailyArrow.Batches | src/parsers/parseAndSaveToDailyArrow.ts:40-74 | definition: the fold over the file's rows and the flush of the last batch; its contract is `BatchesCharacterised` and `DayBatches` |
| DailyArrow.BatchesCharacterised | src/parsers/parseAndSaveToDailyArrow.ts:53-74 | the fold's saves lose and duplicate no row, are single-day runs named after their day, and differ in day from their neighbours |
| DailyArrow.RunGood | src/parsers/parseAndSaveToDailyArrow.ts:40-68 | the loop invariant: saved rows plus the open batch are the rows read, the batch is of the current day, and saved runs alternate days |
| DailyArrow.SameDaySamePath | src/parsers/parseAndSaveToDailyArrow.ts:84-98 | two saves of the same day, even far apart in the file, go to the same output path, so the later write replaces the earlier run |
| DailyArrow.FlushOfDigits | src/parsers/parseAndSaveToDailyArrow.ts:47-55 | for a timestamp starting with eight digits the save gets year `[0,4)`, month `[4,6)` and label `YYYY-MM-DD` |
| DailyArrow.SavePath | src/parsers/parseAndSaveToDailyArrow.ts:84-88 | definition: `<root>/data/<year>/<month>/tickdata_<day>.arrow`; its contract is `SavePathSpelled` and `SavedWhereLoaded` |
| DailyArrow.SavePathSpelled | src/parsers/parseAndSaveToDailyArrow.ts:84-88 | the output file is `data/<year>/<month>/tickdata_<year>-<month>-<day>.arrow` |
| DailyArrow.SavedWhereLoaded | src/parsers/parseAndSaveToDailyArrow.ts:84-88 | for a four-digit year, a run of a day is written to the very path the loader reads for that day |
| DailyArrow.WrittenTickSavedWhereLoaded | src/parsers/parseAndSaveToDailyArrow.ts:47-55 | a tick written in the timestamp layout for a day is saved to the path the loader reads for that day |
| SimulatedChart.Extend | src/components/SimulatedChart.tsx:44-59 | definition: the end projected along the first-to-last slope to x = bar count - 1, first point, slope and intercept kept; its contract is `ExtendCharacterised`, `ExtendStaysFitted` and `ExtendIdempotent` |
| SimulatedChart.Merge | src/components/SimulatedChart.tsx:43-72 | definition: the extended shown lines followed by the new lines no shown line starts like; its contract is `MergeCharacterised` and `MergeMatchesFresh` |
| SimulatedChart.UpdateTrendLines | src/components/SimulatedChart.tsx:38-73 | definition: no change without bars, else the merge with the pipeline's lines over the bars; its contract is `UpdateKeepsStarts`, `UpdateKeepsShown` and `UpdateTwiceAddsNothing` |
| SimulatedChart.ExtendCharacterised | src/components/SimulatedChart.tsx:44-58 | an extended line keeps first point, slope and intercept, ends at x = n - 1, and that end lies on the line through its old first and last points |
| SimulatedChart.ExtendStaysFitted | src/components/SimulatedChart.tsx:45-50 | extending a drawn line keeps its end on the line and keeps it a forward segment when the new end is right of the start |
| SimulatedChart.ExtendIdempotent | src/components/SimulatedChart.tsx:44-58 | extending twice to the same bar count is extending once |
| SimulatedChart.MergeCharacterised | src/components/SimulatedChart.tsx:43-71 | shown lines are extended in place and in order; a new line is appended exactly when no shown line starts at its first point |
| SimulatedChart.MergeMatchesFresh | src/components/SimulatedChart.tsx:61-71 | after the merge every new line is matched by some merged line |
| SimulatedChart.UpdateTwiceAddsNothing | src/components/SimulatedChart.tsx:39-72 | applying the updater again with the same bars adds no line and leaves the extended lines as they are |
| SimulatedChart.UpdateKeepsStarts | src/components/SimulatedChart.tsx:38-73 | for any bar count, even one below the last: no bars change nothing; otherwise no shown line is lost, moved or restarted and each now ends at x = bar count - 1 |
| SimulatedChart.UpdateKeepsShown | src/components/SimulatedChart.tsx:39-72 | while the bars only grow (lines shown for at most as many bars as there are now): no bars leaves the lines as they are; otherwise every line stays a forward segment within the bars, and no shown line is lost, moved or restarted |

## Left out

- JavaScript `Date`: time zones, parsing of date strings by `new Date` and
  overflow normalisation are not modelled; dates are day numbers, and
  `parseCustomTimestamp` stops at its six integer fields (an invalid field
  yields `None` in place of an invalid `Date`).
- date-fns `format`: cache keys are day numbers, which stand for their
  `yyyy-MM-dd` strings one for one.
- IEEE-754: `NaN` and `Infinity`, rounding and the argument limit of
  `Math.max(...)`. Prices are `real`; the two-point slope is total and
  reads 0 for equal x, where the code divides by zero.
- SimulatedChart.Extend: a line whose ends share an x gets slope 0 and is
  drawn flat, where the code computes `NaN` (0/0) and an end at `NaN`. The
  pipeline never draws such a line, but the chart's restart empties the
  bars and keeps the lines (`SimulatedChart.tsx:80`,
  `useSimulateLiveData.ts:45-50`): a line from x = 10 shown when 11 bars
  are back is extended to end at x = 10, and at 12 bars its slope is 0/0.
- SimulatedChart.UpdateKeepsShown: assumes the bars only grow, the lines
  having been shown for at most as many bars as there are now; the restart
  breaks this. `UpdateKeepsStarts` holds without the assumption.
- UTF-16: strings are sequences of Unicode scalar values, so slice
  positions count characters, where JavaScript counts UTF-16 code units;
  they differ only past a character outside the Basic Multilingual Plane.
- `parseFloat` of the price fields: the ingestion rows keep the trimmed
  field text; `parseInt` of the volume is `DailyArrow.Volume`.
- Apache Arrow encoding and decoding (a file is a map from path to rows),
  the `Float64Array`/`Int32Array` column conversion on save, `fs` and
  `readline` streams, directory creation and writing, and `console` output.
- Concurrency: `Promise.all`, the awaits of `processInChunks` and the
  `p-limit` bound of three; the model is the sequential order of results.
- React Query (`retry`, `staleTime`, scheduling), the network fetch, its
  `response.ok` check and the route handlers; the server is a function,
  and a request carries only its days, not the `folderPath` the hook
  sends with every fetch (fixed for a given hook).
- `path.join` normalisation: paths are joined with `/` as given.
- Rendering, chart scaling, timers and the other hooks of the user
  interface.
- DataLoader.YearFieldReadsBack: the year is `toString()` of the year, so
  only four-digit years give the fixed `YYYY` layout;
  `DailyArrow.SavedWhereLoaded` requires a year from 1000 to 9999.
- Aggregate.AggregateTicksToOHLC: requires a positive chunk size; the loop
  does not terminate on non-empty input otherwise.
- ValidTrends.FindValidTrends: requires strictly increasing x, which every
  list of turning points has; the walk itself is proved for any slope
  measure.
- `calculateTrendLine`'s null-point check: points are never null in the
  model.
- SimulatedChart.UpdateTrendLines: requires every shown line to have a
  point when there are bars, since the updater reads its first and last
  points.
