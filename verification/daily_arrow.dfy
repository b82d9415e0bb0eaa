/** The ingestion fold of `parseAndSaveToDailyArrow.ts`: tick lines
    `timestamp;last;bid;ask;volume` are read in order and cut into runs of
    consecutive lines of the same calendar day, and each run is handed to
    `saveDailyBatchToArrow`, which writes it to
    `data/<year>/<month>/tickdata_<year>-<month>-<day>.arrow`. The fold
    yields the list of those calls. */
module DailyArrow {
  import opened Wrappers
  import opened Seqs
  import opened Strings
  import Dates
  import DataLoader
  import Timestamp

  /** A parsed line: its trimmed fields, `None` where the line has no such
      field. The numeric fields are kept as the text handed to `parseFloat`
      and `parseInt`; `Volume` is the conversion of the volume. */
  datatype Row = Row(timestamp: string, lastPrice: Option<string>, bidPrice: Option<string>,
                     askPrice: Option<string>, volume: Option<string>)

  /** One call `saveDailyBatchToArrow(year, month, day, batch)`. */
  datatype Save = Save(year: string, month: string, day: string, rows: seq<Row>)

  /** The `k`-th field, trimmed, if the line has one. */
  function Field(pieces: seq<string>, k: nat): Option<string>
  {
    if k < |pieces| then Some(Trim(pieces[k])) else None
  }

  /** `line.split(';').map(item => item.trim())`, destructured. */
  function ParseLine(line: string): Row
  {
    var pieces := Split(line, ';');
    Row(Trim(pieces[0]), Field(pieces, 1), Field(pieces, 2), Field(pieces, 3), Field(pieces, 4))
  }

  /** `parseInt(volume, 10)`; `None` stands for `NaN`, which is also what a
      missing field gives. */
  function Volume(r: Row): Option<int>
  {
    if r.volume.Some? then ParseInt(r.volume.value) else None
  }

  function ParseLines(lines: seq<string>): (rows: seq<Row>)
    ensures |rows| == |lines| && forall i :: 0 <= i < |lines| ==> rows[i] == ParseLine(lines[i])
  {
    seq(|lines|, i requires 0 <= i < |lines| => ParseLine(lines[i]))
  }

  /** The day a timestamp belongs to: `YYYY-MM-DD` from its first eight
      characters. */
  function DayLabel(ts: string): string
  {
    Slice(ts, 0, 4) + "-" + Slice(ts, 4, 6) + "-" + Slice(ts, 6, 8)
  }

  /** A label always splits into at least three pieces on `-`. */
  lemma DayLabelPieces(ts: string)
    ensures |Split(DayLabel(ts), '-')| >= 3
  {
    var y, m, d := Slice(ts, 0, 4), Slice(ts, 4, 6), Slice(ts, 6, 8);
    assert DayLabel(ts) == y + ['-'] + (m + ['-'] + d);
    SplitCount(y, '-', m + ['-'] + d);
    SplitCount(m, '-', d);
  }

  /** The `k`-th piece of a split, `undefined` (here "") past the end. */
  function Piece(pieces: seq<string>, k: nat): string
  {
    if k < |pieces| then pieces[k] else ""
  }

  /** The call that saves `rows` under `day`:
      `const [year, month] = day.split('-')`. A day label always has the
      pieces (`DayLabelPieces`), so the fallback is never taken. */
  function Flush(day: string, rows: seq<Row>): Save
  {
    Save(Piece(Split(day, '-'), 0), Piece(Split(day, '-'), 1), day, rows)
  }

  /** `path.join(path.join(root, 'data', year, month), "tickdata_<day>.arrow")`. */
  function SavePath(root: string, s: Save): string
  {
    root + "/" + "data" + "/" + s.year + "/" + s.month + "/" + "tickdata_" + s.day + ".arrow"
  }

  /** The rows of the saves, in order. */
  function RowsOf(saves: seq<Save>): seq<Row>
  {
    if |saves| == 0 then [] else RowsOf(saves[..|saves| - 1]) + Last(saves).rows
  }

  lemma RowsOfSnoc(saves: seq<Save>, s: Save)
    ensures RowsOf(saves + [s]) == RowsOf(saves) + s.rows
  {
    assert (saves + [s])[..|saves|] == saves;
  }

  lemma ParseLinesSnoc(lines: seq<string>, i: nat)
    requires i < |lines|
    ensures ParseLines(lines[..i + 1]) == ParseLines(lines[..i]) + [ParseLine(lines[i])]
  {
    assert lines[..i + 1] == lines[..i] + [lines[i]];
  }

  /** Every row of a save belongs to the save's day. */
  predicate Labelled(s: Save)
  {
    forall j :: 0 <= j < |s.rows| ==> DayLabel(s.rows[j].timestamp) == s.day
  }

  /** The state of the fold: the saves issued so far, the rows of the day
      being collected and that day's label (`""` before the first line). */
  datatype Fold = Fold(saves: seq<Save>, batch: seq<Row>, current: string)

  /** One line of the fold: a row of another day flushes the batch and
      starts a new one; the very first row sets the label. */
  function Step(f: Fold, row: Row): Fold
  {
    var dayLabel := DayLabel(row.timestamp);
    if f.current != dayLabel && |f.batch| > 0 then
      Fold(f.saves + [Flush(f.current, f.batch)], [row], dayLabel)
    else if f.current == "" then
      Fold(f.saves, f.batch + [row], dayLabel)
    else
      Fold(f.saves, f.batch + [row], f.current)
  }

  /** The fold over a sequence of rows, from the empty state. */
  function Run(rows: seq<Row>): Fold
  {
    if |rows| == 0 then Fold([], [], "") else Step(Run(rows[..|rows| - 1]), Last(rows))
  }

  /** The flush after the last line. */
  function Finish(f: Fold): seq<Save>
  {
    if |f.batch| > 0 then f.saves + [Flush(f.current, f.batch)] else f.saves
  }

  /** The saves issued for the rows of a file. */
  function Batches(rows: seq<Row>): seq<Save>
  {
    Finish(Run(rows))
  }

  /** Saves that partition their rows into non-empty single-day runs,
      consecutive runs being of different days. */
  predicate DayRuns(saves: seq<Save>)
  {
    && (forall k :: 0 <= k < |saves| ==>
         && |saves[k].rows| > 0 && Labelled(saves[k])
         && saves[k] == Flush(saves[k].day, saves[k].rows))
    && (forall k :: 0 < k < |saves| ==> saves[k - 1].day != saves[k].day)
  }

  /** What the fold keeps true after reading `rows`. */
  predicate Good(f: Fold, rows: seq<Row>)
  {
    && RowsOf(f.saves) + f.batch == rows
    && (|rows| == 0 <==> f.batch == [])
    && (|rows| == 0 ==> f.current == "" && f.saves == [])
    && (forall j :: 0 <= j < |f.batch| ==> DayLabel(f.batch[j].timestamp) == f.current)
    && DayRuns(f.saves)
    && (f.saves != [] && f.batch != [] ==> Last(f.saves).day != f.current)
  }

  lemma DayLabelNonEmpty(ts: string)
    ensures DayLabel(ts) != ""
  {
    assert |DayLabel(ts)| >= 2;
  }

  /** Flushing a batch of one day keeps the saves single-day runs. */
  lemma FlushKeepsRuns(saves: seq<Save>, day: string, batch: seq<Row>)
    requires DayRuns(saves) && |batch| > 0
    requires forall j :: 0 <= j < |batch| ==> DayLabel(batch[j].timestamp) == day
    requires saves != [] ==> Last(saves).day != day
    ensures DayRuns(saves + [Flush(day, batch)])
  {
    var s := saves + [Flush(day, batch)];
    assert forall k :: 0 <= k < |saves| ==> s[k] == saves[k];
  }

  /** A row of another day flushes the batch and starts a new one. */
  lemma FlushStepGood(f: Fold, rows: seq<Row>, row: Row, day: string)
    requires Good(f, rows) && |f.batch| > 0 && f.current != day && DayLabel(row.timestamp) == day
    ensures Good(Fold(f.saves + [Flush(f.current, f.batch)], [row], day), rows + [row])
  {
    FlushKeepsRuns(f.saves, f.current, f.batch);
    RowsOfSnoc(f.saves, Flush(f.current, f.batch));
  }

  /** A row of the batch's day, or the first row, joins the batch. */
  lemma PushStepGood(f: Fold, rows: seq<Row>, row: Row, day: string)
    requires Good(f, rows) && (f.batch == [] || f.current == day) && DayLabel(row.timestamp) == day
    ensures Good(Fold(f.saves, f.batch + [row], day), rows + [row])
  {
    AppendAssoc(RowsOf(f.saves), f.batch, [row]);
  }

  lemma StepGood(f: Fold, rows: seq<Row>, row: Row)
    requires Good(f, rows)
    ensures Good(Step(f, row), rows + [row])
  {
    var day := DayLabel(row.timestamp);
    if f.current != day && |f.batch| > 0 {
      FlushStepGood(f, rows, row, day);
    } else {
      if f.batch != [] {
        DayLabelNonEmpty(f.batch[0].timestamp);
      }
      PushStepGood(f, rows, row, day);
    }
  }

  lemma RunSnoc(rows: seq<Row>, row: Row)
    ensures Run(rows + [row]) == Step(Run(rows), row)
  {
    assert (rows + [row])[..|rows|] == rows;
  }

  lemma {:induction false} RunGood(rows: seq<Row>)
    ensures Good(Run(rows), rows)
  {
    if |rows| > 0 {
      var init, last := rows[..|rows| - 1], rows[|rows| - 1];
      assert rows == init + [last];
      RunGood(init);
      StepGood(Run(init), init, last);
      RunSnoc(init, last);
    }
  }

  /** The saves hold every row exactly once and in order, cut into
      non-empty runs of a single day each, named after that day, with
      consecutive runs of different days; there are none exactly when there
      are no rows. */
  lemma BatchesCharacterised(rows: seq<Row>)
    ensures |rows| == 0 <==> Batches(rows) == []
    ensures RowsOf(Batches(rows)) == rows
    ensures DayRuns(Batches(rows))
  {
    var f := Run(rows);
    RunGood(rows);
    if |f.batch| > 0 {
      FlushKeepsRuns(f.saves, f.current, f.batch);
      RowsOfSnoc(f.saves, Flush(f.current, f.batch));
    }
  }

  /** Only neighbouring saves differ in day: a day that comes back later in
      the file is saved again, to the same file as its first run, which the
      second write replaces. */
  lemma SameDaySamePath(root: string, rows: seq<Row>, i: nat, j: nat)
    requires i < |Batches(rows)| && j < |Batches(rows)|
    requires Batches(rows)[i].day == Batches(rows)[j].day
    ensures SavePath(root, Batches(rows)[i]) == SavePath(root, Batches(rows)[j])
  {
    BatchesCharacterised(rows);
  }

  /** The body of the loop, on the three mutable variables of the source.
      With the batch all of the current day (and no day set while it is
      empty), the row is added after every row read so far, the batch ends
      up all of the row's day, and a save is issued, of the old batch under
      the old day, exactly when the row starts another day. */
  method Consume(saves: seq<Save>, batch: seq<Row>, current: string, row: Row)
    returns (saves': seq<Save>, batch': seq<Row>, current': string)
    requires forall j :: 0 <= j < |batch| ==> DayLabel(batch[j].timestamp) == current
    requires batch == [] ==> current == ""
    ensures RowsOf(saves') + batch' == RowsOf(saves) + batch + [row]
    ensures current' == DayLabel(row.timestamp)
    ensures forall j :: 0 <= j < |batch'| ==> DayLabel(batch'[j].timestamp) == current'
    ensures saves' != saves <==> |batch| > 0 && current != DayLabel(row.timestamp)
    ensures saves' != saves ==> saves' == saves + [Flush(current, batch)] && batch' == [row]
    ensures Fold(saves', batch', current') == Step(Fold(saves, batch, current), row)
  {
    saves', batch', current' := saves, batch, current;
    var dayLabel := DayLabel(row.timestamp);
    if current' != dayLabel && |batch'| > 0 {
      saves' := saves' + [Flush(current', batch')];
      RowsOfSnoc(saves, Flush(current, batch));
      batch' := [];
      current' := dayLabel;
    } else if current' == "" {
      current' := dayLabel;
    }
    batch' := batch' + [row];
  }

  /** The loop over the lines and the flush after it. */
  method DayBatches(lines: seq<string>) returns (saves: seq<Save>)
    ensures saves == Batches(ParseLines(lines))
    ensures |lines| == 0 <==> saves == []
    ensures RowsOf(saves) == ParseLines(lines)
    ensures DayRuns(saves)
  {
    saves := [];
    var batch: seq<Row> := [];
    var current := "";
    var i := 0;
    while i < |lines|
      invariant 0 <= i <= |lines|
      invariant Fold(saves, batch, current) == Run(ParseLines(lines[..i]))
    {
      var row := ParseLine(lines[i]);
      ParseLinesSnoc(lines, i);
      RunSnoc(ParseLines(lines[..i]), row);
      RunGood(ParseLines(lines[..i]));
      saves, batch, current := Consume(saves, batch, current, row);
      i := i + 1;
    }
    assert lines[..i] == lines;
    if |batch| > 0 {
      saves := saves + [Flush(current, batch)];
    }
    BatchesCharacterised(ParseLines(lines));
  }

  /** For a timestamp that starts with eight digits, the save is named
      `YYYY-MM-DD` and filed under year `YYYY` and month `MM`. */
  lemma FlushOfDigits(ts: string, rows: seq<Row>)
    requires |ts| >= 8 && IsDigits(ts[0..8])
    ensures Flush(DayLabel(ts), rows)
         == Save(ts[0..4], ts[4..6], ts[0..4] + "-" + ts[4..6] + "-" + ts[6..8], rows)
  {
    var y, m, d := ts[0..4], ts[4..6], ts[6..8];
    assert forall k :: 0 <= k < 4 ==> y[k] == ts[0..8][k];
    assert forall k :: 0 <= k < 2 ==> m[k] == ts[0..8][k + 4];
    assert '-' !in y && '-' !in m;
    assert DayLabel(ts) == y + ['-'] + (m + ['-'] + d);
    SplitAfter(y, '-', m + ['-'] + d);
    SplitAfter(m, '-', d);
  }

  /** Eight characters that are a four-, a two- and a two-digit field. */
  lemma EightDigits(ts: string, y: string, m: string, dd: string)
    requires |y| == 4 && |m| == 2 && |dd| == 2 && IsDigits(y) && IsDigits(m) && IsDigits(dd)
    requires |ts| >= 8 && ts[0..8] == y + m + dd
    ensures IsDigits(ts[0..8]) && ts[0..4] == y && ts[4..6] == m && ts[6..8] == dd
  {
    assert ts[0..4] == ts[0..8][0..4] && ts[4..6] == ts[0..8][4..6] && ts[6..8] == ts[0..8][6..8];
  }

  /** The save path, spelled as the date path of the loader. */
  lemma SavePathSpelled(root: string, y: string, m: string, dd: string, rows: seq<Row>)
    ensures SavePath(root, Save(y, m, y + "-" + m + "-" + dd, rows))
         == (root + "/data") + "/" + y + "/" + m + "/" + "tickdata_" + y + "-" + m + "-" + dd + ".arrow"
  {
  }

  /** A tick of day `d` is saved exactly where the loader looks for day `d`:
      the save path under `root` is the date path under `root/data`, for
      years written with four digits. */
  lemma SavedWhereLoaded(root: string, d: int, ts: string, rows: seq<Row>)
    requires 1000 <= Dates.CivilOf(d).year <= 9999
    requires |ts| >= 8
    requires ts[0..8] == DataLoader.YearField(d) + DataLoader.MonthField(d) + DataLoader.DayField(d)
    ensures SavePath(root, Flush(DayLabel(ts), rows)) == DataLoader.DatePath(root + "/data", d)
  {
    var y, m, dd := DataLoader.YearField(d), DataLoader.MonthField(d), DataLoader.DayField(d);
    DataLoader.MonthFieldReadsBack(d);
    DataLoader.DayFieldReadsBack(d);
    DataLoader.YearFieldReadsBack(d);
    assert |y| == 4;
    EightDigits(ts, y, m, dd);
    FlushOfDigits(ts, rows);
    SavePathSpelled(root, y, m, dd, rows);
  }

  lemma PrefixOfAppend(a: string, b: string, n: nat)
    requires n <= |a|
    ensures |a + b| >= n && (a + b)[0..n] == a[0..n]
  {
  }

  lemma DateSlices(ts: string)
    requires |ts| >= 8
    ensures ts[0..8] == ts[0..4] + ts[4..6] + ts[6..8]
  {
  }

  /** The date part the tick writer produces for day `d` is the year, month
      and day fields of the loader. */
  lemma WrittenDate(d: int, f: Timestamp.Fields)
    requires 1000 <= Dates.CivilOf(d).year <= 9999
    requires f.year == Dates.CivilOf(d).year && f.month == Dates.CivilOf(d).month - 1
    requires f.day == Dates.CivilOf(d).day && Timestamp.Representable(f)
    ensures Timestamp.FormatTimestamp(f)[0..8]
         == DataLoader.YearField(d) + DataLoader.MonthField(d) + DataLoader.DayField(d)
  {
    DateSlices(Timestamp.FormatTimestamp(f));
    assert Timestamp.Pad(f.year, 4) == DataLoader.YearField(d) by {
      assert |NatToString(f.year)| == 4;
    }
    assert Timestamp.Pad(f.month + 1, 2) == DataLoader.MonthField(d);
    assert Timestamp.Pad(f.day, 2) == DataLoader.DayField(d);
  }

  /** The timestamp the tick writer produces for a time on day `d`, with
      any fraction after it, is filed under the path the loader reads for
      `d`. */
  lemma WrittenTickSavedWhereLoaded(root: string, d: int, hour: nat, minute: nat, second: nat,
                                    fraction: string, rows: seq<Row>)
    requires 1000 <= Dates.CivilOf(d).year <= 9999 && hour < 100 && minute < 100 && second < 100
    ensures var f := Timestamp.Fields(Dates.CivilOf(d).year, Dates.CivilOf(d).month - 1, Dates.CivilOf(d).day,
                                      hour, minute, second);
      && Timestamp.Representable(f)
      && SavePath(root, Flush(DayLabel(Timestamp.FormatTimestamp(f) + fraction), rows))
         == DataLoader.DatePath(root + "/data", d)
  {
    var c := Dates.CivilOf(d);
    var f := Timestamp.Fields(c.year, c.month - 1, c.day, hour, minute, second);
    WrittenDate(d, f);
    PrefixOfAppend(Timestamp.FormatTimestamp(f), fraction, 8);
    SavedWhereLoaded(root, d, Timestamp.FormatTimestamp(f) + fraction, rows);
  }

  /** A line written from five clean fields reads back as those fields. */
  lemma ParseLineRoundTrip(ts: string, last: string, bid: string, ask: string, volume: string)
    requires Clean(ts) && Clean(last) && Clean(bid) && Clean(ask) && Clean(volume)
    ensures ParseLine(Join([ts, last, bid, ask, volume], ';'))
         == Row(ts, Some(last), Some(bid), Some(ask), Some(volume))
  {
    SplitJoin([ts, last, bid, ask, volume], ';');
    TrimClean(ts);
    TrimClean(last);
    TrimClean(bid);
    TrimClean(ask);
    TrimClean(volume);
  }

  /** A field with no `;` and no white space at either end. */
  predicate Clean(s: string)
  {
    ';' !in s && (|s| == 0 || (!IsSpace(s[0]) && !IsSpace(s[|s| - 1])))
  }

  lemma TrimClean(s: string)
    requires Clean(s)
    ensures Trim(s) == s
  {
  }
}
