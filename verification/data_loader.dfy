/** The ranged loader of `dataLoader.ts`: the batched row walk
    `processInChunks`, the row collection of `processArrowFile`, and
    `loadDataByDateRange`, which builds one path per day of the range, keeps
    the paths that exist and concatenates their rows. The file system is a
    map from path to the table stored there; a table row is `None` where the
    table yields `null`. */
module DataLoader {
  import opened Wrappers
  import opened Types
  import opened Seqs
  import opened Strings
  import opened Dates

  /** A decoded Arrow table: `table.get(i)` for each row index. */
  type Table = seq<Option<Tick>>

  /** The files that exist, with their contents. */
  type Files = map<string, Table>

  /** The row indices `0 .. n - 1`. */
  function Indices(n: nat): (r: seq<nat>)
    ensures |r| == n && forall i :: 0 <= i < n ==> r[i] == i
  {
    seq(n, (i: int) requires 0 <= i < n => i as nat)
  }

  /** `processInChunks(totalRows, chunkSize, processRow)`: each index is
      handed to `processRow` and added to the pending batch, which is
      awaited and emptied once it holds `chunkSize` entries or the last
      index has been added. The result lists the awaited batches in order. */
  method ProcessInChunks(totalRows: nat, chunkSize: int) returns (batches: seq<seq<nat>>)
    ensures Flatten(batches) == Indices(totalRows)
    ensures totalRows == 0 <==> batches == []
    ensures forall k :: 0 <= k < |batches| ==> |batches[k]| > 0
    ensures chunkSize > 0 ==> forall k :: 0 <= k < |batches| ==> |batches[k]| <= chunkSize
    ensures chunkSize > 0 ==> forall k :: 0 <= k < |batches| - 1 ==> |batches[k]| == chunkSize
    ensures chunkSize <= 0 ==> |batches| <= 1
  {
    batches := [];
    var pending: seq<nat> := [];
    var i := 0;
    while i < totalRows
      invariant 0 <= i <= totalRows
      invariant Flatten(batches) + pending == Indices(i)
      invariant i == totalRows ==> pending == []
      invariant chunkSize > 0 ==> |pending| < chunkSize
      invariant i == 0 <==> batches == [] && pending == []
      invariant forall k :: 0 <= k < |batches| ==> |batches[k]| > 0
      invariant chunkSize > 0 ==> forall k :: 0 <= k < |batches| ==> |batches[k]| <= chunkSize
      invariant chunkSize > 0 ==> forall k :: 0 <= k < |batches| && (i < totalRows || k < |batches| - 1) ==>
        |batches[k]| == chunkSize
      invariant chunkSize <= 0 ==> (i < totalRows ==> batches == []) && |batches| <= 1
    {
      pending := pending + [i];
      if |pending| == chunkSize || i == totalRows - 1 {
        FlattenAppend(batches, [pending]);
        FlattenSingle(pending);
        batches := batches + [pending];
        pending := [];
      }
      assert Indices(i + 1) == Indices(i) + [i];
      i := i + 1;
    }
  }

  /** `processArrowFile(filePath)`: nothing for a missing file; otherwise the
      rows visited by `processInChunks` in chunks of 10, `null` rows
      skipped. */
  method ProcessArrowFile(files: Files, path: string) returns (rows: seq<Tick>)
    ensures rows == ReadTable(files, path)
    ensures path !in files ==> rows == []
    ensures path in files ==> rows == Values(files[path])
  {
    if path !in files {
      return [];
    }
    var table := files[path];
    var batches := ProcessInChunks(|table|, 10);
    var order := Flatten(batches);
    rows := [];
    var j := 0;
    while j < |order|
      invariant 0 <= j <= |order| == |table|
      invariant rows == Values(table[..j])
    {
      var index := order[j];
      if table[index].Some? {
        rows := rows + [table[index].value];
      }
      assert table[..j + 1] == table[..j] + [table[j]];
      ValuesAppend(table[..j], [table[j]]);
      j := j + 1;
    }
    assert table[..j] == table;
  }

  /** The rows `processArrowFile` returns for `path`. */
  function ReadTable(files: Files, path: string): seq<Tick>
  {
    if path in files then Values(files[path]) else []
  }

  /** The rows of the files at `paths`, concatenated in order:
      `Promise.all(paths.map(processArrowFile))` followed by `flat()`. */
  function ReadAll(files: Files, paths: seq<string>): seq<Tick>
  {
    if |paths| == 0 then [] else ReadTable(files, paths[0]) + ReadAll(files, paths[1..])
  }

  /** `fs.existsSync` against the file map. */
  function Exists(files: Files): string -> bool
  {
    path => path in files
  }

  /** The calendar fields of a file name: `getFullYear().toString()`, and
      `getMonth() + 1` and `getDate()` padded to two digits with `"0"`. */
  function YearField(d: int): string
  {
    IntToString(CivilOf(d).year)
  }

  function MonthField(d: int): string
  {
    PadStart(NatToString(CivilOf(d).month), 2, '0')
  }

  function DayField(d: int): string
  {
    PadStart(NatToString(CivilOf(d).day), 2, '0')
  }

  /** `path.join(folder, year, month, "tickdata_<year>-<month>-<day>.arrow")`. */
  function DatePath(folder: string, d: int): string
  {
    folder + "/" + YearField(d) + "/" + MonthField(d) + "/"
      + "tickdata_" + YearField(d) + "-" + MonthField(d) + "-" + DayField(d) + ".arrow"
  }

  function DatePaths(folder: string, days: seq<int>): (paths: seq<string>)
    ensures |paths| == |days| && forall i :: 0 <= i < |days| ==> paths[i] == DatePath(folder, days[i])
  {
    seq(|days|, i requires 0 <= i < |days| => DatePath(folder, days[i]))
  }

  /** `loadDataByDateRange(folder, start, end)`: the paths of the days from
      `start` to `end`, those that exist, and their rows in date order. */
  function LoadDataByDateRange(files: Files, folder: string, start: int, end: int): seq<Tick>
  {
    var paths := DatePaths(folder, DateRange(start, end));
    ReadAll(files, Filter(paths, Exists(files)))
  }

  /** The month field is two digits that read back as the date's month. */
  lemma MonthFieldReadsBack(d: int)
    ensures |MonthField(d)| == 2 && IsDigits(MonthField(d)) && DigitsValue(MonthField(d)) == CivilOf(d).month
  {
    PadDigits(CivilOf(d).month, 2);
  }

  /** The day field is two digits that read back as the date's day. */
  lemma DayFieldReadsBack(d: int)
    ensures |DayField(d)| == 2 && IsDigits(DayField(d)) && DigitsValue(DayField(d)) == CivilOf(d).day
  {
    PadDigits(CivilOf(d).day, 2);
  }

  /** The year field is the year's digits, after a `-` for a year before 0. */
  lemma YearFieldReadsBack(d: int)
    ensures CivilOf(d).year >= 0 ==> IsDigits(YearField(d)) && DigitsValue(YearField(d)) == CivilOf(d).year
    ensures CivilOf(d).year < 0 ==> YearField(d)[0] == '-' && DigitsValue(YearField(d)[1..]) == -CivilOf(d).year
  {
  }

  lemma {:induction false} ReadAllAppend(files: Files, a: seq<string>, b: seq<string>)
    ensures ReadAll(files, a + b) == ReadAll(files, a) + ReadAll(files, b)
  {
    if |a| == 0 {
      assert a + b == b;
    } else {
      assert (a + b)[1..] == a[1..] + b;
      ReadAllAppend(files, a[1..], b);
    }
  }

  /** Skipping the paths that do not exist loses no rows: a missing file
      contributes nothing anyway. */
  lemma {:induction false} ReadExisting(files: Files, paths: seq<string>)
    ensures ReadAll(files, Filter(paths, Exists(files))) == ReadAll(files, paths)
  {
    if |paths| > 0 {
      var tail := paths[1..];
      var kept := Filter(tail, Exists(files));
      ReadExisting(files, tail);
      assert ReadAll(files, paths) == ReadTable(files, paths[0]) + ReadAll(files, tail);
      if paths[0] in files {
        assert Filter(paths, Exists(files)) == [paths[0]] + kept;
        assert ([paths[0]] + kept)[1..] == kept;
      } else {
        assert Filter(paths, Exists(files)) == kept;
      }
    }
  }

  /** A row is loaded exactly when some listed file exists and holds it. */
  lemma {:induction false} ReadAllMembers(files: Files, paths: seq<string>, row: Tick)
    ensures row in ReadAll(files, paths) <==>
      exists k :: 0 <= k < |paths| && paths[k] in files && Some(row) in files[paths[k]]
  {
    if |paths| > 0 {
      ReadAllMembers(files, paths[1..], row);
      if row in ReadAll(files, paths[1..]) {
        var k :| 0 <= k < |paths[1..]| && paths[1..][k] in files && Some(row) in files[paths[1..][k]];
        assert paths[k + 1] == paths[1..][k];
      }
      if exists k :: 0 <= k < |paths| && paths[k] in files && Some(row) in files[paths[k]] {
        var k :| 0 <= k < |paths| && paths[k] in files && Some(row) in files[paths[k]];
        if k > 0 {
          assert paths[1..][k - 1] == paths[k];
        } else {
          var t := files[paths[0]];
          var i :| 0 <= i < |t| && t[i] == Some(row);
          assert row in Values(t);
        }
      }
    }
  }

  /** The load is the concatenation, in date order, of every day's rows;
      a day without a file contributes nothing. */
  lemma LoadByDays(files: Files, folder: string, start: int, end: int)
    ensures LoadDataByDateRange(files, folder, start, end)
         == ReadAll(files, DatePaths(folder, DateRange(start, end)))
  {
    ReadExisting(files, DatePaths(folder, DateRange(start, end)));
  }

  /** Loading two adjacent ranges and concatenating equals loading their
      union. */
  lemma LoadSplit(files: Files, folder: string, start: int, mid: int, end: int)
    requires start <= mid + 1 && mid <= end
    ensures LoadDataByDateRange(files, folder, start, end)
         == LoadDataByDateRange(files, folder, start, mid) + LoadDataByDateRange(files, folder, mid + 1, end)
  {
    LoadByDays(files, folder, start, end);
    LoadByDays(files, folder, start, mid);
    LoadByDays(files, folder, mid + 1, end);
    DateRangeSplit(start, mid, end);
    DatePathsAppend(folder, DateRange(start, mid), DateRange(mid + 1, end));
    ReadAllAppend(files, DatePaths(folder, DateRange(start, mid)), DatePaths(folder, DateRange(mid + 1, end)));
  }

  /** An empty range loads nothing, and a one-day range loads that day's
      file. */
  lemma LoadEdges(files: Files, folder: string, d: int)
    ensures LoadDataByDateRange(files, folder, d, d - 1) == []
    ensures LoadDataByDateRange(files, folder, d, d) == ReadTable(files, DatePath(folder, d))
  {
    LoadByDays(files, folder, d, d);
    assert DatePaths(folder, DateRange(d, d)) == [DatePath(folder, d)];
    assert [DatePath(folder, d)][1..] == [];
  }

  lemma PathOfDay(folder: string, start: int, end: int, d: int)
    requires start <= d <= end
    ensures d - start < |DatePaths(folder, DateRange(start, end))|
    ensures DatePaths(folder, DateRange(start, end))[d - start] == DatePath(folder, d)
  {
  }

  lemma DatePathsAppend(folder: string, a: seq<int>, b: seq<int>)
    ensures DatePaths(folder, a + b) == DatePaths(folder, a) + DatePaths(folder, b)
  {
  }

  /** Every loaded row is a non-null row of the existing file of a day in
      the range, and every such row is loaded. */
  lemma LoadedRows(files: Files, folder: string, start: int, end: int, row: Tick)
    ensures row in LoadDataByDateRange(files, folder, start, end) <==>
      exists d :: start <= d <= end && DatePath(folder, d) in files && Some(row) in files[DatePath(folder, d)]
  {
    if row in LoadDataByDateRange(files, folder, start, end) {
      var d := LoadedRowSource(files, folder, start, end, row);
    }
    if exists d :: start <= d <= end && DatePath(folder, d) in files && Some(row) in files[DatePath(folder, d)] {
      var d :| start <= d <= end && DatePath(folder, d) in files && Some(row) in files[DatePath(folder, d)];
      DayRowLoaded(files, folder, start, end, d, row);
    }
  }

  lemma LoadedRowSource(files: Files, folder: string, start: int, end: int, row: Tick) returns (d: int)
    requires row in LoadDataByDateRange(files, folder, start, end)
    ensures start <= d <= end && DatePath(folder, d) in files && Some(row) in files[DatePath(folder, d)]
  {
    var paths := DatePaths(folder, DateRange(start, end));
    LoadByDays(files, folder, start, end);
    ReadAllMembers(files, paths, row);
    var k :| 0 <= k < |paths| && paths[k] in files && Some(row) in files[paths[k]];
    d := start + k;
    PathOfDay(folder, start, end, d);
  }

  lemma DayRowLoaded(files: Files, folder: string, start: int, end: int, d: int, row: Tick)
    requires start <= d <= end && DatePath(folder, d) in files && Some(row) in files[DatePath(folder, d)]
    ensures row in LoadDataByDateRange(files, folder, start, end)
  {
    var paths := DatePaths(folder, DateRange(start, end));
    LoadByDays(files, folder, start, end);
    PathOfDay(folder, start, end, d);
    ReadAllMembers(files, paths, row);
  }
}
