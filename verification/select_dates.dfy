/** The per-date cache of `useSelectDates.ts`: the query body that finds
    the days of the range missing from the cache, fetches each of them on
    its own, stores the fetched rows and reassembles the range in day
    order; `clearCache`; and the guard of `fetchDateRangeData`. Days are
    day numbers, standing for their `yyyy-MM-dd` keys. What the server
    returns for a one-day request is the function `server`. */
module SelectDates {
  import opened Wrappers
  import opened Types
  import opened Seqs
  import opened Dates

  /** The cache: the rows already loaded for each day. */
  type Cache = map<int, seq<Tick>>

  /** A `fetchDateRangeData` call issued by the query. */
  datatype Request = Request(startDate: int, endDate: int)

  /** What one run of the query yields: the rows it returns, the cache after
      its update, and the requests it issued, in order. */
  datatype Outcome = Outcome(rows: seq<Tick>, cache: Cache, requests: seq<Request>)

  const MissingDatesMessage := "Please select both start and end dates."

  /** The guard of `fetchDateRangeData`: an empty date string is refused. */
  function CheckDates(startDate: string, endDate: string): (r: Result<(), string>)
    ensures r.Failure? ==> r.error == MissingDatesMessage
  {
    if |startDate| == 0 || |endDate| == 0 then Failure(MissingDatesMessage) else Success(())
  }

  /** The days of `dates` without a cache entry. */
  function Uncached(cache: Cache): int -> bool
  {
    d => d !in cache
  }

  /** `dates.flatMap(date => cache.get(date)!)`. */
  function Collect(cache: Cache, dates: seq<int>): seq<Tick>
    requires forall i :: 0 <= i < |dates| ==> dates[i] in cache
  {
    if |dates| == 0 then [] else cache[dates[0]] + Collect(cache, dates[1..])
  }

  /** `missingDates.forEach((date, index) => cache.set(date, chunks[index]))`. */
  function Upsert(cache: Cache, keys: seq<int>, chunks: seq<seq<Tick>>): (r: Cache)
    requires |keys| == |chunks|
    ensures r.Keys == cache.Keys + set k | k in keys
    ensures forall k :: k in cache && k !in keys ==> r[k] == cache[k]
    decreases |keys|
  {
    if |keys| == 0 then cache else Upsert(cache[keys[0] := chunks[0]], keys[1..], chunks[1..])
  }

  /** The reassembly: each day contributes its cached rows, or else the
      chunk fetched for it. */
  function Combine(cache: Cache, dates: seq<int>, missing: seq<int>, chunks: seq<seq<Tick>>): seq<Tick>
    requires |missing| == |chunks|
    requires forall i :: 0 <= i < |dates| ==> dates[i] in cache || dates[i] in missing
  {
    if |dates| == 0 then []
    else
      (if dates[0] in cache then cache[dates[0]] else chunks[IndexOf(missing, dates[0])])
      + Combine(cache, dates[1..], missing, chunks)
  }

  /** One request per missing day, asking for that day alone. */
  function Requests(missing: seq<int>): (r: seq<Request>)
    ensures |r| == |missing| && forall i :: 0 <= i < |missing| ==> r[i] == Request(missing[i], missing[i])
  {
    seq(|missing|, i requires 0 <= i < |missing| => Request(missing[i], missing[i]))
  }

  /** The chunks the requests bring back, in request order. */
  function Fetch(server: int -> seq<Tick>, missing: seq<int>): (r: seq<seq<Tick>>)
    ensures |r| == |missing| && forall i :: 0 <= i < |missing| ==> r[i] == server(missing[i])
  {
    seq(|missing|, i requires 0 <= i < |missing| => server(missing[i]))
  }

  /** The `queryFn` of the hook for the range `start .. end`. */
  function QueryFn(cache: Cache, start: int, end: int, server: int -> seq<Tick>): Outcome
  {
    var dates := DateRange(start, end);
    var missing := Filter(dates, Uncached(cache));
    if |missing| == 0 then
      Outcome(Collect(cache, dates), cache, [])
    else
      var chunks := Fetch(server, missing);
      Outcome(Combine(cache, dates, missing, chunks), Upsert(cache, missing, chunks), Requests(missing))
  }

  /** `clearCache(datesToRemove)`: a copy of the cache with each listed day
      deleted. */
  function ClearCache(cache: Cache, dates: seq<int>): (r: Cache)
    ensures r.Keys == cache.Keys - set d | d in dates
    ensures forall k :: k in r ==> r[k] == cache[k]
    decreases |dates|
  {
    if |dates| == 0 then cache else ClearCache(cache - {dates[0]}, dates[1..])
  }

  /** The guard refuses a request exactly when a date is empty. */
  lemma CheckDatesCharacterised(startDate: string, endDate: string)
    ensures CheckDates(startDate, endDate).Success? <==> startDate != [] && endDate != []
  {
  }

  /** The missing days are exactly the days of the range without a cache
      entry, in ascending order. */
  lemma MissingDates(cache: Cache, start: int, end: int)
    ensures forall d :: d in Filter(DateRange(start, end), Uncached(cache)) <==> start <= d <= end && d !in cache
    ensures forall i, j :: 0 <= i < j < |Filter(DateRange(start, end), Uncached(cache))| ==>
      Filter(DateRange(start, end), Uncached(cache))[i] < Filter(DateRange(start, end), Uncached(cache))[j]
  {
    var dates := DateRange(start, end);
    var missing := Filter(dates, Uncached(cache));
    DateRangeCharacterised(start, end);
    FilterAscending(dates, Uncached(cache));
    forall d | d in missing
      ensures start <= d <= end && d !in cache
    {
      var i :| 0 <= i < |missing| && missing[i] == d;
    }
    forall d | start <= d <= end && d !in cache
      ensures d in missing
    {
      assert dates[d - start] == d;
    }
  }

  /** Filtering keeps an ascending sequence ascending. */
  lemma {:induction false} FilterAscending(s: seq<int>, p: int -> bool)
    requires forall i, j :: 0 <= i < j < |s| ==> s[i] < s[j]
    ensures forall i, j :: 0 <= i < j < |Filter(s, p)| ==> Filter(s, p)[i] < Filter(s, p)[j]
  {
    if |s| > 0 {
      FilterAscending(s[1..], p);
      var rest := Filter(s[1..], p);
      forall i | 0 <= i < |rest|
        ensures s[0] < rest[i]
      {
        var k :| 0 <= k < |s[1..]| && s[1..][k] == rest[i];
        assert s[k + 1] == rest[i];
      }
    }
  }

  /** When every day is cached, nothing is fetched, the cache is left as it
      is and the result is the cached rows in day order. */
  lemma QueryHit(cache: Cache, start: int, end: int, server: int -> seq<Tick>)
    requires forall d :: start <= d <= end ==> d in cache
    ensures QueryFn(cache, start, end, server)
         == Outcome(Collect(cache, DateRange(start, end)), cache, [])
  {
    var dates := DateRange(start, end);
    assert forall i :: 0 <= i < |dates| ==> !Uncached(cache)(dates[i]);
    FilterNone(dates, Uncached(cache));
  }

  /** The query on a range with a day missing from the cache. */
  lemma MissOutcome(cache: Cache, start: int, end: int, server: int -> seq<Tick>, missing: seq<int>)
    requires missing == Filter(DateRange(start, end), Uncached(cache))
    requires exists d :: start <= d <= end && d !in cache
    ensures |missing| > 0
    ensures QueryFn(cache, start, end, server)
         == Outcome(Combine(cache, DateRange(start, end), missing, Fetch(server, missing)),
                    Upsert(cache, missing, Fetch(server, missing)), Requests(missing))
  {
    MissingDates(cache, start, end);
    var d :| start <= d <= end && d !in cache;
    assert d in missing;
  }

  /** When a day is missing, the query issues one request per missing day,
      for that day alone, in day order. */
  lemma QueryMissRequests(cache: Cache, start: int, end: int, server: int -> seq<Tick>)
    requires exists d :: start <= d <= end && d !in cache
    ensures |QueryFn(cache, start, end, server).requests| == |Filter(DateRange(start, end), Uncached(cache))| > 0
    ensures forall i :: 0 <= i < |QueryFn(cache, start, end, server).requests| ==>
      QueryFn(cache, start, end, server).requests[i]
        == Request(Filter(DateRange(start, end), Uncached(cache))[i], Filter(DateRange(start, end), Uncached(cache))[i])
  {
    MissOutcome(cache, start, end, server, Filter(DateRange(start, end), Uncached(cache)));
  }

  /** After the query the cache holds every day of the range; a missing day
      holds what the server returned for it and every earlier entry is
      unchanged. */
  lemma QueryMissCache(cache: Cache, start: int, end: int, server: int -> seq<Tick>)
    requires exists d :: start <= d <= end && d !in cache
    ensures forall d :: d in QueryFn(cache, start, end, server).cache <==> d in cache || start <= d <= end
    ensures forall d :: d in cache ==> QueryFn(cache, start, end, server).cache[d] == cache[d]
    ensures forall d :: start <= d <= end && d !in cache ==> QueryFn(cache, start, end, server).cache[d] == server(d)
  {
    var missing := Filter(DateRange(start, end), Uncached(cache));
    MissOutcome(cache, start, end, server, missing);
    MissingDates(cache, start, end);
    UpsertFrom(cache, missing, Fetch(server, missing), server);
  }

  /** The rows the query returns are the range read, day by day, from the
      cache it leaves behind. */
  lemma QueryMissRows(cache: Cache, start: int, end: int, server: int -> seq<Tick>)
    requires exists d :: start <= d <= end && d !in cache
    ensures forall d :: start <= d <= end ==> d in QueryFn(cache, start, end, server).cache
    ensures QueryFn(cache, start, end, server).rows
         == Collect(QueryFn(cache, start, end, server).cache, DateRange(start, end))
  {
    var dates := DateRange(start, end);
    var missing := Filter(dates, Uncached(cache));
    var chunks := Fetch(server, missing);
    MissOutcome(cache, start, end, server, missing);
    QueryMissCache(cache, start, end, server);
    MissingDates(cache, start, end);
    DateRangeCharacterised(start, end);
    CombineIsCollect(cache, QueryFn(cache, start, end, server).cache, dates, missing, chunks, server);
  }

  /** Upserting values computed by `f` leaves each key holding `f` of it. */
  lemma {:induction false} UpsertFrom(cache: Cache, keys: seq<int>, chunks: seq<seq<Tick>>, f: int -> seq<Tick>)
    requires |keys| == |chunks|
    requires forall i :: 0 <= i < |keys| ==> chunks[i] == f(keys[i])
    ensures forall k :: k in keys ==> Upsert(cache, keys, chunks)[k] == f(k)
    decreases |keys|
  {
    if |keys| > 0 {
      UpsertFrom(cache[keys[0] := chunks[0]], keys[1..], chunks[1..], f);
    }
  }

  /** Reading the old cache with the fetched chunks as fallback is the same
      as reading the updated cache. */
  lemma {:induction false} CombineIsCollect(cache: Cache, updated: Cache, dates: seq<int>, missing: seq<int>,
                                            chunks: seq<seq<Tick>>, f: int -> seq<Tick>)
    requires |missing| == |chunks|
    requires forall i :: 0 <= i < |missing| ==> chunks[i] == f(missing[i])
    requires forall i :: 0 <= i < |dates| ==> dates[i] in cache || dates[i] in missing
    requires forall k :: k in cache ==> k in updated && updated[k] == cache[k]
    requires forall k :: k in missing ==> k in updated && updated[k] == f(k)
    ensures forall i :: 0 <= i < |dates| ==> dates[i] in updated
    ensures Combine(cache, dates, missing, chunks) == Collect(updated, dates)
  {
    if |dates| > 0 {
      CombineIsCollect(cache, updated, dates[1..], missing, chunks, f);
    }
  }

  /** Running the query again on the cache it left behind fetches nothing
      and returns the same rows, whatever the server would now say. */
  lemma QueryRepeatHits(cache: Cache, start: int, end: int, server: int -> seq<Tick>, later: int -> seq<Tick>)
    ensures QueryFn(QueryFn(cache, start, end, server).cache, start, end, later)
         == Outcome(QueryFn(cache, start, end, server).rows, QueryFn(cache, start, end, server).cache, [])
  {
    if forall d :: start <= d <= end ==> d in cache {
      QueryHit(cache, start, end, server);
    } else {
      QueryMissRows(cache, start, end, server);
    }
    QueryHit(QueryFn(cache, start, end, server).cache, start, end, later);
  }

  /** Clearing removes the listed days and keeps every other entry; doing it
      twice changes nothing more. */
  lemma ClearCacheCharacterised(cache: Cache, dates: seq<int>)
    ensures forall d :: d in dates ==> d !in ClearCache(cache, dates)
    ensures forall d :: d in cache && d !in dates ==>
      d in ClearCache(cache, dates) && ClearCache(cache, dates)[d] == cache[d]
    ensures ClearCache(ClearCache(cache, dates), dates) == ClearCache(cache, dates)
  {
    var once := ClearCache(cache, dates);
    var twice := ClearCache(once, dates);
    assert twice.Keys == once.Keys;
  }

  /** A cleared day in the range is fetched again by the next query. */
  lemma ClearedDaysRefetched(cache: Cache, dates: seq<int>, start: int, end: int, server: int -> seq<Tick>, d: int)
    requires d in dates && start <= d <= end
    ensures Request(d, d) in QueryFn(ClearCache(cache, dates), start, end, server).requests
  {
    var cleared := ClearCache(cache, dates);
    var missing := Filter(DateRange(start, end), Uncached(cleared));
    MissingDates(cleared, start, end);
    assert d !in cleared.Keys;
    assert d in missing;
    var i :| 0 <= i < |missing| && missing[i] == d;
    QueryMissRequests(cleared, start, end, server);
  }
}
