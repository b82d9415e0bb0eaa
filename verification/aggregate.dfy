/** `aggregateTicksToOHLC`: folding consecutive chunks of ticks into OHLC
    bars. */
module Aggregate {
  import opened Types
  import opened Seqs

  function Min(a: int, b: int): int
  {
    if a <= b then a else b
  }

  /** `Math.max(...chunk.map(d => d.lastPrice))` on a non-empty chunk. */
  function MaxLastPrice(chunk: seq<Tick>): real
    requires |chunk| > 0
  {
    if |chunk| == 1 then chunk[0].lastPrice
    else
      var rest := MaxLastPrice(chunk[1..]);
      if chunk[0].lastPrice >= rest then chunk[0].lastPrice else rest
  }

  /** `Math.min(...chunk.map(d => d.lastPrice))` on a non-empty chunk. */
  function MinLastPrice(chunk: seq<Tick>): real
    requires |chunk| > 0
  {
    if |chunk| == 1 then chunk[0].lastPrice
    else
      var rest := MinLastPrice(chunk[1..]);
      if chunk[0].lastPrice <= rest then chunk[0].lastPrice else rest
  }

  /** The maximum bounds every last price of the chunk and is one of them. */
  lemma {:induction false} MaxLastPriceIsMax(chunk: seq<Tick>)
    requires |chunk| > 0
    ensures forall i :: 0 <= i < |chunk| ==> chunk[i].lastPrice <= MaxLastPrice(chunk)
    ensures exists i :: 0 <= i < |chunk| && chunk[i].lastPrice == MaxLastPrice(chunk)
  {
    if |chunk| > 1 {
      MaxLastPriceIsMax(chunk[1..]);
      assert forall i :: 1 <= i < |chunk| ==> chunk[i] == chunk[1..][i - 1];
      if chunk[0].lastPrice >= MaxLastPrice(chunk[1..]) {
        assert chunk[0].lastPrice == MaxLastPrice(chunk);
      } else {
        var j :| 0 <= j < |chunk| - 1 && chunk[1..][j].lastPrice == MaxLastPrice(chunk[1..]);
        assert chunk[j + 1].lastPrice == MaxLastPrice(chunk);
      }
    } else {
      assert chunk[0].lastPrice == MaxLastPrice(chunk);
    }
  }

  /** The minimum is below every last price of the chunk and is one of them. */
  lemma {:induction false} MinLastPriceIsMin(chunk: seq<Tick>)
    requires |chunk| > 0
    ensures forall i :: 0 <= i < |chunk| ==> MinLastPrice(chunk) <= chunk[i].lastPrice
    ensures exists i :: 0 <= i < |chunk| && chunk[i].lastPrice == MinLastPrice(chunk)
  {
    if |chunk| > 1 {
      MinLastPriceIsMin(chunk[1..]);
      assert forall i :: 1 <= i < |chunk| ==> chunk[i] == chunk[1..][i - 1];
      if chunk[0].lastPrice <= MinLastPrice(chunk[1..]) {
        assert chunk[0].lastPrice == MinLastPrice(chunk);
      } else {
        var j :| 0 <= j < |chunk| - 1 && chunk[1..][j].lastPrice == MinLastPrice(chunk[1..]);
        assert chunk[j + 1].lastPrice == MinLastPrice(chunk);
      }
    } else {
      assert chunk[0].lastPrice == MinLastPrice(chunk);
    }
  }

  /** The summed volume of a run of ticks. */
  function TickVolume(ticks: seq<Tick>): int
  {
    if |ticks| == 0 then 0 else ticks[0].volume + TickVolume(ticks[1..])
  }

  /** The summed volume of a run of bars. */
  function BarVolume(bars: seq<Bar>): int
  {
    if |bars| == 0 then 0 else bars[0].volume + BarVolume(bars[1..])
  }

  /** The bar invariant: the body of the candle lies inside its wick. */
  predicate ValidBar(b: Bar)
  {
    b.low <= b.open <= b.high && b.low <= b.close <= b.high
  }

  /** The bar of one non-empty chunk: open and timestamp from its first tick,
      close from its last, high and low the extreme last prices (see
      `ChunkBarExtremes`), and the summed volume. */
  function ChunkBar(chunk: seq<Tick>): (b: Bar)
    requires |chunk| > 0
    ensures ValidBar(b)
    ensures b.open == chunk[0].lastPrice && b.close == Last(chunk).lastPrice
    ensures b.timestamp == chunk[0].timestamp
    ensures b.volume == TickVolume(chunk)
  {
    MaxLastPriceIsMax(chunk);
    MinLastPriceIsMin(chunk);
    Bar(chunk[0].lastPrice, MaxLastPrice(chunk), MinLastPrice(chunk), Last(chunk).lastPrice,
        chunk[0].timestamp, TickVolume(chunk))
  }

  /** A bar's high and low are the largest and smallest last price of its
      chunk: bounds that some tick attains. */
  lemma ChunkBarExtremes(chunk: seq<Tick>)
    requires |chunk| > 0
    ensures var b := ChunkBar(chunk);
      && (forall i :: 0 <= i < |chunk| ==> b.low <= chunk[i].lastPrice <= b.high)
      && (exists i :: 0 <= i < |chunk| && chunk[i].lastPrice == b.high)
      && (exists i :: 0 <= i < |chunk| && chunk[i].lastPrice == b.low)
  {
    MaxLastPriceIsMax(chunk);
    MinLastPriceIsMin(chunk);
  }

  /** `data.slice(i, i + chunkSize)` for `i = 0, chunkSize, 2 * chunkSize, ...`:
      the input cut into consecutive non-empty chunks, all of `chunkSize`
      ticks except possibly the last. */
  function Chunks(ticks: seq<Tick>, chunkSize: int): (chunks: seq<seq<Tick>>)
    requires chunkSize > 0
    ensures forall k :: 0 <= k < |chunks| ==> 0 < |chunks[k]| <= chunkSize
    ensures forall k :: 0 <= k < |chunks| - 1 ==> |chunks[k]| == chunkSize
    decreases |ticks|
  {
    if |ticks| == 0 then []
    else
      var m := Min(chunkSize, |ticks|);
      [ticks[..m]] + Chunks(ticks[m..], chunkSize)
  }

  /** The chunks partition the input: concatenated, they give it back. */
  lemma {:induction false} ChunksPartition(ticks: seq<Tick>, chunkSize: int)
    requires chunkSize > 0
    ensures Flatten(Chunks(ticks, chunkSize)) == ticks
    decreases |ticks|
  {
    if |ticks| > 0 {
      var m := Min(chunkSize, |ticks|);
      var rest := Chunks(ticks[m..], chunkSize);
      ChunksPartition(ticks[m..], chunkSize);
      assert ([ticks[..m]] + rest)[1..] == rest;
      assert ticks[..m] + ticks[m..] == ticks;
    }
  }

  /** One bar per chunk, in chunk order. */
  function ChunkBars(chunks: seq<seq<Tick>>): (bars: seq<Bar>)
    requires forall k :: 0 <= k < |chunks| ==> |chunks[k]| > 0
    ensures |bars| == |chunks|
    ensures forall k :: 0 <= k < |chunks| ==> bars[k] == ChunkBar(chunks[k])
  {
    if |chunks| == 0 then [] else [ChunkBar(chunks[0])] + ChunkBars(chunks[1..])
  }

  /** One bar per chunk of `chunkSize` consecutive ticks; the final chunk may
      be shorter and an empty input yields no bar. A chunk size below one
      never ends the source loop, so it is excluded. */
  function AggregateTicksToOHLC(ticks: seq<Tick>, chunkSize: int): (bars: seq<Bar>)
    requires chunkSize > 0
    ensures |ticks| == 0 <==> |bars| == 0
    ensures forall k :: 0 <= k < |bars| ==> ValidBar(bars[k])
  {
    ChunkBars(Chunks(ticks, chunkSize))
  }

  /** `k * chunkSize`, built by repeated addition so that the proofs below stay
      within linear arithmetic. */
  function ChunkStart(k: nat, chunkSize: nat): nat
  {
    if k == 0 then 0 else ChunkStart(k - 1, chunkSize) + chunkSize
  }

  lemma Distrib(a: int, c: int)
    ensures (a + 1) * c == a * c + c
  {
  }

  lemma {:induction false} ChunkStartIsProduct(k: nat, chunkSize: nat)
    ensures ChunkStart(k, chunkSize) == k * chunkSize
  {
    if k > 0 {
      ChunkStartIsProduct(k - 1, chunkSize);
      Distrib(k - 1, chunkSize);
    }
  }

  /** Counting chunks from the second one on. */
  lemma {:induction false} ShiftChunkStart(k: nat, chunkSize: nat)
    ensures ChunkStart(k + 1, chunkSize) == chunkSize + ChunkStart(k, chunkSize)
  {
    if k > 0 {
      ShiftChunkStart(k - 1, chunkSize);
    }
  }

  /** The bar count is the ceiling of `|ticks| / chunkSize`, stated without
      division. */
  lemma BarCount(ticks: seq<Tick>, chunkSize: int)
    requires chunkSize > 0
    ensures var bars := AggregateTicksToOHLC(ticks, chunkSize);
      (|bars| - 1) * chunkSize < |ticks| <= |bars| * chunkSize
  {
    var n := |Chunks(ticks, chunkSize)|;
    ChunkCount(ticks, chunkSize);
    ChunkStartIsProduct(n, chunkSize);
    if n > 0 {
      ChunkStartIsProduct(n - 1, chunkSize);
    }
  }

  lemma {:induction false} ChunkCount(ticks: seq<Tick>, chunkSize: int)
    requires chunkSize > 0
    ensures var n := |Chunks(ticks, chunkSize)|;
      && |ticks| <= ChunkStart(n, chunkSize)
      && (n > 0 ==> ChunkStart(n - 1, chunkSize) < |ticks|)
    decreases |ticks|
  {
    if |ticks| > 0 {
      var m := Min(chunkSize, |ticks|);
      ChunkCount(ticks[m..], chunkSize);
      ShiftChunkStart(|Chunks(ticks[m..], chunkSize)|, chunkSize);
    }
  }

  /** Bar `k` is the bar of ticks `[k * chunkSize, min((k + 1) * chunkSize, n))`. */
  lemma BarCoversChunk(ticks: seq<Tick>, chunkSize: int, k: nat)
    requires chunkSize > 0 && k < |AggregateTicksToOHLC(ticks, chunkSize)|
    ensures k * chunkSize < Min((k + 1) * chunkSize, |ticks|)
    ensures AggregateTicksToOHLC(ticks, chunkSize)[k]
         == ChunkBar(ticks[k * chunkSize .. Min((k + 1) * chunkSize, |ticks|)])
  {
    ChunkIsSlice(ticks, chunkSize, k);
    ChunkStartIsProduct(k, chunkSize);
    ChunkStartIsProduct(k + 1, chunkSize);
  }

  lemma {:induction false} ChunkIsSlice(ticks: seq<Tick>, chunkSize: int, k: nat)
    requires chunkSize > 0 && k < |Chunks(ticks, chunkSize)|
    ensures ChunkStart(k, chunkSize) < Min(ChunkStart(k + 1, chunkSize), |ticks|)
    ensures Chunks(ticks, chunkSize)[k]
         == ticks[ChunkStart(k, chunkSize) .. Min(ChunkStart(k + 1, chunkSize), |ticks|)]
    decreases k
  {
    UnfoldChunks(ticks, chunkSize);
    if k == 0 {
      assert ChunkStart(1, chunkSize) == chunkSize;
    } else {
      ChunkIsSlice(ticks[chunkSize..], chunkSize, k - 1);
      LaterChunkIsSlice(ticks, chunkSize, k);
    }
  }

  /** The first chunk, and the rest are the chunks of what follows it. */
  lemma UnfoldChunks(ticks: seq<Tick>, chunkSize: int)
    requires chunkSize > 0 && |ticks| > 0
    ensures var chunks := Chunks(ticks, chunkSize);
      var m := Min(chunkSize, |ticks|);
      && chunks[0] == ticks[..m]
      && |chunks| == 1 + |Chunks(ticks[m..], chunkSize)|
      && (|chunks| > 1 ==> m == chunkSize)
      && forall k :: 1 <= k < |chunks| ==> chunks[k] == Chunks(ticks[m..], chunkSize)[k - 1]
  {
    var m := Min(chunkSize, |ticks|);
    if m == |ticks| {
      assert ticks[m..] == [];
    }
  }

  /** The inductive step of `ChunkIsSlice`: chunk `k` of the input is chunk
      `k - 1` of the input past its first chunk. */
  lemma LaterChunkIsSlice(ticks: seq<Tick>, chunkSize: int, k: nat)
    requires chunkSize > 0 && 0 < k < |Chunks(ticks, chunkSize)|
    requires |ticks| > chunkSize
    requires var tail := ticks[chunkSize..];
      && ChunkStart(k - 1, chunkSize) < Min(ChunkStart(k, chunkSize), |tail|)
      && Chunks(ticks, chunkSize)[k]
         == tail[ChunkStart(k - 1, chunkSize) .. Min(ChunkStart(k, chunkSize), |tail|)]
    ensures ChunkStart(k, chunkSize) < Min(ChunkStart(k + 1, chunkSize), |ticks|)
    ensures Chunks(ticks, chunkSize)[k]
         == ticks[ChunkStart(k, chunkSize) .. Min(ChunkStart(k + 1, chunkSize), |ticks|)]
  {
    var lo := ChunkStart(k - 1, chunkSize);
    var hi := Min(ChunkStart(k, chunkSize), |ticks| - chunkSize);
    ShiftChunkStart(k - 1, chunkSize);
    ShiftChunkStart(k, chunkSize);
    SliceOfDrop(ticks, chunkSize, lo, hi);
  }

  lemma {:induction false} TickVolumeAppend(a: seq<Tick>, b: seq<Tick>)
    ensures TickVolume(a + b) == TickVolume(a) + TickVolume(b)
  {
    if |a| > 0 {
      assert (a + b)[1..] == a[1..] + b;
      TickVolumeAppend(a[1..], b);
    } else {
      assert a + b == b;
    }
  }

  lemma {:induction false} ChunkBarsVolume(chunks: seq<seq<Tick>>)
    requires forall k :: 0 <= k < |chunks| ==> |chunks[k]| > 0
    ensures BarVolume(ChunkBars(chunks)) == TickVolume(Flatten(chunks))
  {
    if |chunks| > 0 {
      ChunkBarsVolume(chunks[1..]);
      TickVolumeAppend(chunks[0], Flatten(chunks[1..]));
      assert ChunkBars(chunks)[1..] == ChunkBars(chunks[1..]);
    }
  }

  /** Aggregation neither loses nor invents volume. */
  lemma VolumeConserved(ticks: seq<Tick>, chunkSize: int)
    requires chunkSize > 0
    ensures BarVolume(AggregateTicksToOHLC(ticks, chunkSize)) == TickVolume(ticks)
  {
    ChunkBarsVolume(Chunks(ticks, chunkSize));
    ChunksPartition(ticks, chunkSize);
  }

  /** Splitting the input after `chunks` whole chunks splits the bars. */
  lemma AggregateAppend(a: seq<Tick>, b: seq<Tick>, chunkSize: int, chunks: nat)
    requires chunkSize > 0 && |a| == chunks * chunkSize
    ensures AggregateTicksToOHLC(a + b, chunkSize)
         == AggregateTicksToOHLC(a, chunkSize) + AggregateTicksToOHLC(b, chunkSize)
  {
    ChunkStartIsProduct(chunks, chunkSize);
    ChunksAppend(a, b, chunkSize, chunks);
    ChunkBarsAppend(Chunks(a, chunkSize), Chunks(b, chunkSize));
  }

  lemma {:induction false} ChunksAppend(a: seq<Tick>, b: seq<Tick>, chunkSize: int, chunks: nat)
    requires chunkSize > 0 && |a| == ChunkStart(chunks, chunkSize)
    ensures Chunks(a + b, chunkSize) == Chunks(a, chunkSize) + Chunks(b, chunkSize)
    decreases chunks
  {
    if chunks == 0 {
      assert a + b == b;
    } else {
      ShiftChunkStart(chunks - 1, chunkSize);
      ChunksAppend(a[chunkSize..], b, chunkSize, chunks - 1);
      DropAppend(a, b, chunkSize);
    }
  }

  lemma ChunkBarsAppend(a: seq<seq<Tick>>, b: seq<seq<Tick>>)
    requires forall k :: 0 <= k < |a| ==> |a[k]| > 0
    requires forall k :: 0 <= k < |b| ==> |b[k]| > 0
    ensures ChunkBars(a + b) == ChunkBars(a) + ChunkBars(b)
  {
    assert forall k :: 0 <= k < |a + b| ==> |(a + b)[k]| > 0 by {
      forall k | 0 <= k < |a + b|
        ensures |(a + b)[k]| > 0
      {
        if k < |a| {
          assert (a + b)[k] == a[k];
        } else {
          assert (a + b)[k] == b[k - |a|];
        }
      }
    }
    var joined, parts := ChunkBars(a + b), ChunkBars(a) + ChunkBars(b);
    forall k | 0 <= k < |joined|
      ensures joined[k] == parts[k]
    {
      if k < |a| {
        assert (a + b)[k] == a[k];
      } else {
        assert (a + b)[k] == b[k - |a|];
      }
    }
  }
}
