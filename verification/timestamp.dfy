/** `parseCustomTimestamp`: decoding the fixed-width tick timestamp
    `YYYYMMDD HHMMSS fffffff` into the fields handed to `new Date(...)`. */
module Timestamp {
  import opened Wrappers
  import opened Strings

  /** The arguments of `new Date(year, month, day, hour, minute, second)`;
      `month` is 0-based, as JavaScript expects. */
  datatype Fields = Fields(year: int, month: int, day: int, hour: int, minute: int, second: int)

  /** Field extraction by fixed character positions. A field whose slice holds
      no number makes `parseInt` return `NaN` and the date invalid: `None`;
      so does a timestamp cut off before its seconds. */
  function ParseCustomTimestamp(ts: string): (r: Option<Fields>)
    ensures |ts| <= 13 ==> r.None?
  {
    Assemble(ParseInt(Slice(ts, 0, 4)), ParseInt(Slice(ts, 4, 6)), ParseInt(Slice(ts, 6, 8)),
             ParseInt(Slice(ts, 9, 11)), ParseInt(Slice(ts, 11, 13)), ParseInt(Slice(ts, 13, 15)))
  }

  /** The `Date` arguments from the six parsed numbers; the month number of
      the text is 1-based. */
  function Assemble(year: Option<int>, month: Option<int>, day: Option<int>,
                    hour: Option<int>, minute: Option<int>, second: Option<int>): Option<Fields>
  {
    if year.None? || month.None? || day.None? || hour.None? || minute.None? || second.None? then None
    else Some(Fields(year.value, month.value - 1, day.value, hour.value, minute.value, second.value))
  }

  /** The six fixed-width fields of a well-formed timestamp are digit runs. */
  predicate WellFormed(ts: string)
  {
    && |ts| >= 15
    && IsDigits(ts[0..4]) && IsDigits(ts[4..6]) && IsDigits(ts[6..8])
    && IsDigits(ts[9..11]) && IsDigits(ts[11..13]) && IsDigits(ts[13..15])
  }

  /** Each field is the decimal value of its own slice, and the month is
      shifted down by one. */
  lemma ParseFieldSlices(ts: string)
    requires WellFormed(ts)
    ensures var r := ParseCustomTimestamp(ts);
      && r.Some?
      && r.value.year == DigitsValue(ts[0..4])
      && r.value.month == DigitsValue(ts[4..6]) - 1
      && r.value.day == DigitsValue(ts[6..8])
      && r.value.hour == DigitsValue(ts[9..11])
      && r.value.minute == DigitsValue(ts[11..13])
      && r.value.second == DigitsValue(ts[13..15])
  {
    ParseSlice(ts, 0, 4);
    ParseSlice(ts, 4, 6);
    ParseSlice(ts, 6, 8);
    ParseSlice(ts, 9, 11);
    ParseSlice(ts, 11, 13);
    ParseSlice(ts, 13, 15);
    AssembleSome(DigitsValue(ts[0..4]), DigitsValue(ts[4..6]), DigitsValue(ts[6..8]),
                 DigitsValue(ts[9..11]), DigitsValue(ts[11..13]), DigitsValue(ts[13..15]));
  }

  lemma AssembleSome(year: int, month: int, day: int, hour: int, minute: int, second: int)
    ensures var r := Assemble(Some(year), Some(month), Some(day), Some(hour), Some(minute), Some(second));
      && r.Some?
      && r.value.year == year && r.value.month == month - 1 && r.value.day == day
      && r.value.hour == hour && r.value.minute == minute && r.value.second == second
  {
  }

  lemma ParseSlice(ts: string, i: nat, j: nat)
    requires i < j <= |ts| && IsDigits(ts[i..j])
    ensures ParseInt(Slice(ts, i, j)) == Some(DigitsValue(ts[i..j]))
  {
    ParseIntOfDigits(ts[i..j]);
  }

  /** The separator at position 8 and everything from position 15 on (the
      fractional seconds) never influence the result. */
  lemma ParseIgnoresSeparatorAndFraction(ts: string, sep: char, fraction: string)
    requires |ts| >= 15
    ensures ParseCustomTimestamp(ts[..8] + [sep] + ts[9..15] + fraction) == ParseCustomTimestamp(ts)
  {
    var t := ts[..8] + [sep] + ts[9..15] + fraction;
    assert t[0..4] == ts[0..4];
    assert t[4..6] == ts[4..6];
    assert t[6..8] == ts[6..8];
    assert t[9..11] == ts[9..11];
    assert t[11..13] == ts[11..13];
    assert t[13..15] == ts[13..15];
  }

  /** Only the six field slices matter: two timestamps that agree on them
      decode alike, whether or not the fields are numbers. */
  lemma SameSlicesSameFields(a: string, b: string)
    requires Slice(a, 0, 4) == Slice(b, 0, 4) && Slice(a, 4, 6) == Slice(b, 4, 6)
    requires Slice(a, 6, 8) == Slice(b, 6, 8) && Slice(a, 9, 11) == Slice(b, 9, 11)
    requires Slice(a, 11, 13) == Slice(b, 11, 13) && Slice(a, 13, 15) == Slice(b, 13, 15)
    ensures ParseCustomTimestamp(a) == ParseCustomTimestamp(b)
  {
  }

  /** Fields a fixed-width timestamp can carry. */
  predicate Representable(f: Fields)
  {
    && 0 <= f.year < 10000
    && 0 <= f.month + 1 < 100
    && 0 <= f.day < 100
    && 0 <= f.hour < 100
    && 0 <= f.minute < 100
    && 0 <= f.second < 100
  }

  function Pad(n: nat, width: nat): string
  {
    PadStart(NatToString(n), width, '0')
  }

  /** The writer's side of the format: `YYYYMMDD HHMMSS`, month 1-based. */
  function FormatTimestamp(f: Fields): (ts: string)
    requires Representable(f)
    ensures |ts| == 15 && ts[8] == ' '
    ensures ts[0..4] == Pad(f.year, 4) && ts[4..6] == Pad(f.month + 1, 2) && ts[6..8] == Pad(f.day, 2)
    ensures ts[9..11] == Pad(f.hour, 2) && ts[11..13] == Pad(f.minute, 2) && ts[13..15] == Pad(f.second, 2)
  {
    PadWidth(f.year, 4);
    PadWidth(f.month + 1, 2);
    PadWidth(f.day, 2);
    PadWidth(f.hour, 2);
    PadWidth(f.minute, 2);
    PadWidth(f.second, 2);
    Layout(Pad(f.year, 4), Pad(f.month + 1, 2), Pad(f.day, 2), Pad(f.hour, 2), Pad(f.minute, 2), Pad(f.second, 2));
    Pad(f.year, 4) + Pad(f.month + 1, 2) + Pad(f.day, 2) + " " + Pad(f.hour, 2) + Pad(f.minute, 2) + Pad(f.second, 2)
  }

  lemma PadWidth(n: nat, w: nat)
    requires 0 < w && n < Pow10(w)
    ensures |Pad(n, w)| == w
  {
    PadDigits(n, w);
  }

  lemma Layout(year: string, month: string, day: string, hour: string, minute: string, second: string)
    requires |year| == 4 && |month| == 2 && |day| == 2 && |hour| == 2 && |minute| == 2 && |second| == 2
    ensures var ts := year + month + day + " " + hour + minute + second;
      && |ts| == 15 && ts[8] == ' '
      && ts[0..4] == year && ts[4..6] == month && ts[6..8] == day
      && ts[9..11] == hour && ts[11..13] == minute && ts[13..15] == second
  {
  }

  /** The six fields of a written timestamp sit at their fixed positions,
      whatever follows. */
  lemma FormattedSlices(f: Fields, fraction: string)
    requires Representable(f)
    ensures |FormatTimestamp(f) + fraction| >= 15
    ensures (FormatTimestamp(f) + fraction)[0..4] == Pad(f.year, 4)
    ensures (FormatTimestamp(f) + fraction)[4..6] == Pad(f.month + 1, 2)
    ensures (FormatTimestamp(f) + fraction)[6..8] == Pad(f.day, 2)
    ensures (FormatTimestamp(f) + fraction)[9..11] == Pad(f.hour, 2)
    ensures (FormatTimestamp(f) + fraction)[11..13] == Pad(f.minute, 2)
    ensures (FormatTimestamp(f) + fraction)[13..15] == Pad(f.second, 2)
  {
    var ts := FormatTimestamp(f);
    var t := ts + fraction;
    assert t[..15] == ts;
    SlicePrefix(t, 15, 0, 4);
    SlicePrefix(t, 15, 4, 6);
    SlicePrefix(t, 15, 6, 8);
    SlicePrefix(t, 15, 9, 11);
    SlicePrefix(t, 15, 11, 13);
    SlicePrefix(t, 15, 13, 15);
  }

  /** A padded field is digits that read back as its number. */
  lemma PadReadsBack(n: nat, w: nat)
    requires 0 < w && n < Pow10(w)
    ensures IsDigits(Pad(n, w)) && DigitsValue(Pad(n, w)) == n
  {
    PadDigits(n, w);
  }

  /** Decoding inverts the fixed-width format, whatever fraction follows. */
  lemma ParseFormatRoundTrip(f: Fields, fraction: string)
    requires Representable(f)
    ensures ParseCustomTimestamp(FormatTimestamp(f) + fraction) == Some(f)
  {
    FormattedSlices(f, fraction);
    PadReadsBack(f.year, 4);
    PadReadsBack(f.month + 1, 2);
    PadReadsBack(f.day, 2);
    PadReadsBack(f.hour, 2);
    PadReadsBack(f.minute, 2);
    PadReadsBack(f.second, 2);
    ParseFieldSlices(FormatTimestamp(f) + fraction);
  }

  lemma SlicePrefix(s: string, n: nat, i: nat, j: nat)
    requires i <= j <= n <= |s|
    ensures s[..n][i..j] == s[i..j]
  {
  }
}
