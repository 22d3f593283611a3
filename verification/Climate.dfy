/** Climate guidance: archive data of several years aggregated day by day (providers/weather_openmeteo.py). */
module Climate {
  import opened Common

  /** A WMO weather code. */
  datatype Code = Code(number: int)

  method CountCodes(codes: seq<Code>) returns (counts: map<Code, nat>)
    ensures forall c :: c in counts <==> c in codes
    ensures forall c :: c in counts ==> counts[c] == Occurrences(codes, c)
  {
    counts := map[];
    var i := 0;
    while i < |codes|
      invariant 0 <= i <= |codes|
      invariant forall c :: c in counts <==> c in codes[..i]
      invariant forall c :: (if c in counts then counts[c] else 0) == Occurrences(codes[..i], c)
    {
      var code := codes[i];
      assert codes[..i + 1][..i] == codes[..i];
      counts := counts[code := (if code in counts then counts[code] else 0) + 1];
      i := i + 1;
    }
    assert codes[..|codes|] == codes;
  }

  /** The key with the greatest count, the lowest of them on a tie. */
  method GreatestCount(counts: map<Code, nat>) returns (code: Code)
    requires |counts| > 0
    ensures code in counts
    ensures forall c | c in counts :: counts[c] < counts[code] || (counts[c] == counts[code] && code.number <= c.number)
  {
    code :| code in counts.Keys;
    var pending := counts.Keys - {code};
    while pending != {}
      invariant code in counts && pending <= counts.Keys
      invariant forall c | c in counts && c !in pending ::
        counts[c] < counts[code] || (counts[c] == counts[code] && code.number <= c.number)
    {
      var c :| c in pending;
      pending := pending - {c};
      if counts[c] > counts[code] || (counts[c] == counts[code] && c.number < code.number) {
        code := c;
      }
    }
  }

  /** The most frequent code, the lowest of them on a tie. */
  method MostCommonCode(codes: seq<Code>) returns (code: Code)
    requires codes != []
    ensures code in codes
    ensures forall c | c in codes :: Occurrences(codes, c) <= Occurrences(codes, code)
    ensures forall c | c in codes :: Occurrences(codes, c) == Occurrences(codes, code) ==> code.number <= c.number
  {
    var counts := CountCodes(codes);
    assert codes[0] in counts;
    code := GreatestCount(counts);
  }

  datatype Record = Record(high: Option<real>, low: Option<real>)

  datatype ClimateDay = ClimateDay(offset: nat, avgHigh: real, avgLow: real)

  /** Both temperatures of one day of one sampled year. */
  datatype Sample = Sample(high: real, low: real)

  function UsableAt(year: seq<Record>, offset: int): Option<Sample> {
    if 0 <= offset < |year| && year[offset].high.Some? && year[offset].low.Some?
    then Some(Sample(year[offset].high.value, year[offset].low.value))
    else None
  }

  /** The samples the years give for one day of the trip, oldest year first. */
  function Samples(years: seq<seq<Record>>, offset: nat): seq<Sample> {
    if years == [] then []
    else
      var s := UsableAt(years[|years| - 1], offset);
      Samples(years[..|years| - 1], offset) + if s.Some? then [s.value] else []
  }

  function SumHigh(samples: seq<Sample>): real {
    if samples == [] then 0.0 else SumHigh(samples[..|samples| - 1]) + samples[|samples| - 1].high
  }

  function SumLow(samples: seq<Sample>): real {
    if samples == [] then 0.0 else SumLow(samples[..|samples| - 1]) + samples[|samples| - 1].low
  }

  function Mean(sum: real, n: nat): real {
    if n == 0 then 0.0 else sum / n as real
  }

  function DayOf(samples: seq<Sample>, offset: nat, round1: real -> real): ClimateDay {
    ClimateDay(offset, round1(Mean(SumHigh(samples), |samples|)), round1(Mean(SumLow(samples), |samples|)))
  }

  /** The days reported for the first n days of the trip: those with a sample, and no others. */
  function ClimateDays(years: seq<seq<Record>>, n: nat, round1: real -> real): seq<ClimateDay> {
    if n == 0 then []
    else ClimateDays(years, n - 1, round1) +
         if Samples(years, n - 1) != [] then [DayOf(Samples(years, n - 1), n - 1, round1)] else []
  }

  /** The days for which some sampled year has usable data, each with its means. */
  method AggregateYears(years: seq<seq<Record>>, daySpan: nat, round1: real -> real) returns (days: seq<ClimateDay>)
    ensures days == ClimateDays(years, daySpan + 1, round1)
  {
    days := [];
    for i := 0 to daySpan + 1
      invariant days == ClimateDays(years, i, round1)
    {
      var records := CollectSamples(years, i);
      if records != [] {
        days := days + [DayOf(records, i, round1)];
      }
    }
  }

  method CollectSamples(years: seq<seq<Record>>, offset: nat) returns (records: seq<Sample>)
    ensures records == Samples(years, offset)
  {
    records := [];
    for k := 0 to |years|
      invariant records == Samples(years[..k], offset)
    {
      assert years[..k + 1][..k] == years[..k];
      var s := UsableAt(years[k], offset);
      if s.Some? {
        records := records + [s.value];
      }
    }
    assert years[..|years|] == years;
  }

  predicate Measured(year: seq<Record>, offset: int) {
    0 <= offset < |year| && year[offset].high.Some? && year[offset].low.Some?
  }

  predicate SampledByOne(years: seq<seq<Record>>, offset: int) {
    exists y :: y in years && Measured(y, offset)
  }

  lemma SamplesExactlyWhen(years: seq<seq<Record>>, offset: nat)
    ensures Samples(years, offset) != [] <==> SampledByOne(years, offset)
  {
    if years != [] {
      var init, last := years[..|years| - 1], years[|years| - 1];
      assert years == init + [last];
      SamplesExactlyWhen(init, offset);
      assert UsableAt(last, offset).Some? <==> Measured(last, offset);
      if y :| y in init && Measured(y, offset) { assert y in years; }
    }
  }

  /** The reported days are the days for which some sampled year has both temperatures, in order: nothing is made up,
      and nothing that was measured is left out. */
  lemma {:induction false} ClimateDaysAreTheSampledOnes(years: seq<seq<Record>>, n: nat, round1: real -> real)
    ensures Offsets(ClimateDays(years, n, round1)) == SampledOffsets(years, n)
  {
    hide Samples;
    hide SampledByOne;
    if n > 0 {
      ClimateDaysAreTheSampledOnes(years, n - 1, round1);
      SamplesExactlyWhen(years, n - 1);
      OffsetsAppend(ClimateDays(years, n - 1, round1), DayOf(Samples(years, n - 1), n - 1, round1));
    }
  }

  predicate HasBoth(year: seq<Record>, offset: nat, s: Sample) {
    offset < |year| && year[offset] == Record(Some(s.high), Some(s.low))
  }

  /** Every sample is the pair of temperatures some sampled year has for that day, at most one from each year. */
  lemma {:induction false} SamplesAreMeasured(years: seq<seq<Record>>, offset: nat)
    ensures |Samples(years, offset)| <= |years|
    ensures forall s | s in Samples(years, offset) :: exists y :: y in years && HasBoth(y, offset, s)
  {
    if years != [] {
      var init, last := years[..|years| - 1], years[|years| - 1];
      assert years == init + [last];
      SamplesAreMeasured(init, offset);
      var u := UsableAt(last, offset);
      assert u.Some? ==> HasBoth(last, offset, u.value);
    }
  }

  predicate Between(s: Sample, low: Sample, high: Sample) {
    low.high <= s.high <= high.high && low.low <= s.low <= high.low
  }

  function Scaled(x: real, n: nat): real { x * n as real }

  lemma ScaledGrows(x: real, n: nat)
    ensures Scaled(x, 0) == 0.0 && Scaled(x, n + 1) == Scaled(x, n) + x
  {
  }

  lemma {:induction false} SumsAreBetween(samples: seq<Sample>, low: Sample, high: Sample)
    requires forall s | s in samples :: Between(s, low, high)
    ensures Scaled(low.high, |samples|) <= SumHigh(samples) <= Scaled(high.high, |samples|)
    ensures Scaled(low.low, |samples|) <= SumLow(samples) <= Scaled(high.low, |samples|)
  {
    hide Scaled;
    var n := if samples == [] then 0 else |samples| - 1;
    ScaledGrows(low.high, n);
    ScaledGrows(high.high, n);
    ScaledGrows(low.low, n);
    ScaledGrows(high.low, n);
    if samples != [] {
      assert Between(samples[n], low, high);
      SumsAreBetween(samples[..n], low, high);
    }
  }

  lemma MeanIsBetween(sum: real, n: nat, low: real, high: real)
    requires n > 0 && Scaled(low, n) <= sum <= Scaled(high, n)
    ensures low <= Mean(sum, n) <= high
  {
    assert Scaled(Mean(sum, n), n) == sum;
    assert Mean(sum, n) < low ==> Scaled(Mean(sum, n), n) < Scaled(low, n);
    assert Mean(sum, n) > high ==> Scaled(Mean(sum, n), n) > Scaled(high, n);
  }

  /** The samples of several years are those of each year, in order: its two temperatures where it has both. */
  lemma {:induction false} SamplesByYear(a: seq<seq<Record>>, b: seq<seq<Record>>, year: seq<Record>, offset: nat)
    ensures Samples(a + b, offset) == Samples(a, offset) + Samples(b, offset)
    ensures Samples([year], offset) ==
      if Measured(year, offset) then [Sample(year[offset].high.value, year[offset].low.value)] else []
    decreases |b|
  {
    assert [year][..0] == [];
    if b == [] {
      assert a + b == a;
    } else {
      assert (a + b)[..|a + b| - 1] == a + b[..|b| - 1];
      SamplesByYear(a, b[..|b| - 1], year, offset);
    }
  }

  lemma {:induction false} SumsAdd(a: seq<Sample>, b: seq<Sample>)
    ensures SumHigh(a + b) == SumHigh(a) + SumHigh(b) && SumLow(a + b) == SumLow(a) + SumLow(b)
    decreases |b|
  {
    if b == [] {
      assert a + b == a;
    } else {
      assert (a + b)[..|a + b| - 1] == a + b[..|b| - 1];
      SumsAdd(a, b[..|b| - 1]);
    }
  }

  lemma MeanTimesCount(sum: real, n: nat)
    ensures n > 0 ==> Scaled(Mean(sum, n), n) == sum
    ensures n == 0 ==> Mean(sum, n) == 0.0
  {
  }

  /** The means are arithmetic: of one sample its own temperatures, and of more samples what weighs every part by the
      number of its samples. */
  lemma MeansAreArithmetic(a: seq<Sample>, b: seq<Sample>, s: Sample, offset: nat)
    requires a != [] && b != []
    ensures DayOf([s], offset, x => x) == ClimateDay(offset, s.high, s.low)
    ensures var whole, part, rest := DayOf(a + b, offset, x => x), DayOf(a, offset, x => x), DayOf(b, offset, x => x);
      && Scaled(whole.avgHigh, |a| + |b|) == Scaled(part.avgHigh, |a|) + Scaled(rest.avgHigh, |b|)
      && Scaled(whole.avgLow, |a| + |b|) == Scaled(part.avgLow, |a|) + Scaled(rest.avgLow, |b|)
  {
    hide Mean;
    hide Scaled;
    SumsAdd(a, b);
    MeanTimesCount(SumHigh(a), |a|);
    MeanTimesCount(SumHigh(b), |b|);
    MeanTimesCount(SumHigh(a + b), |a + b|);
    MeanTimesCount(SumLow(a), |a|);
    MeanTimesCount(SumLow(b), |b|);
    MeanTimesCount(SumLow(a + b), |a + b|);
    MeanOfOne(s, offset);
  }

  lemma MeanOfOne(s: Sample, offset: nat)
    ensures DayOf([s], offset, x => x) == ClimateDay(offset, s.high, s.low)
  {
    assert [s][..0] == [];
    assert SumHigh([s]) == SumHigh([]) + s.high && SumLow([s]) == SumLow([]) + s.low;
  }

  /** Before rounding, the reported high and low lie between the extremes of that day's samples. */
  lemma MeansAreBetween(samples: seq<Sample>, offset: nat, low: Sample, high: Sample)
    requires samples != [] && forall s | s in samples :: Between(s, low, high)
    ensures low.high <= DayOf(samples, offset, x => x).avgHigh <= high.high
    ensures low.low <= DayOf(samples, offset, x => x).avgLow <= high.low
  {
    SumsAreBetween(samples, low, high);
    MeanIsBetween(SumHigh(samples), |samples|, low.high, high.high);
    MeanIsBetween(SumLow(samples), |samples|, low.low, high.low);
  }

  /** Every reported day holds the rounded means of the samples of its own day. */
  lemma {:induction false} ClimateDaysAreMeans(years: seq<seq<Record>>, n: nat, round1: real -> real, i: nat)
    requires i < |ClimateDays(years, n, round1)|
    ensures var day := ClimateDays(years, n, round1)[i];
      day.offset < n && day == DayOf(Samples(years, day.offset), day.offset, round1)
  {
    hide Samples;
    if n > 0 && i < |ClimateDays(years, n - 1, round1)| {
      ClimateDaysAreMeans(years, n - 1, round1, i);
    }
  }

  function Offsets(days: seq<ClimateDay>): seq<nat> {
    seq(|days|, i requires 0 <= i < |days| => days[i].offset)
  }

  lemma OffsetsAppend(days: seq<ClimateDay>, day: ClimateDay)
    ensures Offsets(days + [day]) == Offsets(days) + [day.offset]
  {
  }

  /** The offsets below n that some sampled year covers, in order. */
  ghost function SampledOffsets(years: seq<seq<Record>>, n: nat): seq<nat> {
    if n == 0 then []
    else SampledOffsets(years, n - 1) + if SampledByOne(years, n - 1) then [n - 1] else []
  }

  lemma {:induction false} SampledOffsetsAre(years: seq<seq<Record>>, n: nat, k: nat)
    ensures k in SampledOffsets(years, n) <==> k < n && SampledByOne(years, k)
  {
    hide SampledByOne;
    if n > 0 { SampledOffsetsAre(years, n - 1, k); }
  }
}
