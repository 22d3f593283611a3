/** The weather adapter: splitting a trip at the forecast horizon, and the exchanges that answer it
    (providers/weather_openmeteo.py).  Days are ordinals of the calendar. */
module Weather {
  import opened Common
  import opened Calendar
  import opened Climate
  import opened Whitespace

  const MAX_FORECAST_DAYS_AHEAD := 16

  // ---- Splitting the range ----

  datatype Range = Range(first: int, last: int)

  predicate Covers(r: Option<Range>, day: int) {
    r.Some? && r.value.first <= day <= r.value.last
  }

  function LivePart(today: int, from: int, to: int): Option<Range> {
    var horizon := today + MAX_FORECAST_DAYS_AHEAD;
    if from <= horizon then Some(Range(from, Min(to, horizon))) else None
  }

  function HistoricalPart(today: int, from: int, to: int): Option<Range> {
    var horizon := today + MAX_FORECAST_DAYS_AHEAD;
    if to > horizon then Some(Range(Max(from, horizon + 1), to)) else None
  }

  /** The day on which a trip enters the forecast window, whatever today is. */
  function EarliestForecastDay(from: int): int { from - MAX_FORECAST_DAYS_AHEAD }

  /** Every requested day is in exactly one part, no other day is in either, both parts are non-empty, and a live part
      exists exactly from the reported earliest day on. */
  lemma PartsPartitionTheRange(today: int, from: int, to: int)
    requires today <= from <= to
    ensures forall day :: from <= day <= to <==>
      Covers(LivePart(today, from, to), day) != Covers(HistoricalPart(today, from, to), day)
    ensures forall day :: !(Covers(LivePart(today, from, to), day) && Covers(HistoricalPart(today, from, to), day))
    ensures forall day :: Covers(LivePart(today, from, to), day) ==> day <= today + MAX_FORECAST_DAYS_AHEAD
    ensures LivePart(today, from, to).Some? <==> today >= EarliestForecastDay(from)
    ensures LivePart(today, from, to).Some? ==> Covers(LivePart(today, from, to), from)
    ensures HistoricalPart(today, from, to).Some? ==> Covers(HistoricalPart(today, from, to), to)
  {
  }

  /** The archive day read for the requested day when sampling a year, the historical part starting on s. */
  function ArchiveDayFor(s: Date, day: int, year: int): int {
    Ordinal(Equivalent(s, year)) + (day - Ordinal(s))
  }

  /** No archive request asks for a day after today exactly when the historical part is no longer than the time gone by
      since last year's equivalent of its first day. */
  lemma ArchiveStaysPastExactlyWhen(today: Date, from: int, to: int, s: Date)
    requires IsDate(today) && today.year > CLIMATE_SAMPLE_YEAR_COUNT && Ordinal(today) <= from <= to
    requires HistoricalPart(Ordinal(today), from, to).Some? && IsDate(s)
    requires Ordinal(s) == HistoricalPart(Ordinal(today), from, to).value.first
    ensures
      (forall y, day | y in SampleYears(today) && Covers(HistoricalPart(Ordinal(today), from, to), day) ::
        ArchiveDayFor(s, day, y) <= Ordinal(today))
      <==> to - Ordinal(s) <= Ordinal(today) - Ordinal(Equivalent(s, today.year - 1))
  {
    hide Ordinal;
    hide Equivalent;
    var part := HistoricalPart(Ordinal(today), from, to);
    assert today.year - 1 in SampleYears(today) && Covers(part, to);
    if to - Ordinal(s) <= Ordinal(today) - Ordinal(Equivalent(s, today.year - 1)) {
      forall y, day | y in SampleYears(today) && Covers(part, day) ensures ArchiveDayFor(s, day, y) <= Ordinal(today) {
        if y < today.year - 1 { EquivalentsIncrease(s, y, today.year - 1); }
      }
    } else {
      assert ArchiveDayFor(s, to, today.year - 1) > Ordinal(today);
    }
  }

  // ---- Replies ----

  datatype Status = InvalidRequest | Unsupported | Unavailable | ProviderError | OtherStatus(name: string)

  /** Exceptions the adapter lets out. */
  datatype Escape = AttributeError | UnexpectedResponse | MemberError | EnvelopeError

  /** A fault is reported in a degraded envelope, or escapes from the adapter. */
  datatype Fault = Reported(status: Status) | Escaped(escape: Escape)

  /** A 2xx body: not JSON, JSON but no object, an object without the block asked for, a block with members of types
      that cannot be read, or a block. */
  datatype Body<T> = NotJson | NotAnObject | NoBlock | Broken | Block(value: T)

  /** What a request comes to when its retries are over. */
  datatype Reply<T> = Refused(status: Status) | Answered(body: Body<T>)

  datatype Coordinates = Coordinates(latitude: real, longitude: real)

  /** One geocoding result; without coordinates that are numbers it is of no use.  Its country is the code that the
      filter compares; `plainCountry` says that its country name is missing, empty or text. */
  datatype Candidate = Candidate(country: string, coordinates: Option<Coordinates>, zone: string, plainCountry: bool)

  /** Where the weather is asked for, and in which time zone. */
  datatype Place = Place(coordinates: Coordinates, zone: string, plainCountry: bool)

  function InCountry(cs: seq<Candidate>, country: string): seq<Candidate> {
    if cs == [] then []
    else (if cs[0].country == country then [cs[0]] else []) + InCountry(cs[1..], country)
  }

  /** The top-ranked result in the country asked for, or the top-ranked one. */
  function Pick(cs: seq<Candidate>, hint: Option<string>): Candidate
    requires cs != []
  {
    var filtered := if hint.Some? then InCountry(cs, hint.value) else [];
    if filtered != [] then filtered[0] else cs[0]
  }

  /** Candidate i is the first in this country. */
  predicate FirstInCountry(cs: seq<Candidate>, country: string, i: int) {
    0 <= i < |cs| && cs[i].country == country && forall j :: 0 <= j < i ==> cs[j].country != country
  }

  lemma {:induction false} InCountryStarts(cs: seq<Candidate>, country: string)
    ensures InCountry(cs, country) == [] ==> forall j :: 0 <= j < |cs| ==> cs[j].country != country
    ensures InCountry(cs, country) != [] ==>
      exists i :: FirstInCountry(cs, country, i) && InCountry(cs, country)[0] == cs[i]
  {
    if cs != [] {
      assert forall j :: 0 < j < |cs| ==> cs[j] == cs[1..][j - 1];
      if cs[0].country == country {
        assert FirstInCountry(cs, country, 0);
      } else {
        InCountryStarts(cs[1..], country);
        if InCountry(cs[1..], country) != [] {
          var i :| FirstInCountry(cs[1..], country, i) && InCountry(cs[1..], country)[0] == cs[1..][i];
          assert FirstInCountry(cs, country, i + 1);
        }
      }
    }
  }

  /** The place is the first result in the country asked for, and the first of all only when there is none there. */
  lemma PicksTheFirstInCountry(cs: seq<Candidate>, country: string)
    requires cs != []
    ensures Pick(cs, None) == cs[0]
    ensures (exists i :: FirstInCountry(cs, country, i) && Pick(cs, Some(country)) == cs[i])
      || ((forall j :: 0 <= j < |cs| ==> cs[j].country != country) && Pick(cs, Some(country)) == cs[0])
  {
    InCountryStarts(cs, country);
  }

  function Geocode(r: Reply<seq<Candidate>>, hint: Option<string>): Result<Place, Fault> {
    match r
    case Refused(status) => Err(Reported(status))
    case Answered(NotJson) => Err(Reported(ProviderError))
    case Answered(NotAnObject) => Err(Escaped(AttributeError))
    case Answered(NoBlock) => Err(Reported(Unavailable))
    case Answered(Broken) => Err(Escaped(MemberError))
    case Answered(Block(cs)) =>
      if cs == [] then Err(Reported(Unavailable))
      else
        var top := Pick(cs, hint);
        if top.coordinates.None? then Err(Reported(ProviderError))
        else Ok(Place(top.coordinates.value, top.zone, top.plainCountry))
  }

  /** The days a forecast body lists; an observation of current conditions lists none. */
  function ReadForecast(r: Reply<seq<int>>): Result<seq<int>, Fault> {
    match r
    case Refused(status) => Err(Reported(status))
    case Answered(NotJson) => Err(Reported(ProviderError))
    case Answered(NotAnObject) => Err(Escaped(AttributeError))
    case Answered(NoBlock) => Err(Reported(ProviderError))
    case Answered(Broken) => Err(Escaped(MemberError))
    case Answered(Block(days)) => Ok(days)
  }

  /** One sampled year; a body without data gives no records, and a body that is not JSON is not caught here. */
  function ReadArchive(r: Reply<seq<Record>>): Result<seq<Record>, Fault> {
    match r
    case Refused(status) => Err(Reported(status))
    case Answered(NotJson) => Err(Escaped(UnexpectedResponse))
    case Answered(NotAnObject) => Err(Escaped(AttributeError))
    case Answered(NoBlock) => Ok([])
    case Answered(Broken) => Err(Escaped(MemberError))
    case Answered(Block(records)) => Ok(records)
  }

  // ---- The sampled years ----

  predicate AllRead(replies: seq<Reply<seq<Record>>>) {
    forall r | r in replies :: ReadArchive(r).Ok?
  }

  function ReadAll(replies: seq<Reply<seq<Record>>>): seq<seq<Record>>
    requires AllRead(replies)
  {
    seq(|replies|, i requires 0 <= i < |replies| => ReadArchive(replies[i]).value)
  }

  function FirstFault(replies: seq<Reply<seq<Record>>>): Option<Fault> {
    if replies == [] then None
    else if ReadArchive(replies[0]).Err? then Some(ReadArchive(replies[0]).error)
    else FirstFault(replies[1..])
  }

  /** Reply k is the first that cannot be read. */
  predicate FaultAt(replies: seq<Reply<seq<Record>>>, k: int) {
    0 <= k < |replies| && AllRead(replies[..k]) && ReadArchive(replies[k]).Err?
  }

  lemma {:induction false} FirstFaultIsFirst(replies: seq<Reply<seq<Record>>>)
    ensures FirstFault(replies).None? <==> AllRead(replies)
    ensures FirstFault(replies).Some? ==>
      exists k :: FaultAt(replies, k) && FirstFault(replies).value == ReadArchive(replies[k]).error
  {
    if replies != [] {
      assert replies == [replies[0]] + replies[1..];
      if ReadArchive(replies[0]).Err? {
        assert FaultAt(replies, 0);
      } else {
        FirstFaultIsFirst(replies[1..]);
        if FirstFault(replies[1..]).Some? {
          var k :| FaultAt(replies[1..], k) && FirstFault(replies[1..]).value == ReadArchive(replies[1..][k]).error;
          assert replies[..k + 1] == [replies[0]] + replies[1..][..k];
          assert FaultAt(replies, k + 1);
        }
      }
    }
  }

  lemma {:induction false} FaultDecides(replies: seq<Reply<seq<Record>>>, k: nat)
    requires FaultAt(replies, k)
    ensures FirstFault(replies) == Some(ReadArchive(replies[k]).error)
  {
    if k > 0 {
      assert replies[0] == replies[..k][0];
      assert replies[..k][1..] == replies[1..][..k - 1];
      FaultDecides(replies[1..], k - 1);
    }
  }

  /** One archive answer a sampled year; the first that cannot be read is the answer, never what the others gave. */
  method CollectYears(replies: seq<Reply<seq<Record>>>) returns (r: Result<seq<seq<Record>>, Fault>)
    ensures r.Ok? <==> AllRead(replies)
    ensures r.Ok? ==> r.value == ReadAll(replies)
    ensures r.Err? ==> exists k :: FaultAt(replies, k) && r.error == ReadArchive(replies[k]).error
  {
    var years: seq<seq<Record>> := [];
    for k := 0 to |replies|
      invariant AllRead(replies[..k]) && years == ReadAll(replies[..k])
    {
      var year := ReadArchive(replies[k]);
      if year.Err? {
        assert FaultAt(replies, k);
        return Err(year.error);
      }
      assert replies[..k + 1] == replies[..k] + [replies[k]];
      years := years + [year.value];
    }
    assert replies[..|replies|] == replies;
    r := Ok(years);
  }

  /** The climate days of the historical part, or the first fault among the years. */
  method AggregateClimate(replies: seq<Reply<seq<Record>>>, daySpan: nat, round1: real -> real)
      returns (r: Result<seq<ClimateDay>, Fault>)
    ensures r.Ok? <==> AllRead(replies)
    ensures r.Ok? ==> r.value == ClimateDays(ReadAll(replies), daySpan + 1, round1)
    ensures r.Err? ==> FirstFault(replies) == Some(r.error)
  {
    var years := CollectYears(replies);
    if years.Err? {
      var k :| FaultAt(replies, k) && years.error == ReadArchive(replies[k]).error;
      FaultDecides(replies, k);
      return Err(years.error);
    }
    var days := AggregateYears(years.value, daySpan, round1);
    r := Ok(days);
  }

  // ---- One request ----

  /** Dates that do not parse are None; `current` asks for today's conditions. */
  datatype Query = Query(
    location: string, zone: string, from: Option<int>, to: Option<int>, current: bool, coordinates: Option<Coordinates>,
    hint: Option<string>)

  /** Only a query for today alone is for current conditions. */
  predicate WellFormed(q: Query, today: int) {
    q.current ==> q.from == q.to == Some(today)
  }

  predicate OnEarth(c: Coordinates) {
    -90.0 <= c.latitude <= 90.0 && -180.0 <= c.longitude <= 180.0
  }

  /** No complaint exactly for a range that starts today or later, at a place on earth or one that is named; a well-formed
      range that starts in the past is unsupported. */
  function Validate(q: Query, today: int): (complaint: Option<Status>)
    ensures complaint.None? <==>
      && q.from.Some? && q.to.Some? && today <= q.from.value <= q.to.value
      && (if q.coordinates.Some? then OnEarth(q.coordinates.value) else !AllSpace(q.location))
    ensures complaint == Some(Unsupported) <==>
      q.from.Some? && q.to.Some? && q.from.value <= q.to.value && q.from.value < today
  {
    NothingLeftMeansAllSpace(q.location);
    if q.from.None? || q.to.None? then Some(InvalidRequest)
    else if q.from.value > q.to.value then Some(InvalidRequest)
    else if q.from.value < today || q.to.value < today then Some(Unsupported)
    else if q.coordinates.Some? then if OnEarth(q.coordinates.value) then None else Some(InvalidRequest)
    else if Strip(q.location) == "" then Some(InvalidRequest)
    else None
  }

  /** What the network answers, one archive reply a sampled year. */
  datatype Replies = Replies(
    geocoding: Reply<seq<Candidate>>, forecast: Reply<seq<int>>, archive: seq<Reply<seq<Record>>>)

  datatype DataMode = LiveMode | HistoricalMode | Mixed

  /** A successful result: the days of the forecast, and the climate days counted from the first historical day. */
  datatype Report = Report(mode: DataMode, forecastDays: seq<int>, climateFrom: int, climateDays: seq<ClimateDay>)

  predicate ReportsClimate(r: Report, day: int) {
    exists i :: 0 <= i < |r.climateDays| && r.climateFrom + r.climateDays[i].offset == day
  }

  predicate Reports(r: Report, day: int) {
    day in r.forecastDays || ReportsClimate(r, day)
  }

  function Located(q: Query, geocoding: Reply<seq<Candidate>>): Result<Place, Fault> {
    if q.coordinates.Some? then Ok(Place(q.coordinates.value, q.zone, true)) else Geocode(geocoding, q.hint)
  }

  /** The days asked of the archive, none for current conditions. */
  function ArchivePart(q: Query, today: int): Option<Range>
    requires Validate(q, today).None?
  {
    if q.current then None else HistoricalPart(today, q.from.value, q.to.value)
  }

  /** The report put together from a forecast and the sampled years. */
  function Merge(q: Query, today: int, listed: seq<int>, climate: seq<ClimateDay>): Report
    requires Validate(q, today).None?
  {
    var live, historical := LivePart(today, q.from.value, q.to.value), ArchivePart(q, today);
    var mode := if live.Some? && historical.Some? then Mixed else if historical.Some? then HistoricalMode else LiveMode;
    Report(mode, if q.current then [] else listed, if historical.Some? then historical.value.first else 0, climate)
  }

  // ---- What the schema asks of an envelope ----

  predicate IsLetter(c: char) { 'A' <= c <= 'Z' || 'a' <= c <= 'z' || c == '_' }

  /** How many letters a text starts with. */
  function Letters(s: string): (n: nat)
    ensures n <= |s|
  {
    if s == "" || !IsLetter(s[0]) then 0 else 1 + Letters(s[1..])
  }

  /** This many words and one more, with slashes between them. */
  predicate AreWords(s: string, more: nat) {
    var n := Letters(s);
    n > 0 && if more == 0 then n == |s| else n < |s| && s[n] == '/' && AreWords(s[n + 1..], more - 1)
  }

  /** The pattern for time zones: UTC, or two or three words. */
  predicate IsZone(s: string) {
    Line(s) == "UTC" || AreWords(Line(s), 1) || AreWords(Line(s), 2)
  }

  function OrUtc(zone: string): string { if zone == "" then "UTC" else zone }

  /** On earth once rounded to four decimals. */
  predicate RoundsToEarth(c: Coordinates) {
    -90.00005 <= c.latitude <= 90.00005 && -180.00005 <= c.longitude <= 180.00005
  }

  /** The members that every result has are as the schema asks: the location of the query, a time zone and, where it is
      known, the place. */
  predicate HeaderValidates(q: Query, zone: string, place: Option<Place>) {
    && q.location != "" && IsZone(OrUtc(zone))
    && (place.Some? ==> place.value.plainCountry && RoundsToEarth(place.value.coordinates))
  }

  /** What building the degraded envelope for a fault comes to: it has the query's own time zone. */
  function Degraded(q: Query, place: Option<Place>, fault: Fault): Fault {
    if fault.Reported? && !HeaderValidates(q, q.zone, place) then Escaped(EnvelopeError) else fault
  }

  // ---- The request ----

  /** `valid` is the schema check of the rest of a success. */
  method FetchWeather(q: Query, today: int, replies: Replies, round1: real -> real, valid: Report -> bool)
      returns (r: Result<Report, Fault>)
    requires WellFormed(q, today)
    ensures r == Outcome(q, today, replies, round1, valid)
  {
    hide Validate;
    hide HeaderValidates;
    hide Degraded;
    hide Geocode;
    hide ReadForecast;
    hide ClimateDays;
    hide FaultAt;
    var invalid := Validate(q, today);
    if invalid.Some? {
      return Err(Degraded(q, None, Reported(invalid.value)));
    }
    var place: Place;
    if q.coordinates.Some? {
      place := Place(q.coordinates.value, q.zone, true);
    } else {
      var geocoded := Geocode(replies.geocoding, q.hint);
      if geocoded.Err? {
        return Err(Degraded(q, None, geocoded.error));
      }
      place := geocoded.value;
    }
    var live, historical := LivePart(today, q.from.value, q.to.value), HistoricalPart(today, q.from.value, q.to.value);
    var listed: seq<int> := [];
    if live.Some? {
      var forecast := ReadForecast(replies.forecast);
      if forecast.Err? {
        return Err(Degraded(q, Some(place), forecast.error));
      }
      listed := forecast.value;
    }
    var climate: seq<ClimateDay> := [];
    if historical.Some? && !q.current {
      FirstFaultIsFirst(replies.archive);
      var aggregated := AggregateClimate(replies.archive, historical.value.last - historical.value.first, round1);
      if aggregated.Err? {
        return Err(Degraded(q, Some(place), aggregated.error));
      }
      climate := aggregated.value;
    }
    var report := Merge(q, today, listed, climate);
    if !HeaderValidates(q, place.zone, Some(place)) || !valid(report) {
      return Err(Escaped(EnvelopeError));
    }
    r := Ok(report);
  }

  function ClimateFor(part: Option<Range>, replies: seq<Reply<seq<Record>>>, round1: real -> real): seq<ClimateDay>
    requires part.Some? ==> part.value.first <= part.value.last
  {
    FirstFaultIsFirst(replies);
    if part.None? || FirstFault(replies).Some? then []
    else ClimateDays(ReadAll(replies), part.value.last - part.value.first + 1, round1)
  }

  /** The faults of the exchanges a request needs, in the order in which it meets them. */
  function FaultsMet(q: Query, today: int, replies: Replies): Option<Fault>
    requires Validate(q, today).None?
  {
    var place := Located(q, replies.geocoding);
    if place.Err? then Some(place.error)
    else if LivePart(today, q.from.value, q.to.value).Some? && ReadForecast(replies.forecast).Err? then
      Some(ReadForecast(replies.forecast).error)
    else if ArchivePart(q, today).Some? then FirstFault(replies.archive)
    else None
  }

  function PlaceIn(located: Result<Place, Fault>): Option<Place> {
    if located.Ok? then Some(located.value) else None
  }

  /** The report of a request all of whose exchanges were read. */
  function Reporting(q: Query, today: int, replies: Replies, round1: real -> real): Report
    requires Validate(q, today).None? && FaultsMet(q, today, replies).None?
  {
    var listed := if LivePart(today, q.from.value, q.to.value).Some? then ReadForecast(replies.forecast).value else [];
    Merge(q, today, listed, ClimateFor(ArchivePart(q, today), replies.archive, round1))
  }

  /** The outcome as a function of the replies. */
  function Outcome(q: Query, today: int, replies: Replies, round1: real -> real, valid: Report -> bool)
      : Result<Report, Fault>
    requires WellFormed(q, today)
  {
    var invalid := Validate(q, today);
    if invalid.Some? then Err(Degraded(q, None, Reported(invalid.value)))
    else
      var located, fault := Located(q, replies.geocoding), FaultsMet(q, today, replies);
      if fault.Some? then Err(Degraded(q, PlaceIn(located), fault.value))
      else
        var report := Reporting(q, today, replies, round1);
        if HeaderValidates(q, located.value.zone, Some(located.value)) && valid(report) then Ok(report)
        else Err(Escaped(EnvelopeError))
  }

  // ---- What a success reports ----

  predicate OffsetReported(days: seq<ClimateDay>, k: int) {
    exists i :: 0 <= i < |days| && days[i].offset == k
  }

  lemma OffsetsAreReported(days: seq<ClimateDay>, k: nat)
    ensures OffsetReported(days, k) <==> k in Offsets(days)
  {
    if OffsetReported(days, k) {
      var i :| 0 <= i < |days| && days[i].offset == k;
      assert Offsets(days)[i] == k;
    }
    if k in Offsets(days) {
      var i :| 0 <= i < |days| && Offsets(days)[i] == k;
      assert days[i].offset == k;
    }
  }

  /** Of the first n days of the historical part, those some sampled year has both temperatures for are reported. */
  lemma ClimateReportsTheSampledDays(years: seq<seq<Record>>, n: nat, round1: real -> real, k: int)
    ensures OffsetReported(ClimateDays(years, n, round1), k) <==> 0 <= k < n && SampledByOne(years, k)
  {
    hide SampledByOne;
    hide ClimateDays;
    if k >= 0 {
      OffsetsAreReported(ClimateDays(years, n, round1), k);
      ClimateDaysAreTheSampledOnes(years, n, round1);
      SampledOffsetsAre(years, n, k);
    }
  }

  predicate IsBlock<T>(r: Reply<T>) { r.Answered? && r.body.Block? }

  /** The forecast was asked for by days, was read, and lists this one. */
  predicate Lists(q: Query, today: int, replies: Replies, day: int)
    requires Validate(q, today).None?
  {
    && !q.current && LivePart(today, q.from.value, q.to.value).Some?
    && IsBlock(replies.forecast) && day in replies.forecast.body.value
  }

  /** Some archive reply has both temperatures for the day at this offset. */
  predicate MeasuredBySome(replies: seq<Reply<seq<Record>>>, offset: int) {
    exists k :: 0 <= k < |replies| && IsBlock(replies[k]) && Measured(replies[k].body.value, offset)
  }

  /** Each archive reply that is read gives one year: its records, or none where it has no data. */
  lemma YearsAreReplies(replies: seq<Reply<seq<Record>>>, k: nat)
    requires AllRead(replies) && k < |replies|
    ensures |ReadAll(replies)| == |replies|
    ensures IsBlock(replies[k]) || replies[k] == Answered(NoBlock)
    ensures ReadAll(replies)[k] == if IsBlock(replies[k]) then replies[k].body.value else []
  {
    assert replies[k] in replies;
  }

  lemma SampledMeansMeasured(replies: seq<Reply<seq<Record>>>, offset: int)
    requires AllRead(replies)
    ensures SampledByOne(ReadAll(replies), offset) <==> MeasuredBySome(replies, offset)
  {
    var years := ReadAll(replies);
    if y :| y in years && Measured(y, offset) {
      var k :| 0 <= k < |years| && years[k] == y;
      assert replies[k] in replies && IsBlock(replies[k]);
    }
    if k :| 0 <= k < |replies| && IsBlock(replies[k]) && Measured(replies[k].body.value, offset) {
      assert years[k] in years;
    }
  }

  /** A historical day for which some sampled year has both temperatures. */
  predicate HasSamples(q: Query, today: int, replies: Replies, day: int)
    requires Validate(q, today).None?
  {
    var part := ArchivePart(q, today);
    Covers(part, day) && MeasuredBySome(replies.archive, day - part.value.first)
  }

  /** What a success was put together from. */
  lemma SuccessIs(q: Query, today: int, replies: Replies, round1: real -> real, valid: Report -> bool)
    requires WellFormed(q, today) && Outcome(q, today, replies, round1, valid).Ok?
    ensures Validate(q, today).None?
    ensures var report, part := Outcome(q, today, replies, round1, valid).value, ArchivePart(q, today);
      && (report.mode == LiveMode <==> part.None?)
      && (report.mode == HistoricalMode <==> LivePart(today, q.from.value, q.to.value).None?)
      && (forall day :: day in report.forecastDays <==> Lists(q, today, replies, day))
      && (part.Some? ==>
            && AllRead(replies.archive) && report.climateFrom == part.value.first && part.value.first <= part.value.last
            && report.climateDays == ClimateDays(ReadAll(replies.archive), part.value.last - part.value.first + 1, round1))
      && (part.None? ==> report.climateDays == [])
  {
    hide ClimateDays;
    FirstFaultIsFirst(replies.archive);
  }

  /** Which days a success reports: the days its forecast lists, whether they were asked for or not, and the historical
      days for which some sampled year has both temperatures.  No other day is ever reported, and the mode tells which
      parts the request has. */
  lemma SuccessReportsExactly(q: Query, today: int, replies: Replies, round1: real -> real, valid: Report -> bool, day: int)
    requires WellFormed(q, today) && Outcome(q, today, replies, round1, valid).Ok?
    ensures Validate(q, today).None? && (ArchivePart(q, today).Some? ==> AllRead(replies.archive))
    ensures Reports(Outcome(q, today, replies, round1, valid).value, day) <==>
      Lists(q, today, replies, day) || (ArchivePart(q, today).Some? && HasSamples(q, today, replies, day))
    ensures var mode := Outcome(q, today, replies, round1, valid).value.mode;
      && (mode == LiveMode <==> ArchivePart(q, today).None?)
      && (mode == HistoricalMode <==> LivePart(today, q.from.value, q.to.value).None?)
  {
    hide Outcome;
    hide Lists;
    hide ClimateDays;
    hide AllRead;
    hide ReadAll;
    hide SampledByOne;
    hide MeasuredBySome;
    SuccessIs(q, today, replies, round1, valid);
    var report, part := Outcome(q, today, replies, round1, valid).value, ArchivePart(q, today);
    assert ReportsClimate(report, day) <==> OffsetReported(report.climateDays, day - report.climateFrom);
    if part.Some? {
      ClimateReportsTheSampledDays(ReadAll(replies.archive), part.value.last - part.value.first + 1, round1,
                                   day - part.value.first);
      SampledMeansMeasured(replies.archive, day - part.value.first);
    }
  }

  /** On a live day nothing but the forecast counts. */
  lemma LiveDaysHaveNoSamples(q: Query, today: int, replies: Replies, day: int)
    requires Validate(q, today).None?
    requires Covers(LivePart(today, q.from.value, q.to.value), day)
    ensures !HasSamples(q, today, replies, day)
  {
    hide MeasuredBySome;
  }

  /** A success leaves no requested day out exactly when the forecast lists every live day, and every historical day is
      listed or was sampled: the code checks neither. */
  lemma SuccessCoversTheRangeExactlyWhen(q: Query, today: int, replies: Replies, round1: real -> real, valid: Report -> bool)
    requires WellFormed(q, today) && !q.current && Outcome(q, today, replies, round1, valid).Ok?
    ensures Validate(q, today).None? && (ArchivePart(q, today).Some? ==> AllRead(replies.archive))
    ensures (forall day :: q.from.value <= day <= q.to.value ==> Reports(Outcome(q, today, replies, round1, valid).value, day)) <==>
      && (forall day :: Covers(LivePart(today, q.from.value, q.to.value), day) ==> Lists(q, today, replies, day))
      && (forall day :: Covers(ArchivePart(q, today), day) ==>
            Lists(q, today, replies, day) || HasSamples(q, today, replies, day))
  {
    hide Outcome;
    hide Lists;
    hide HasSamples;
    hide Reports;
    hide AllRead;
    SuccessReportsExactly(q, today, replies, round1, valid, today);
    var live, part := LivePart(today, q.from.value, q.to.value), ArchivePart(q, today);
    var report := Outcome(q, today, replies, round1, valid).value;
    PartsPartitionTheRange(today, q.from.value, q.to.value);
    hide LivePart;
    hide HistoricalPart;
    forall day | Covers(live, day) ensures Reports(report, day) <==> Lists(q, today, replies, day) {
      SuccessReportsExactly(q, today, replies, round1, valid, day);
      if part.Some? { LiveDaysHaveNoSamples(q, today, replies, day); }
    }
    forall day | Covers(part, day)
      ensures Reports(report, day) <==> Lists(q, today, replies, day) || HasSamples(q, today, replies, day)
    {
      SuccessReportsExactly(q, today, replies, round1, valid, day);
    }
  }

  /** A trip wholly past the horizon whose archive answers hold no data is a success that reports no day at all, as
      long as the schema takes its location, time zone and place. */
  lemma EmptyArchivesAreASuccess(q: Query, today: int, geocoding: Reply<seq<Candidate>>, forecast: Reply<seq<int>>,
                                 round1: real -> real, day: int)
    requires WellFormed(q, today) && Validate(q, today).None? && Located(q, geocoding).Ok?
    requires q.from.value > today + MAX_FORECAST_DAYS_AHEAD
    ensures
      var none := Answered(NoBlock);
      var outcome := Outcome(q, today, Replies(geocoding, forecast, [none, none, none]), round1, r => true);
      && (outcome.Ok? <==> HeaderValidates(q, Located(q, geocoding).value.zone, Some(Located(q, geocoding).value)))
      && (outcome.Ok? ==> outcome.value.mode == HistoricalMode && !Reports(outcome.value, day))
  {
    var none: Reply<seq<Record>> := Answered(NoBlock);
    var replies := Replies(geocoding, forecast, [none, none, none]);
    FirstFaultIsFirst(replies.archive);
    assert AllRead(replies.archive);
    assert ReadAll(replies.archive) == [[], [], []];
    if Outcome(q, today, replies, round1, r => true).Ok? { SuccessReportsExactly(q, today, replies, round1, r => true, day); }
    assert !MeasuredBySome(replies.archive, day - ArchivePart(q, today).value.first);
  }

  // ---- What fails, and how ----

  /** There is a place to ask for: it is given, or the one picked from the geocoding answer has coordinates. */
  predicate PlaceFound(q: Query, geocoding: Reply<seq<Candidate>>) {
    q.coordinates.Some? ||
    (IsBlock(geocoding) && geocoding.body.value != [] && Pick(geocoding.body.value, q.hint).coordinates.Some?)
  }

  function ZoneOf(q: Query, geocoding: Reply<seq<Candidate>>): string
    requires PlaceFound(q, geocoding)
  {
    if q.coordinates.Some? then q.zone else Pick(geocoding.body.value, q.hint).zone
  }

  /** The schema takes this location and time zone and, where a place was found, that place. */
  predicate SchemaTakes(q: Query, zone: string, geocoding: Reply<seq<Candidate>>) {
    && q.location != "" && IsZone(OrUtc(zone))
    && (q.coordinates.None? && PlaceFound(q, geocoding) ==>
          var top := Pick(geocoding.body.value, q.hint); top.plainCountry && RoundsToEarth(top.coordinates.value))
  }

  /** An archive answer is read when it has records, or no data at all. */
  predicate IsRead(r: Reply<seq<Record>>) { r.Answered? && (r.body.Block? || r.body.NoBlock?) }

  predicate FirstUnread(replies: seq<Reply<seq<Record>>>, k: int) {
    0 <= k < |replies| && !IsRead(replies[k]) && forall i :: 0 <= i < k ==> IsRead(replies[i])
  }

  /** The exception that reading this body ends in. */
  predicate EscapesAs<T>(r: Reply<T>, escape: Escape) {
    (escape == AttributeError && r == Answered(NotAnObject)) || (escape == MemberError && r == Answered(Broken))
  }

  /** The same for the first archive reply that cannot be read; one that is no JSON is not caught there. */
  predicate ArchiveEscapesAs(replies: seq<Reply<seq<Record>>>, escape: Escape) {
    exists k :: 0 <= k < |replies| && FirstUnread(replies, k) &&
      (EscapesAs(replies[k], escape) || (escape == UnexpectedResponse && replies[k] == Answered(NotJson)))
  }

  /** The first archive reply that cannot be read was refused with this status. */
  predicate ArchiveFails(replies: seq<Reply<seq<Record>>>, status: Status) {
    exists k :: 0 <= k < |replies| && FirstUnread(replies, k) && replies[k] == Refused(status)
  }

  /** The failure this geocoding answer is reported as. */
  predicate GeocodingFails(r: Reply<seq<Candidate>>, hint: Option<string>, status: Status) {
    || r == Refused(status)
    || (status == ProviderError && (r == Answered(NotJson) ||
          (IsBlock(r) && r.body.value != [] && Pick(r.body.value, hint).coordinates.None?)))
    || (status == Unavailable && (r == Answered(NoBlock) || r == Answered(Block([]))))
  }

  predicate ForecastFails(r: Reply<seq<int>>, status: Status) {
    r == Refused(status) || (status == ProviderError && (r == Answered(NotJson) || r == Answered(NoBlock)))
  }

  /** The exchanges before the archive went well. */
  predicate ReachesArchive(q: Query, today: int, replies: Replies)
    requires Validate(q, today).None?
  {
    && PlaceFound(q, replies.geocoding) && ArchivePart(q, today).Some?
    && (LivePart(today, q.from.value, q.to.value).Some? ==> IsBlock(replies.forecast))
  }

  /** The first exchange that fails was answered by a body that ends in this exception. */
  predicate MeetsBadBody(q: Query, today: int, replies: Replies, escape: Escape)
    requires Validate(q, today).None?
  {
    || (q.coordinates.None? && EscapesAs(replies.geocoding, escape))
    || (PlaceFound(q, replies.geocoding) && LivePart(today, q.from.value, q.to.value).Some? &&
        EscapesAs(replies.forecast, escape))
    || (ReachesArchive(q, today, replies) && ArchiveEscapesAs(replies.archive, escape))
  }

  /** The first exchange that fails is to be reported with this status. */
  predicate MeetsFailure(q: Query, today: int, replies: Replies, status: Status)
    requires Validate(q, today).None?
  {
    || (q.coordinates.None? && GeocodingFails(replies.geocoding, q.hint, status))
    || (PlaceFound(q, replies.geocoding) && LivePart(today, q.from.value, q.to.value).Some? &&
        ForecastFails(replies.forecast, status))
    || (ReachesArchive(q, today, replies) && ArchiveFails(replies.archive, status))
  }

  /** No exchange fails. */
  predicate AllWell(q: Query, today: int, replies: Replies)
    requires Validate(q, today).None?
  {
    && PlaceFound(q, replies.geocoding)
    && (LivePart(today, q.from.value, q.to.value).Some? ==> IsBlock(replies.forecast))
    && (ArchivePart(q, today).Some? ==> forall k :: 0 <= k < |replies.archive| ==> IsRead(replies.archive[k]))
  }

  lemma UnreadExactlyWhen(replies: seq<Reply<seq<Record>>>, k: nat)
    requires k < |replies|
    ensures FirstUnread(replies, k) <==> FaultAt(replies, k)
    ensures !IsRead(replies[k]) ==> ReadArchive(replies[k]).Err?
  {
    if FaultAt(replies, k) {
      assert forall i :: 0 <= i < k ==> replies[..k][i] in replies[..k];
    }
  }

  lemma AllReadExactlyWhen(replies: seq<Reply<seq<Record>>>)
    ensures FirstFault(replies).None? <==> forall k :: 0 <= k < |replies| ==> IsRead(replies[k])
  {
    FirstFaultIsFirst(replies);
    if AllRead(replies) {
      assert forall k :: 0 <= k < |replies| ==> replies[k] in replies;
    }
  }

  /** What an archive fault comes from. */
  lemma ArchiveFaultIs(replies: seq<Reply<seq<Record>>>, fault: Fault)
    ensures FirstFault(replies) == Some(fault) <==>
      if fault.Reported? then ArchiveFails(replies, fault.status) else ArchiveEscapesAs(replies, fault.escape)
  {
    hide AllRead;
    FirstFaultIsFirst(replies);
    forall k: nat | k < |replies| && FirstUnread(replies, k)
      ensures ReadArchive(replies[k]).Err? && FirstFault(replies) == Some(ReadArchive(replies[k]).error)
    {
      UnreadExactlyWhen(replies, k);
      FaultDecides(replies, k);
    }
    if FirstFault(replies).Some? {
      var k: nat :| FaultAt(replies, k) && FirstFault(replies).value == ReadArchive(replies[k]).error;
      UnreadExactlyWhen(replies, k);
      hide FirstUnread;
      assert FirstUnread(replies, k);
    }
  }

  /** What geocoding comes to. */
  lemma LocatedExactlyWhen(q: Query, geocoding: Reply<seq<Candidate>>)
    ensures var located := Located(q, geocoding);
      && (located.Ok? <==> PlaceFound(q, geocoding))
      && (located.Ok? ==> located.value.zone == ZoneOf(q, geocoding))
      && (forall status :: located == Err(Reported(status)) <==>
            q.coordinates.None? && GeocodingFails(geocoding, q.hint, status))
      && (forall escape :: located == Err(Escaped(escape)) <==> q.coordinates.None? && EscapesAs(geocoding, escape))
  {
  }

  lemma HeaderExactlyWhen(q: Query, zone: string, geocoding: Reply<seq<Candidate>>)
    requires q.coordinates.Some? ==> OnEarth(q.coordinates.value)
    ensures HeaderValidates(q, zone, PlaceIn(Located(q, geocoding))) <==> SchemaTakes(q, zone, geocoding)
  {
    hide IsZone;
  }

  /** The faults that a valid request meets. */
  lemma FaultsExactlyWhen(q: Query, today: int, replies: Replies, status: Status, escape: Escape)
    requires Validate(q, today).None?
    ensures FaultsMet(q, today, replies) == Some(Reported(status)) <==> MeetsFailure(q, today, replies, status)
    ensures FaultsMet(q, today, replies) == Some(Escaped(escape)) <==> MeetsBadBody(q, today, replies, escape)
    ensures FaultsMet(q, today, replies).None? <==> AllWell(q, today, replies)
    ensures !MeetsBadBody(q, today, replies, EnvelopeError)
  {
    LocatedExactlyWhen(q, replies.geocoding);
    AllReadExactlyWhen(replies.archive);
    ArchiveFaultIs(replies.archive, Reported(status));
    ArchiveFaultIs(replies.archive, Escaped(escape));
    hide Validate;
    hide Located;
    hide PlaceFound;
    hide GeocodingFails;
    hide ArchiveFails;
  }

  predicate Escapes(outcome: Result<Report, Fault>) { outcome.Err? && outcome.error.Escaped? }

  /** An envelope is built and does not validate: for a refused request, for a failed exchange, or in the end. */
  ghost predicate EnvelopeRaises(q: Query, today: int, replies: Replies, round1: real -> real, valid: Report -> bool) {
    if Validate(q, today).Some? then q.location == "" || !IsZone(OrUtc(q.zone))
    else
      || (!SchemaTakes(q, q.zone, replies.geocoding) && exists status :: MeetsFailure(q, today, replies, status))
      || (AllWell(q, today, replies) && !Deliverable(q, today, replies, round1, valid))
  }

  /** The schema takes the finished envelope. */
  predicate Deliverable(q: Query, today: int, replies: Replies, round1: real -> real, valid: Report -> bool)
    requires Validate(q, today).None? && AllWell(q, today, replies)
  {
    FaultsExactlyWhen(q, today, replies, Unavailable, EnvelopeError);
    SchemaTakes(q, ZoneOf(q, replies.geocoding), replies.geocoding) && valid(Reporting(q, today, replies, round1))
  }

  /** Which exception escapes, and exactly when: an attribute error for a geocoding, forecast or archive body that is no
      object, a member error for one that cannot be read, an unexpected response for an archive body that is no JSON,
      each at the first exchange that fails; and an envelope error when the request or an exchange failed and the
      degraded envelope does not validate, or everything was read and the finished envelope does not. */
  lemma EscapesExactlyWhen(q: Query, today: int, replies: Replies, round1: real -> real, valid: Report -> bool,
                           escape: Escape)
    requires WellFormed(q, today)
    ensures Outcome(q, today, replies, round1, valid) == Err(Escaped(escape)) <==>
      if escape == EnvelopeError then EnvelopeRaises(q, today, replies, round1, valid)
      else Validate(q, today).None? && MeetsBadBody(q, today, replies, escape)
  {
    hide IsZone;
    hide RoundsToEarth;
    if Validate(q, today).None? {
      OutcomeIs(q, today, replies, round1, valid);
      hide Outcome;
      FaultsExactlyWhen(q, today, replies, Unavailable, escape);
      forall status ensures MeetsFailure(q, today, replies, status) <==>
        FaultsMet(q, today, replies) == Some(Reported(status))
      {
        FaultsExactlyWhen(q, today, replies, status, escape);
      }
    }
  }

  /** The outcome of a valid request, by what its exchanges come to. */
  lemma OutcomeIs(q: Query, today: int, replies: Replies, round1: real -> real, valid: Report -> bool)
    requires WellFormed(q, today) && Validate(q, today).None?
    ensures var outcome, fault := Outcome(q, today, replies, round1, valid), FaultsMet(q, today, replies);
      && (fault.None? <==> AllWell(q, today, replies))
      && (fault.Some? && fault.value.Escaped? ==> outcome == Err(fault.value))
      && (fault.Some? && fault.value.Reported? ==>
            outcome == Err(if SchemaTakes(q, q.zone, replies.geocoding) then fault.value else Escaped(EnvelopeError)))
      && (fault.None? ==>
            if Deliverable(q, today, replies, round1, valid) then outcome == Ok(Reporting(q, today, replies, round1))
            else outcome == Err(Escaped(EnvelopeError)))
  {
    FaultsExactlyWhen(q, today, replies, Unavailable, EnvelopeError);
    LocatedExactlyWhen(q, replies.geocoding);
    HeaderExactlyWhen(q, q.zone, replies.geocoding);
    if Located(q, replies.geocoding).Ok? {
      HeaderExactlyWhen(q, Located(q, replies.geocoding).value.zone, replies.geocoding);
    }
    hide Validate;
    hide FaultsMet;
    hide Located;
    hide HeaderValidates;
    hide SchemaTakes;
    hide AllWell;
    hide Reporting;
  }

  /** Which status a valid request is answered with, exactly: that of the first exchange that fails, if its envelope
      validates: what the provider was refused with, an unavailable place for an empty geocoding answer, and a provider
      error for a body that is no JSON, a forecast without its block, or a place without coordinates. */
  lemma ReportedStatusExactlyWhen(q: Query, today: int, replies: Replies, round1: real -> real, valid: Report -> bool,
                                  status: Status)
    requires WellFormed(q, today) && Validate(q, today).None?
    ensures Outcome(q, today, replies, round1, valid) == Err(Reported(status)) <==>
      SchemaTakes(q, q.zone, replies.geocoding) && MeetsFailure(q, today, replies, status)
  {
    OutcomeIs(q, today, replies, round1, valid);
    FaultsExactlyWhen(q, today, replies, status, EnvelopeError);
    hide Outcome;
    hide FaultsMet;
  }

  predicate ReportsFailure(q: Query, today: int, replies: Replies, round1: real -> real, valid: Report -> bool)
    requires WellFormed(q, today)
  {
    var outcome := Outcome(q, today, replies, round1, valid);
    outcome.Err? && outcome.error.Reported?
  }

  /** Some failure of this request can be reported, rather than end in an exception, exactly when its location is not
      empty and its time zone is one the schema takes: a caller can tell beforehand. */
  lemma FailuresAreReportedExactlyWhen(q: Query, today: int, round1: real -> real, valid: Report -> bool)
    requires WellFormed(q, today)
    ensures
      (exists replies :: ReportsFailure(q, today, replies, round1, valid)) <==> HeaderValidates(q, q.zone, None)
  {
    if HeaderValidates(q, q.zone, None) {
      var replies := Replies(Refused(Unavailable), Refused(Unavailable), [Refused(Unavailable)]);
      assert ReportsFailure(q, today, replies, round1, valid);
    }
  }

  /** A named place can be answered for, whatever the time zone of the query. */
  lemma GeocodedSuccess(q: Query, today: int, round1: real -> real, valid: Report -> bool) returns (replies: Replies)
    requires WellFormed(q, today) && Validate(q, today).None? && q.coordinates.None? && q.location != ""
    requires forall report :: valid(report)
    ensures Outcome(q, today, replies, round1, valid).Ok?
  {
    var top := Candidate("", Some(Coordinates(0.0, 0.0)), "", true);
    replies := Replies(Answered(Block([top])), Answered(Block([])), []);
    if q.hint.Some? { PicksTheFirstInCountry([top], q.hint.value); }
    assert Located(q, replies.geocoding) == Ok(Place(Coordinates(0.0, 0.0), "", true));
    assert FaultsMet(q, today, replies).None?;
  }

  lemma SuccessNeedsHeader(q: Query, today: int, replies: Replies, round1: real -> real, valid: Report -> bool)
    requires WellFormed(q, today) && Outcome(q, today, replies, round1, valid).Ok?
    ensures Validate(q, today).None? && q.location != ""
    ensures q.coordinates.Some? ==> IsZone(OrUtc(q.zone))
  {
  }

  /** Whatever the network answers, the request ends in an exception exactly when its location is empty, or its time
      zone is none the schema takes and either the request is refused or it names coordinates, so that no geocoded
      time zone replaces its own. */
  lemma AlwaysEscapesExactlyWhen(q: Query, today: int, round1: real -> real, valid: Report -> bool)
    requires WellFormed(q, today) && forall report :: valid(report)
    ensures (forall replies :: Escapes(Outcome(q, today, replies, round1, valid))) <==>
      || q.location == ""
      || (!IsZone(OrUtc(q.zone)) && (Validate(q, today).Some? || q.coordinates.Some?))
  {
    hide Outcome;
    hide IsZone;
    FailuresAreReportedExactlyWhen(q, today, round1, valid);
    forall replies
      ensures Escapes(Outcome(q, today, replies, round1, valid)) ==
        (Outcome(q, today, replies, round1, valid).Err? && !ReportsFailure(q, today, replies, round1, valid))
    {
    }
    if q.location != "" && !IsZone(OrUtc(q.zone)) && Validate(q, today).None? && q.coordinates.None? {
      var replies := GeocodedSuccess(q, today, round1, valid);
    } else {
      forall replies | Outcome(q, today, replies, round1, valid).Ok?
        ensures Validate(q, today).None? && q.location != "" && (q.coordinates.Some? ==> IsZone(OrUtc(q.zone)))
      {
        SuccessNeedsHeader(q, today, replies, round1, valid);
      }
    }
  }

  /** A request for an empty location is refused as invalid, and then raises while the refusal is reported. */
  lemma EmptyLocationEscapes(day: int, replies: Replies, round1: real -> real, valid: Report -> bool)
    ensures Validate(Query("", "UTC", Some(day), Some(day), false, None, None), day) == Some(InvalidRequest)
    ensures Outcome(Query("", "UTC", Some(day), Some(day), false, None, None), day, replies, round1, valid)
            == Err(Escaped(EnvelopeError))
  {
  }

  lemma {:induction false} LettersAre(s: string, k: nat)
    requires k < Letters(s)
    ensures IsLetter(s[k])
  {
    hide IsLetter;
    if k > 0 { LettersAre(s[1..], k - 1); }
  }

  predicate AllLetters(s: string) { s != "" && forall k :: 0 <= k < |s| ==> IsLetter(s[k]) }

  lemma {:induction false} LettersAreMaximal(s: string, n: nat)
    requires n <= |s|
    ensures Letters(s) == n <==> (forall k :: 0 <= k < n ==> IsLetter(s[k])) && (n < |s| ==> !IsLetter(s[n]))
  {
    hide IsLetter;
    if s != "" && n > 0 {
      LettersAreMaximal(s[1..], n - 1);
      assert forall k :: 1 <= k < n ==> s[k] == s[1..][k - 1];
    }
  }

  /** The pattern says what it means: one word, or a word, a slash and what is left. */
  lemma WordsExactlyWhen(s: string, more: nat)
    ensures AreWords(s, more) <==>
      if more == 0 then AllLetters(s)
      else exists i :: 0 <= i < |s| && s[i] == '/' && AllLetters(s[..i]) && AreWords(s[i + 1..], more - 1)
  {
    LettersAreMaximal(s, Letters(s));
    if more == 0 {
      LettersAreMaximal(s, |s|);
    } else {
      if AreWords(s, more) {
        assert forall k :: 0 <= k < Letters(s) ==> s[..Letters(s)][k] == s[k];
      }
      if i :| 0 <= i < |s| && s[i] == '/' && AllLetters(s[..i]) && AreWords(s[i + 1..], more - 1) {
        assert forall k :: 0 <= k < i ==> s[..i][k] == s[k];
        LettersAreMaximal(s, i);
      }
    }
  }

  lemma {:induction false} WordsAreLetters(s: string, more: nat, k: nat)
    requires AreWords(s, more) && k < |s|
    ensures IsLetter(s[k]) || s[k] == '/'
  {
    hide IsLetter;
    hide Letters;
    var n := Letters(s);
    if k < n {
      LettersAre(s, k);
    } else if k > n {
      WordsAreLetters(s[n + 1..], more - 1, k - n - 1);
    }
  }

  /** The pattern refuses genuine time zones, such as America/Port-au-Prince, for their hyphens. */
  lemma HyphenatedZonesAreRefused(zone: string, k: nat)
    requires k < |zone| && zone[k] == '-'
    ensures !IsZone(zone)
  {
    hide AreWords;
    forall more: nat ensures !AreWords(Line(zone), more) {
      if AreWords(Line(zone), more) { WordsAreLetters(Line(zone), more, k); }
    }
  }

  /** Where the geocoder, or a query with coordinates, names such a time zone, a request that goes well ends in an
      exception. */
  lemma NoWeatherInHyphenatedZones(q: Query, today: int, replies: Replies, round1: real -> real, valid: Report -> bool, k: nat)
    requires WellFormed(q, today) && Validate(q, today).None? && FaultsMet(q, today, replies).None?
    requires var zone := Located(q, replies.geocoding).value.zone; k < |zone| && zone[k] == '-'
    ensures Outcome(q, today, replies, round1, valid) == Err(Escaped(EnvelopeError))
  {
    HyphenatedZonesAreRefused(Located(q, replies.geocoding).value.zone, k);
  }
}
