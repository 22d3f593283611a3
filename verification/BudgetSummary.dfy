/** The per-run budget summary (orchestration/system_a/budget_summary.py): cheapest prices, one FX quote at most, and
    a normalized amount only where that quote, or no conversion at all, gives one. */
module BudgetSummary {
  import opened Common
  import opened Money

  datatype Cash = Cash(amount: int, currency: string)

  /** One recorded tool call; a listed price without an amount is None. */
  datatype Observation = Observation(action: string, success: bool, prices: seq<Option<Cash>>)

  /** A successful observation of this action that lists at least one price. */
  predicate Prices(o: Observation, action: string) {
    o.action == action && o.success && exists i :: 0 <= i < |o.prices| && o.prices[i].Some?
  }

  /** The first of the least prices. */
  ghost predicate IsCheapest(c: Cash, prices: seq<Option<Cash>>) {
    exists i :: 0 <= i < |prices| && CheapestAt(c, prices, i)
  }

  ghost predicate CheapestAt(c: Cash, prices: seq<Option<Cash>>, i: nat)
    requires i < |prices|
  {
    prices[i] == Some(c) &&
    forall j :: 0 <= j < |prices| && prices[j].Some? ==>
      c.amount <= prices[j].value.amount && (j < i ==> c.amount < prices[j].value.amount)
  }

  /** Observation k is the first to list prices, and c is the least of them. */
  ghost predicate FirstToPrice(observations: seq<Observation>, action: string, k: nat, c: Cash)
    requires k < |observations|
  {
    Prices(observations[k], action) && IsCheapest(c, observations[k].prices) &&
    forall j :: 0 <= j < k ==> !Prices(observations[j], action)
  }

  /** The cheapest price of the first observation that lists any; later observations are never looked at. */
  method CheapestPrice(observations: seq<Observation>, action: string) returns (r: Option<Cash>)
    ensures r.None? <==> forall k :: 0 <= k < |observations| ==> !Prices(observations[k], action)
    ensures r.Some? ==> exists k :: 0 <= k < |observations| && FirstToPrice(observations, action, k, r.value)
  {
    for k := 0 to |observations|
      invariant forall j :: 0 <= j < k ==> !Prices(observations[j], action)
    {
      var o := observations[k];
      if o.action == action && o.success {
        r := None;
        ghost var at := 0;
        for i := 0 to |o.prices|
          invariant r.None? <==> forall j :: 0 <= j < i ==> o.prices[j].None?
          invariant r.Some? ==> at < i && CheapestAt(r.value, o.prices[..i], at)
        {
          assert o.prices[..i + 1] == o.prices[..i] + [o.prices[i]];
          if o.prices[i].Some? && (r.None? || o.prices[i].value.amount < r.value.amount) {
            r, at := o.prices[i], i;
          }
        }
        assert o.prices[..|o.prices|] == o.prices;
        if r.Some? {
          assert FirstToPrice(observations, action, k, r.value);
          return;
        }
      }
    }
    return None;
  }

  method CheapestStayTotal(observations: seq<Observation>, nights: Option<nat>) returns (r: Option<Cash>)
    ensures r.None? <==> nights.None? || nights.value == 0 ||
                         forall k :: 0 <= k < |observations| ==> !Prices(observations[k], "search_stays")
    ensures r.Some? ==> exists k, c :: (0 <= k < |observations| && FirstToPrice(observations, "search_stays", k, c) &&
                                        r.value == Cash(c.amount * nights.value, c.currency))
  {
    if nights.None? || nights.value == 0 {
      return None;
    }
    var nightly := CheapestPrice(observations, "search_stays");
    return if nightly.None? then None else Some(Cash(nightly.value.amount * nights.value, nightly.value.currency));
  }

  datatype Entry = Entry(raw: Cash, normalized: Option<Cash>)

  /** An error is Decimal's, which the summary lets out; a quote for another currency only leaves the price unconverted. */
  function MakeEntry(raw: Option<Cash>, budgetCurrency: string, quote: Option<FxQuote>, ar: Arithmetic)
      : Result<Option<Entry>, ConversionError>
    requires quote.Some? ==> quote.value.rate > 0.0
  {
    if raw.None? then Ok(None)
    else
      var own := Cash(raw.value.amount, Upper(raw.value.currency));
      if own.currency == budgetCurrency then Ok(Some(Entry(own, Some(own))))
      else if quote.None? then Ok(Some(Entry(own, None)))
      else
        match Convert(own.amount, quote.value, own.currency, budgetCurrency, ar)
        case Ok(converted) => Ok(Some(Entry(own, Some(Cash(converted, budgetCurrency)))))
        case Err(Unavailable) => Ok(Some(Entry(own, None)))
        case Err(InvalidOperation) => Err(InvalidOperation)
  }

  /** The currencies of the prices that are not the budget's. */
  function Foreign(flight: Option<Cash>, stay: Option<Cash>, budgetCurrency: string): set<string> {
    (if flight.Some? then {Upper(flight.value.currency)} else {}) +
    (if stay.Some? then {Upper(stay.value.currency)} else {}) - {budgetCurrency}
  }

  /** The quote fetched is for this price's currency, and converting by it raises. */
  predicate Overflows(price: Option<Cash>, budgetCurrency: string, fetched: Option<string>,
                      fetch: (string, string) -> Option<FxQuote>, ar: Arithmetic)
    requires fetched.Some? && fetch(budgetCurrency, fetched.value).Some? ==>
      fetch(budgetCurrency, fetched.value).value.rate > 0.0
  {
    && price.Some? && fetched == Some(Upper(price.value.currency)) && fetch(budgetCurrency, fetched.value).Some?
    && Convert(price.value.amount, fetch(budgetCurrency, fetched.value).value, fetched.value, budgetCurrency, ar)
         == Err(InvalidOperation)
  }

  /** A price of ten to the 28th minor units, worth two units of the budget's currency each, is one that overflows. */
  lemma HugePricesOverflow(ar: Arithmetic)
    requires IsDecimal(ar)
    ensures Overflows(Some(Cash(10_000_000_000_000_000_000_000_000_000, "EUR")), "TRY", Some("EUR"),
                      (base, quote) => Some(FxQuote(base, quote, 0.5)), ar)
  {
    hide Convert;
    var q := FxQuote("TRY", "EUR", 0.5);
    assert Upper("EUR") == "EUR" && Upper("TRY") == "TRY";
    DecimalConversion(10_000_000_000_000_000_000_000_000_000, q, "EUR", "TRY", ar);
  }

  /** What the summary lets out: the exception of a fetch whose envelope does not validate, or Decimal's. */
  datatype SummaryError = FetchRaised | ConversionRaised(error: ConversionError)

  predicate Raised(budgetCurrency: string, fetched: Option<string>, raises: (string, string) -> bool) {
    fetched.Some? && raises(budgetCurrency, fetched.value)
  }

  /** `fetch(base, quote)` is the usable quote for that pair, None when the fetch failed; `raises` says for which pairs
      the fetch ends in an exception instead. */
  method BuildEntries(budgetCurrency: string, flight: Option<Cash>, stay: Option<Cash>,
                      fetch: (string, string) -> Option<FxQuote>, raises: (string, string) -> bool, ar: Arithmetic)
    returns (entries: Result<(Option<Entry>, Option<Entry>), SummaryError>, fetched: Option<string>)
    requires Upper(budgetCurrency) == budgetCurrency
    requires forall b, q :: fetch(b, q).Some? ==> fetch(b, q).value.rate > 0.0 && fetch(b, q).value.base == b && fetch(b, q).value.quote == q
    // At most one quote is fetched, against the budget's currency, and only if some price needs it.
    ensures fetched.Some? <==> Foreign(flight, stay, budgetCurrency) != {}
    ensures fetched.Some? ==> fetched.value in Foreign(flight, stay, budgetCurrency)
    // The summary raises exactly when its fetch does, or converting one of the prices.
    ensures entries == Err(FetchRaised) <==> Raised(budgetCurrency, fetched, raises)
    ensures entries == Err(ConversionRaised(InvalidOperation)) <==>
      && !Raised(budgetCurrency, fetched, raises)
      && (Overflows(flight, budgetCurrency, fetched, fetch, ar) || Overflows(stay, budgetCurrency, fetched, fetch, ar))
    ensures entries.Err? ==> entries.error in {FetchRaised, ConversionRaised(InvalidOperation)}
    ensures entries.Ok? ==>
      && (entries.value.0.Some? <==> flight.Some?) && (entries.value.1.Some? <==> stay.Some?)
      && (flight.Some? ==> Honest(entries.value.0.value, flight.value, budgetCurrency, fetched, fetch, ar))
      && (stay.Some? ==> Honest(entries.value.1.value, stay.value, budgetCurrency, fetched, fetch, ar))
  {
    hide Convert;
    fetched := None;
    var quote := None;
    var others := Foreign(flight, stay, budgetCurrency);
    if others != {} {
      var other :| other in others;
      fetched := Some(other);
      if raises(budgetCurrency, other) {
        return Err(FetchRaised), fetched;
      }
      quote := fetch(budgetCurrency, other);
    }
    var flightEntry := Normalize(flight, budgetCurrency, fetched, quote, fetch, ar);
    if flightEntry.Err? {
      return Err(ConversionRaised(flightEntry.error)), fetched;
    }
    var stayEntry := Normalize(stay, budgetCurrency, fetched, quote, fetch, ar);
    if stayEntry.Err? {
      return Err(ConversionRaised(stayEntry.error)), fetched;
    }
    entries := Ok((flightEntry.value, stayEntry.value));
  }

  /** The entry of one price, given the quote that was fetched. */
  method Normalize(price: Option<Cash>, budgetCurrency: string, ghost fetched: Option<string>, quote: Option<FxQuote>,
                   ghost fetch: (string, string) -> Option<FxQuote>, ar: Arithmetic)
      returns (entry: Result<Option<Entry>, ConversionError>)
    requires Upper(budgetCurrency) == budgetCurrency
    requires forall b, q :: fetch(b, q).Some? ==> fetch(b, q).value.rate > 0.0 && fetch(b, q).value.base == b && fetch(b, q).value.quote == q
    requires quote == if fetched.Some? then fetch(budgetCurrency, fetched.value) else None
    requires fetched.Some? ==> Upper(fetched.value) == fetched.value != budgetCurrency
    ensures entry.Err? <==> Overflows(price, budgetCurrency, fetched, fetch, ar)
    ensures entry.Err? ==> entry.error == InvalidOperation
    ensures entry.Ok? ==> (entry.value.Some? <==> price.Some?)
    ensures entry.Ok? && price.Some? ==> Honest(entry.value.value, price.value, budgetCurrency, fetched, fetch, ar)
  {
    if price.Some? {
      UpperHasNoLowerCase(price.value.currency);
      if quote.Some? {
        ConvertibleExactlyWhen(price.value.amount, quote.value, Upper(price.value.currency), budgetCurrency, ar);
      }
    }
    hide Convert;
    entry := MakeEntry(price, budgetCurrency, quote, ar);
  }

  /** The raw amount is untouched, and there is a normalized one exactly when none is needed or the one quote fetched
      is for this very currency; it is then that quote's conversion. */
  ghost predicate Honest(e: Entry, price: Cash, budgetCurrency: string, fetched: Option<string>,
                         fetch: (string, string) -> Option<FxQuote>, ar: Arithmetic)
    requires forall b, q :: fetch(b, q).Some? ==> fetch(b, q).value.rate > 0.0
  {
    var currency := Upper(price.currency);
    e.raw == Cash(price.amount, currency) &&
    if currency == budgetCurrency then e.normalized == Some(e.raw)
    else if fetched == Some(currency) && fetch(budgetCurrency, currency).Some? then
      e.normalized.Some? && e.normalized.value.currency == budgetCurrency &&
      Convert(price.amount, fetch(budgetCurrency, currency).value, currency, budgetCurrency, ar) == Ok(e.normalized.value.amount)
    else e.normalized.None?
  }

  /** With one foreign currency at most, as the module assumes, a successful fetch normalizes every price; with two
      different ones, exactly one of the prices stays unconverted, whichever the set happens to yield. */
  lemma OneQuoteIsEnoughExactlyWhen(budgetCurrency: string, flight: Cash, stay: Cash, flightEntry: Entry, stayEntry: Entry,
                                    fetched: Option<string>, fetch: (string, string) -> Option<FxQuote>, ar: Arithmetic)
    requires forall b, q :: fetch(b, q).Some? ==> fetch(b, q).value.rate > 0.0
    requires fetched.Some? <==> Foreign(Some(flight), Some(stay), budgetCurrency) != {}
    requires fetched.Some? ==> fetched.value in Foreign(Some(flight), Some(stay), budgetCurrency) &&
                               fetch(budgetCurrency, fetched.value).Some?
    requires Honest(flightEntry, flight, budgetCurrency, fetched, fetch, ar)
    requires Honest(stayEntry, stay, budgetCurrency, fetched, fetch, ar)
    ensures flightEntry.normalized.Some? && stayEntry.normalized.Some? <==>
      Upper(flight.currency) == Upper(stay.currency) || budgetCurrency in {Upper(flight.currency), Upper(stay.currency)}
    ensures flightEntry.normalized.Some? || stayEntry.normalized.Some?
  {
    var f, s := Upper(flight.currency), Upper(stay.currency);
    assert f != budgetCurrency ==> f in Foreign(Some(flight), Some(stay), budgetCurrency);
    assert s != budgetCurrency ==> s in Foreign(Some(flight), Some(stay), budgetCurrency);
  }
}
