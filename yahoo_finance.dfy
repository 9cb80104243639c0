/** `get_stock_price` of APIs/yahoo_finance.py after its two fetches: the
    choice of price and currency, the rendering of the last trade time (UTC,
    or shifted three hours back for Brazilian quotes), the translation of the
    market state, and the six-field quote it returns. What the fetches
    produced is the `Fetched` record; the fetching itself is not modelled. */
module YahooFinance {
  import opened Wrappers
  import opened Text
  import opened Calendar

  /** A key of a Python dict: absent, present with `None`, or present with a value.
      `dict.get(key, default)` returns the default only for an absent key. */
  datatype Entry<T> = Missing | Null | Present(value: T)

  /** `d.get(key, default)` */
  function Get<T>(e: Entry<T>, default: Option<T>): (r: Option<T>)
    ensures e.Missing? ==> r == default
    ensures e.Null? ==> r == None
    ensures e.Present? ==> r == Some(e.value)
  {
    match e
    case Missing => default
    case Null => None
    case Present(v) => Some(v)
  }

  /** `stock.fast_info`: its last price and currency, either of which may be `None`. */
  datatype FastInfo = FastInfo(lastPrice: Option<real>, currency: Option<string>)

  /** The keys of `stock.info` that the function reads. */
  datatype Info = Info(
    currentPrice: Entry<real>,
    regularMarketPrice: Entry<real>,
    currency: Entry<string>,
    regularMarketTime: Entry<nat>,
    marketState: Entry<string>)

  /** What the two fetches produced: `fast` is `None` when reading `fast_info`
      raised `AttributeError`; `info` is `None` when reading `info` raised. */
  datatype Fetched = Fetched(fast: Option<FastInfo>, info: Option<Info>)

  /** The quote `get_stock_price` returns. `None` is JSON `null`. */
  datatype Quote = Quote(
    ticker: string,
    currency: Option<string>,
    price: real,
    lastUpdate: string,
    marketStatus: Option<string>,
    rawState: Option<string>)
  {
    /** The dict as the source builds it. */
    function ToJson(): (j: Json)
      ensures j.JObj?
      ensures j.fields.Keys == {"ticker", "currency", "price", "last_update", "market_status", "raw_state"}
      ensures j.fields["ticker"] == JStr(ticker) && j.fields["raw_state"] == OptionalString(rawState)
    {
      JObj(map[
        "ticker" := JStr(ticker),
        "currency" := OptionalString(currency),
        "price" := JNum(price),
        "last_update" := JStr(lastUpdate),
        "market_status" := OptionalString(marketStatus),
        "raw_state" := OptionalString(rawState)])
    }
  }

  /** Python truthiness of an optional price: `None` and zero are false. */
  function PriceTruthy(p: Option<real>): (truthy: bool)
    ensures truthy <==> p != None && p != Some(0.0)
  {
    p.Some? && p.value != 0.0
  }

  /** The price and currency after both tiers: the fast path's values, or, when
      it gave no price and `info` was read, `currentPrice or regularMarketPrice`
      with `info`'s currency (default "BRL"). */
  function PriceAndCurrency(f: Fetched): (r: (Option<real>, Option<string>))
    ensures f.fast.Some? && f.fast.value.lastPrice.Some? ==> r == (f.fast.value.lastPrice, f.fast.value.currency)
    ensures f.info.None? ==> r == if f.fast.None? then (None, Some("BRL")) else (f.fast.value.lastPrice, f.fast.value.currency)
    ensures (f.fast.None? || f.fast.value.lastPrice.None?) && f.info.Some? ==>
      && r.1 == Get(f.info.value.currency, Some("BRL"))
      && (PriceTruthy(r.0) <==> PriceTruthy(Get(f.info.value.currentPrice, None))
                                || PriceTruthy(Get(f.info.value.regularMarketPrice, None)))
  {
    var (price, currency) :=
      match f.fast
      case None => (None, Some("BRL"))
      case Some(fi) => (fi.lastPrice, fi.currency);
    match f.info
    case Some(info) =>
      if price.None? then
        var current := Get(info.currentPrice, None);
        (if PriceTruthy(current) then current else Get(info.regularMarketPrice, None),
         Get(info.currency, Some("BRL")))
      else (price, currency)
    case None => (price, currency)
  }

  /** `info.get('regularMarketTime')`, or `None` when `info` could not be read. */
  function MarketTime(f: Fetched): (ts: Option<nat>)
    ensures ts.Some? <==> f.info.Some? && f.info.value.regularMarketTime.Present?
    ensures ts.Some? ==> ts.value == f.info.value.regularMarketTime.value
  {
    match f.info
    case Some(info) => Get(info.regularMarketTime, None)
    case None => None
  }

  /** `info.get('marketState', 'UNKNOWN')`, or "UNKNOWN" when `info` could not be read. */
  function MarketState(f: Fetched): (r: Option<string>)
    ensures f.info.None? ==> r == Some("UNKNOWN")
    ensures f.info.Some? && f.info.value.marketState.Missing? ==> r == Some("UNKNOWN")
    ensures f.info.Some? && f.info.value.marketState.Null? ==> r == None
    ensures f.info.Some? && f.info.value.marketState.Present? ==> r == Some(f.info.value.marketState.value)
  {
    match f.info
    case Some(info) => Get(info.marketState, Some("UNKNOWN"))
    case None => Some("UNKNOWN")
  }

  /** The fixed offset, three hours, by which Brazilian quotes are shown behind UTC. */
  const BrtOffsetSeconds := 10800

  /** `ticker.upper()` contains ".SA", or the currency is "BRL". */
  function IsBrazilian(ticker: string, currency: Option<string>): (brazilian: bool)
    ensures brazilian <==> IsInfix(".SA", Upper(ticker)) || currency == Some("BRL")
  {
    HasInfix(Upper(ticker), ".SA") || currency == Some("BRL")
  }

  /** `strftime('%d/%m/%Y %H:%M:%S (BRT)')` */
  function FormatBrt(t: DateTime): (s: string)
    requires t.Valid() && 1000 <= t.year <= 9999
    ensures |s| == 25 && s[19..] == " (BRT)"
  {
    [DigitAt(t.day, 10), DigitAt(t.day, 1), '/', DigitAt(t.month, 10), DigitAt(t.month, 1), '/',
     DigitAt(t.year, 1000), DigitAt(t.year, 100), DigitAt(t.year, 10), DigitAt(t.year, 1), ' ',
     DigitAt(t.hour, 10), DigitAt(t.hour, 1), ':', DigitAt(t.minute, 10), DigitAt(t.minute, 1), ':',
     DigitAt(t.second, 10), DigitAt(t.second, 1)] + " (BRT)"
  }

  /** `strftime('%Y-%m-%d %H:%M:%S (UTC)')` */
  function FormatUtc(t: DateTime): (s: string)
    requires t.Valid() && 1000 <= t.year <= 9999
    ensures |s| == 25 && s[19..] == " (UTC)"
  {
    [DigitAt(t.year, 1000), DigitAt(t.year, 100), DigitAt(t.year, 10), DigitAt(t.year, 1), '-',
     DigitAt(t.month, 10), DigitAt(t.month, 1), '-', DigitAt(t.day, 10), DigitAt(t.day, 1), ' ',
     DigitAt(t.hour, 10), DigitAt(t.hour, 1), ':', DigitAt(t.minute, 10), DigitAt(t.minute, 1), ':',
     DigitAt(t.second, 10), DigitAt(t.second, 1)] + " (UTC)"
  }

  /** The Brasília layout: two-digit day and month, four-digit year, two-digit
      hour, minute and second, each zero-padded (and so read back by
      `DecimalValue`), at fixed positions between fixed separators. */
  lemma FormatBrtLayout(t: DateTime)
    requires t.Valid() && 1000 <= t.year <= 9999
    ensures var s := FormatBrt(t);
      && s[..2] == Decimal(t.day, 2) && s[2] == '/' && s[3..5] == Decimal(t.month, 2)
      && s[5] == '/' && s[6..10] == Decimal(t.year, 4) && s[10] == ' '
      && s[11..13] == Decimal(t.hour, 2) && s[13] == ':' && s[14..16] == Decimal(t.minute, 2)
      && s[16] == ':' && s[17..19] == Decimal(t.second, 2)
  {
    var s := FormatBrt(t);
    TwoDigitsAt(s, 0, t.day);
    TwoDigitsAt(s, 3, t.month);
    FourDigitsAt(s, 6, t.year);
    TwoDigitsAt(s, 11, t.hour);
    TwoDigitsAt(s, 14, t.minute);
    TwoDigitsAt(s, 17, t.second);
  }

  /** The UTC layout: four-digit year, then two-digit month, day, hour,
      minute and second, each zero-padded, between fixed separators. */
  lemma FormatUtcLayout(t: DateTime)
    requires t.Valid() && 1000 <= t.year <= 9999
    ensures var s := FormatUtc(t);
      && s[..4] == Decimal(t.year, 4) && s[4] == '-' && s[5..7] == Decimal(t.month, 2)
      && s[7] == '-' && s[8..10] == Decimal(t.day, 2) && s[10] == ' '
      && s[11..13] == Decimal(t.hour, 2) && s[13] == ':' && s[14..16] == Decimal(t.minute, 2)
      && s[16] == ':' && s[17..19] == Decimal(t.second, 2)
  {
    var s := FormatUtc(t);
    FourDigitsAt(s, 0, t.year);
    TwoDigitsAt(s, 5, t.month);
    TwoDigitsAt(s, 8, t.day);
    TwoDigitsAt(s, 11, t.hour);
    TwoDigitsAt(s, 14, t.minute);
    TwoDigitsAt(s, 17, t.second);
  }

  /** The Brasília rendering loses nothing: equal strings come from equal
      dates and times. */
  lemma FormatBrtInjective(t1: DateTime, t2: DateTime)
    requires t1.Valid() && 1000 <= t1.year <= 9999
    requires t2.Valid() && 1000 <= t2.year <= 9999
    requires FormatBrt(t1) == FormatBrt(t2)
    ensures t1 == t2
  {
    FormatBrtLayout(t1);
    FormatBrtLayout(t2);
    var s := FormatBrt(t1);
    assert Decimal(t1.day, 2) == s[..2] == Decimal(t2.day, 2);
    assert Decimal(t1.month, 2) == s[3..5] == Decimal(t2.month, 2);
    assert Decimal(t1.year, 4) == s[6..10] == Decimal(t2.year, 4);
    assert Decimal(t1.hour, 2) == s[11..13] == Decimal(t2.hour, 2);
    assert Decimal(t1.minute, 2) == s[14..16] == Decimal(t2.minute, 2);
    assert Decimal(t1.second, 2) == s[17..19] == Decimal(t2.second, 2);
  }

  /** The UTC rendering loses nothing either. */
  lemma FormatUtcInjective(t1: DateTime, t2: DateTime)
    requires t1.Valid() && 1000 <= t1.year <= 9999
    requires t2.Valid() && 1000 <= t2.year <= 9999
    requires FormatUtc(t1) == FormatUtc(t2)
    ensures t1 == t2
  {
    FormatUtcLayout(t1);
    FormatUtcLayout(t2);
    var s := FormatUtc(t1);
    assert Decimal(t1.year, 4) == s[..4] == Decimal(t2.year, 4);
    assert Decimal(t1.month, 2) == s[5..7] == Decimal(t2.month, 2);
    assert Decimal(t1.day, 2) == s[8..10] == Decimal(t2.day, 2);
    assert Decimal(t1.hour, 2) == s[11..13] == Decimal(t2.hour, 2);
    assert Decimal(t1.minute, 2) == s[14..16] == Decimal(t2.minute, 2);
    assert Decimal(t1.second, 2) == s[17..19] == Decimal(t2.second, 2);
  }

  /** The `last_update` string: "N/A" for a missing or zero timestamp, else
      the instant in Brasília display time or in UTC. `fromtimestamp` raises
      (outside any handler) for an instant past year 9999. */
  function LastUpdate(ticker: string, currency: Option<string>, ts: Option<nat>): (r: Result<string>)
    ensures r.Err? <==> ts.Some? && ts.value > MaxTimestamp
    ensures r.Ok? ==> (r.value == "N/A" <==> ts.None? || ts.value == 0)
    ensures r.Ok? && r.value != "N/A" ==>
      |r.value| == 25 && r.value[19..] == if IsBrazilian(ticker, currency) then " (BRT)" else " (UTC)"
  {
    if ts.None? || ts.value == 0 then Ok("N/A")
    else if ts.value > MaxTimestamp then Err(TimestampOutOfRange(ts.value))
    else Ok(Rendered(IsBrazilian(ticker, currency), ts.value))
  }

  /** A trade time past zero and within range as `strftime` shows it: three
      hours back in the Brasília layout, or in the UTC layout. */
  function Rendered(brazilian: bool, ts: nat): (s: string)
    requires 0 < ts <= MaxTimestamp
    ensures |s| == 25 && s[19..] == if brazilian then " (BRT)" else " (UTC)"
  {
    if brazilian then
      FromInstantYearRange(ts - BrtOffsetSeconds);
      FormatBrt(FromInstant(ts - BrtOffsetSeconds))
    else
      FromInstantYearRange(ts);
      FormatUtc(FromInstant(ts))
  }

  /** `status_map`: raw market-state codes and their display labels. */
  const StatusLabels: map<string, string> := map[
    "REGULAR" := "Aberto",
    "CLOSED" := "Fechado",
    "PRE" := "Pr\U{E9}-Market",
    "POST" := "After-Market",
    "PREPRE" := "Fechado",
    "POSTPOST" := "Fechado"]

  /** `status_map.get(market_state, market_state)` */
  function StatusLabel(state: Option<string>): (shown: Option<string>)
    ensures state.None? <==> shown.None?
    ensures state.Some? && state.value in StatusLabels ==> shown == Some(StatusLabels[state.value])
    ensures state.Some? && state.value !in StatusLabels ==> shown == state
  {
    match state
    case None => None
    case Some(s) => Some(if s in StatusLabels then StatusLabels[s] else s)
  }

  /** `get_stock_price(ticker)` given what the fetches produced. */
  function GetStockPrice(ticker: string, f: Fetched): (r: Result<Quote>)
    ensures r.Err? <==> MarketTime(f).Some? && MarketTime(f).value > MaxTimestamp
    ensures r.Ok? ==> r.value.ticker == ticker
    ensures r.Ok? ==> r.value.rawState == MarketState(f) && r.value.marketStatus == StatusLabel(MarketState(f))
    ensures r.Ok? ==> r.value.currency == PriceAndCurrency(f).1
    ensures r.Ok? ==> (r.value.price == 0.0 <==> !PriceTruthy(PriceAndCurrency(f).0))
    ensures r.Ok? ==> (r.value.lastUpdate == "N/A" <==> MarketTime(f).None? || MarketTime(f).value == 0)
    ensures r.Ok? ==>
      && r.value.price == (if PriceTruthy(PriceAndCurrency(f).0) then PriceAndCurrency(f).0.value else 0.0)
      && r.value.lastUpdate == LastUpdate(ticker, PriceAndCurrency(f).1, MarketTime(f)).value
  {
    var (price, currency) := PriceAndCurrency(f);
    var state := MarketState(f);
    var lastUpdate :- LastUpdate(ticker, currency, MarketTime(f));
    Ok(Quote(ticker, currency, if PriceTruthy(price) then price.value else 0.0,
             lastUpdate, StatusLabel(state), state))
  }

  /** A Brazilian quote with a trade time shows that instant, three hours
      back, as a Brasília date and time (a year from 1969 to 9999). */
  lemma LastUpdateShowsBrasiliaTime(ticker: string, currency: Option<string>, ts: nat)
    requires 0 < ts <= MaxTimestamp && IsBrazilian(ticker, currency)
    ensures var b := FromInstant(ts - BrtOffsetSeconds);
      && 1969 <= b.year <= 9999
      && LastUpdate(ticker, currency, Some(ts)) == Ok(FormatBrt(b))
  {
    FromInstantYearRange(ts - BrtOffsetSeconds);
    assert LastUpdate(ticker, currency, Some(ts)) == Ok(Rendered(true, ts));
  }

  /** Any other quote with a trade time shows that instant as a UTC date and
      time (a year up to 9999). */
  lemma LastUpdateShowsUtcTime(ticker: string, currency: Option<string>, ts: nat)
    requires 0 < ts <= MaxTimestamp && !IsBrazilian(ticker, currency)
    ensures var u := FromInstant(ts);
      && 1969 <= u.year <= 9999
      && LastUpdate(ticker, currency, Some(ts)) == Ok(FormatUtc(u))
  {
    FromInstantYearRange(ts);
    assert LastUpdate(ticker, currency, Some(ts)) == Ok(Rendered(false, ts));
  }

  /** The Brasília rendering shows the UTC time of day three hours earlier:
      on the same date from 03:00 UTC on, and at 21:00 to 23:59 of the
      previous day for an instant before 03:00 UTC. */
  lemma BrtShowsUtcMinusThreeHours(ts: int)
    ensures var u, b := FromInstant(ts), FromInstant(ts - BrtOffsetSeconds);
      && (u.hour >= 3 ==> b == u.(hour := u.hour - 3))
      && (u.hour < 3 ==>
            && b.hour == u.hour + 21 && b.minute == u.minute && b.second == u.second
            && DaysFromCivil(b.CalendarDate()) + 1 == DaysFromCivil(u.CalendarDate()))
  {
    var u := FromInstant(ts);
    if u.hour >= 3 {
      var c := u.(hour := u.hour - 3);
      assert InstantOf(c) == ts - BrtOffsetSeconds;
      FromInstantInverse(c);
    } else {
      var d := CivilFromDays(DaysFromCivil(u.CalendarDate()) - 1);
      var c := DateTime(d.year, d.month, d.day, u.hour + 21, u.minute, u.second);
      assert c.CalendarDate() == d;
      assert InstantOf(c) == ts - BrtOffsetSeconds;
      FromInstantInverse(c);
    }
  }

  /** A worked instant: 1700000000 is 2023-11-14 22:13:20 UTC, shown as
      19:13:20 on the same day for a Brazilian quote. (The instant is a
      parameter so that the verifier reasons about it instead of evaluating.) */
  lemma ExampleBrtRendering(ts: nat)
    requires ts == 1700000000
    ensures LastUpdate("VALE3.SA", Some("BRL"), Some(ts)) == Ok("14/11/2023 19:13:20 (BRT)")
  {
    ExampleBrtInstant(ts);
    ExampleBrtString(FromInstant(ts - BrtOffsetSeconds));
  }

  /** The same instant for a non-Brazilian quote is shown in UTC. */
  lemma ExampleUtcRendering(ts: nat)
    requires ts == 1700000000
    ensures LastUpdate("AAPL", Some("USD"), Some(ts)) == Ok("2023-11-14 22:13:20 (UTC)")
  {
    ExampleUtcInstant(ts);
    ExampleUtcString(FromInstant(ts));
    ExampleNotBrazilian("AAPL");
  }

  /** A ticker without a dot and a currency other than "BRL": shown in UTC. */
  lemma ExampleNotBrazilian(ticker: string)
    requires ticker == "AAPL"
    ensures !IsBrazilian(ticker, Some("USD"))
  {
    assert '.' !in Upper(ticker);
    if HasInfix(Upper(ticker), ".SA") {
      InfixHeadOccurs(".SA", Upper(ticker));
    }
  }

  lemma ExampleUtcInstant(ts: int)
    requires ts == 1700000000
    ensures FromInstant(ts) == DateTime(2023, 11, 14, 22, 13, 20)
  {
    var y := 2023;
    DaysBeforeYearClosedForm(y);
    var u := DateTime(y, 11, 14, 22, 13, 20);
    assert DaysFromCivil(u.CalendarDate()) == DaysBeforeYear(y) + 304 + 13;
    assert InstantOf(u) == ts;
    FromInstantInverse(u);
  }

  lemma ExampleBrtInstant(ts: int)
    requires ts == 1700000000
    ensures FromInstant(ts - BrtOffsetSeconds) == DateTime(2023, 11, 14, 19, 13, 20)
  {
    var y := 2023;
    DaysBeforeYearClosedForm(y);
    var b := DateTime(y, 11, 14, 19, 13, 20);
    assert DaysFromCivil(b.CalendarDate()) == DaysBeforeYear(y) + 304 + 13;
    assert InstantOf(b) == ts - BrtOffsetSeconds;
    FromInstantInverse(b);
  }

  lemma ExampleBrtString(t: DateTime)
    requires t == DateTime(2023, 11, 14, 19, 13, 20)
    ensures FormatBrt(t) == "14/11/2023 19:13:20 (BRT)"
  {
  }

  lemma ExampleUtcString(t: DateTime)
    requires t == DateTime(2023, 11, 14, 22, 13, 20)
    ensures FormatUtc(t) == "2023-11-14 22:13:20 (UTC)"
  {
  }

  /** The six codes of `status_map` and how each is shown. */
  lemma StatusLabelTable()
    ensures StatusLabel(Some("REGULAR")) == Some("Aberto")
    ensures StatusLabel(Some("CLOSED")) == Some("Fechado")
    ensures StatusLabel(Some("PRE")) == Some("Pr\U{E9}-Market")
    ensures StatusLabel(Some("POST")) == Some("After-Market")
    ensures StatusLabel(Some("PREPRE")) == Some("Fechado")
    ensures StatusLabel(Some("POSTPOST")) == Some("Fechado")
  {
  }

  /** Status labels: a code is shown as itself exactly when it has no entry. */
  lemma {:induction false} StatusLabelPassesThroughUnknownCodes(code: string)
    ensures StatusLabel(Some(code)) == Some(code) <==> code !in StatusLabels
  {
    if code in StatusLabels {
      assert StatusLabels[code] != code;
    }
  }

  /** The codes shown as "Fechado" are the three closed states (and the label itself). */
  lemma ClosedCodes(code: string)
    ensures StatusLabel(Some(code)) == Some("Fechado")
            <==> code in {"CLOSED", "PREPRE", "POSTPOST", "Fechado"}
  {
  }

  /** Translating a translated state changes nothing: no label is itself a code. */
  lemma {:induction false} StatusLabelIdempotent(state: Option<string>)
    ensures StatusLabel(StatusLabel(state)) == StatusLabel(state)
  {
    if state.Some? && state.value in StatusLabels {
      assert StatusLabels[state.value] !in StatusLabels;
    }
  }

  /** When the fast path gives a price (even zero) `info` decides neither the
      price nor the currency. */
  lemma FastPriceIgnoresInfo(fi: FastInfo, info1: Option<Info>, info2: Option<Info>)
    requires fi.lastPrice.Some?
    ensures PriceAndCurrency(Fetched(Some(fi), info1)) == PriceAndCurrency(Fetched(Some(fi), info2))
            == (fi.lastPrice, fi.currency)
  {
  }

  /** Without a fast-path price the reported price is the first non-zero of
      `currentPrice` and `regularMarketPrice`, else 0.0, and the currency is
      `info`'s, "BRL" when it has none. */
  lemma PriceFallsBackToInfo(ticker: string, f: Fetched)
    requires f.info.Some?
    requires f.fast.None? || f.fast.value.lastPrice.None?
    ensures var r, info := GetStockPrice(ticker, f), f.info.value;
      var current, regular := Get(info.currentPrice, None), Get(info.regularMarketPrice, None);
      r.Ok? ==>
        && r.value.price == (if PriceTruthy(current) then current.value
                             else if PriceTruthy(regular) then regular.value else 0.0)
        && (info.currency.Missing? ==> r.value.currency == Some("BRL"))
        && (info.currency.Present? ==> r.value.currency == Some(info.currency.value))
        && (info.currency.Null? ==> r.value.currency == None)
  {
  }

  /** When `info` cannot be read the quote keeps the fast-path values, has no
      time and an "UNKNOWN" state, and no exception escapes. */
  lemma InfoFailureDefaults(ticker: string, fast: Option<FastInfo>)
    ensures var p := PriceAndCurrency(Fetched(fast, None)).0;
      GetStockPrice(ticker, Fetched(fast, None))
      == Ok(Quote(ticker,
                  if fast.None? then Some("BRL") else fast.value.currency,
                  if PriceTruthy(p) then p.value else 0.0,
                  "N/A", Some("UNKNOWN"), Some("UNKNOWN")))
  {
  }

  /** An `info` without a `marketState` key reports the state "UNKNOWN". */
  lemma MissingMarketStateIsUnknown(ticker: string, f: Fetched)
    requires f.info.Some? && f.info.value.marketState.Missing?
    ensures var r := GetStockPrice(ticker, f);
      r.Ok? ==> r.value.rawState == Some("UNKNOWN") && r.value.marketStatus == Some("UNKNOWN")
  {
  }
}
