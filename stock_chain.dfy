/** `get_company_stock_price` of chains/stock_chain.py: an exact lookup of the
    company name in a fixed table of B3 tickers, then a quote for the ticker,
    or a fixed placeholder for a name the table does not hold. */
module StockChain {
  import opened Wrappers
  import opened Text
  import opened Calendar
  import opened YahooFinance

  /** `COMPANY_TICKERS` */
  const Tickers: map<string, string> := map[
    "Petrobras" := "PETR4.SA",
    "Vale" := "VALE3.SA",
    "Itau" := "ITUB4.SA",
    "Ambev" := "ABEV3.SA",
    "Minerva" := "BEEF3.SA"]

  /** The placeholder ticker reported for an unknown company. */
  const UnknownTicker := "UNKNOWN"

  /** A quote, or the placeholder for a company without a ticker. */
  datatype StockPrice = Unknown | Found(quote: Quote)
  {
    /** The dict returned: the quote's six keys, or the placeholder's four. */
    function ToJson(): (j: Json)
      ensures j.JObj? && "ticker" in j.fields
      ensures Unknown? ==> j.fields == map[
        "ticker" := JStr(UnknownTicker), "currency" := JStr("BRL"),
        "price" := JNum(0.0), "last_update" := JNull]
      ensures Found? ==> j == quote.ToJson()
    {
      match this
      case Unknown => JObj(map[
        "ticker" := JStr(UnknownTicker), "currency" := JStr("BRL"),
        "price" := JNum(0.0), "last_update" := JNull])
      case Found(q) => q.ToJson()
    }
  }

  /** `get_company_stock_price(company_name)`, where `fetch` gives what the
      two fetches of `get_stock_price` produce for a ticker. */
  function GetCompanyStockPrice(companyName: string, fetch: string -> Fetched): (r: Result<StockPrice>)
    ensures companyName !in Tickers ==> r == Ok(Unknown)
    ensures companyName in Tickers ==>
      var quote := GetStockPrice(Tickers[companyName], fetch(Tickers[companyName]));
      && (r.Ok? <==> quote.Ok?)
      && (r.Ok? ==> r.value == Found(quote.value))
      && (r.Err? ==> r.error == quote.error)
  {
    if companyName in Tickers then
      var quote :- GetStockPrice(Tickers[companyName], fetch(Tickers[companyName]));
      Ok(Found(quote))
    else Ok(Unknown)
  }

  /** A company gets the placeholder exactly when the table lacks its name,
      and a known company's quote is for its own ticker. */
  lemma PlaceholderIffUnknownName(companyName: string, fetch: string -> Fetched)
    ensures var r := GetCompanyStockPrice(companyName, fetch);
      && (r.Ok? && r.value.Unknown? <==> companyName !in Tickers)
      && (r.Ok? && r.value.Found? ==> r.value.quote.ticker == Tickers[companyName])
  {
  }

  /** The reported ticker is "UNKNOWN" exactly for a name the table lacks: no
      listed ticker is "UNKNOWN". */
  lemma {:induction false} UnknownTickerIffUnknownName(companyName: string, fetch: string -> Fetched)
    requires GetCompanyStockPrice(companyName, fetch).Ok?
    ensures GetCompanyStockPrice(companyName, fetch).value.ToJson().fields["ticker"] == JStr(UnknownTicker)
            <==> companyName !in Tickers
  {
    var sp := GetCompanyStockPrice(companyName, fetch).value;
    if companyName in Tickers {
      assert Tickers[companyName] != UnknownTicker;
      assert sp.quote.ticker == Tickers[companyName];
    }
  }

  /** The lookup is exact: case and surrounding spaces matter. */
  lemma LookupIsExact(fetch: string -> Fetched)
    ensures GetCompanyStockPrice("vale", fetch) == Ok(Unknown)
    ensures GetCompanyStockPrice(" Vale", fetch) == Ok(Unknown)
    ensures GetCompanyStockPrice("Vale S.A.", fetch) == Ok(Unknown)
  {
  }

  /** Every listed ticker ends in ".SA", which `str.upper` keeps. */
  lemma {:induction false} SaSuffixIsBrazilian(ticker: string, currency: Option<string>)
    requires EndsWith(ticker, ".SA")
    ensures IsBrazilian(ticker, currency)
  {
    var u := Upper(ticker);
    var i := |ticker| - 3;
    assert u[i] == UpperChar(ticker[i]) == '.';
    assert u[i + 1] == UpperChar(ticker[i + 1]) == 'S';
    assert u[i + 2] == UpperChar(ticker[i + 2]) == 'A';
    assert u[i..i + 3] == ".SA";
    assert OccursAt(".SA", u, i);
  }

  /** A listed company's trade time, when it has one, is shown as that
      instant three hours back in the Brasília layout, whatever currency the
      quote carries. */
  lemma {:induction false} KnownCompaniesShowBrasiliaTime(companyName: string, fetch: string -> Fetched)
    requires companyName in Tickers
    ensures var r, ts := GetCompanyStockPrice(companyName, fetch), MarketTime(fetch(Tickers[companyName]));
      r.Ok? && ts.Some? && ts.value != 0 ==>
        && ts.value <= MaxTimestamp
        && 1969 <= FromInstant(ts.value - BrtOffsetSeconds).year <= 9999
        && r.value.quote.lastUpdate == FormatBrt(FromInstant(ts.value - BrtOffsetSeconds))
  {
    var ticker := Tickers[companyName];
    assert EndsWith(ticker, ".SA");
    var f := fetch(ticker);
    var currency := PriceAndCurrency(f).1;
    SaSuffixIsBrazilian(ticker, currency);
    var ts := MarketTime(f);
    if GetStockPrice(ticker, f).Ok? && ts.Some? && ts.value != 0 {
      LastUpdateShowsBrasiliaTime(ticker, currency, ts.value);
    }
  }
}
