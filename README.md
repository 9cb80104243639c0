# Company research core, modelled in Dafny

The system answers one question about a Brazilian public company: given its
name, it returns one record. The record holds the company name, a summary of
the company written by a language model, recent news, and the latest stock
quote. This project models the code that builds that record:

- `get_company_summary` (chains/summary_chain.py):
  - rejects a blank name;
  - pulls the JSON object out of the model's reply;
  - maps the decoded keys and their synonyms to `company_name`, `sector` and
    `description`, each stripped;
  - falls back to a fixed summary when the model run or the decoding raises.
- `get_company_news` (chains/news_chain.py): one search for
  "<name> stock market news", each result reduced to title, source and URL.
- `COMPANY_TICKERS` and `get_company_stock_price` (chains/stock_chain.py):
  - an exact lookup of the name among five B3 tickers;
  - a fixed "UNKNOWN" placeholder for any other name.
- `get_stock_price` (APIs/yahoo_finance.py), after its two fetches:
  - picks the price and the currency, with the `info` dict as a fallback;
  - renders the last trade time, in Brasília display time (UTC minus three
    hours) for Brazilian quotes and in UTC otherwise;
  - translates the market state;
  - returns the six-key quote.
- `run_company_research` (core/orchestrator.py): calls the three chains in
  order and assembles their results.

Everything in the core computes values, so the model is made of datatypes,
functions and lemmas. The collaborators become function-typed parameters
(`Orchestrator.Providers`):

- the language model (`LlmReply`);
- `json.loads` (`Decoded`);
- the news search;
- the Yahoo Finance fetches (`Fetched`).

Python exceptions that escape are `Err` values of `Wrappers.Result`. `:-`
propagates them the way an uncaught `raise` does.

Modules:

- `Wrappers`: `Option`, `Result`, the escaping exceptions and JSON values.
- `Text`: Python's `str.strip` (full `isspace` set), `find`, `rfind`, `in`,
  ASCII `upper`, and zero-padded decimals.
- `Calendar`: the proleptic Gregorian calendar behind
  `datetime.fromtimestamp(ts, tz=timezone.utc)`, including its year-9999
  limit.
- `YahooFinance`, `SummaryChain`, `NewsChain`, `StockChain`, `Orchestrator`:
  one per core file.

The model follows what the code does, which is narrower than a design in
which the lookups run in parallel and each provider contains its own
failures:

- The code runs the three lookups one after another, in dict-display
  order, not concurrently.
- An exception in any lookup aborts the whole research result, because
  nothing contains it:
  - the news search is not wrapped in any handler;
  - an item without "title" raises `KeyError`;
  - `datetime.fromtimestamp` can raise;
  - the model client and chain are built before the `try`
    (chains/summary_chain.py:85-88).
- The ticker lookup is an exact dict lookup. Nothing in it can fail or return
  "UNKNOWN" except a missing name.
- A failed news search is not turned into an empty list.

## Model

| member | source | states |
|---|---|---|
| YahooFinance.Get | APIs/yahoo_finance.py:33 | `dict.get(key, default)`: the default only for an absent key, `None` for a key holding `None`, else the value |
| YahooFinance.Quote.ToJson | APIs/yahoo_finance.py:72-79 | the quote is a dict with exactly the six keys ticker, currency, price, last_update, market_status, raw_state |
| YahooFinance.PriceTruthy | APIs/yahoo_finance.py:75 | `if price` is false exactly for `None` and zero |
| YahooFinance.PriceAndCurrency | APIs/yahoo_finance.py:16-33 | a fast-path price fixes price and currency; without `info` the fast-path values stand ("BRL" and no price when `fast_info` failed); otherwise, with no fast-path price, the currency is `info.get('currency', 'BRL')` and the price is truthy exactly when `currentPrice` or `regularMarketPrice` is |
| YahooFinance.MarketTime | APIs/yahoo_finance.py:36 | there is a trade time exactly when `info` was read and holds a `regularMarketTime`, and it is that value |
| YahooFinance.IsBrazilian | APIs/yahoo_finance.py:54 | a quote is Brazilian exactly when ".SA" occurs in the upper-cased ticker or the currency is "BRL" |
| YahooFinance.MarketState | APIs/yahoo_finance.py:39-43 | the state is "UNKNOWN" when `info` cannot be read or lacks `marketState`, `None` when that key holds `None`, and otherwise the key's value |
| YahooFinance.FormatBrt | APIs/yahoo_finance.py:57 | the Brasília rendering is 25 characters and ends in " (BRT)" |
| YahooFinance.FormatUtc | APIs/yahoo_finance.py:59 | the UTC rendering is 25 characters and ends in " (UTC)" |
| YahooFinance.FormatBrtLayout | APIs/yahoo_finance.py:57 | `%d/%m/%Y %H:%M:%S`: each field is its zero-padded decimal (2 digits, 4 for the year) at a fixed position, between fixed separators |
| YahooFinance.FormatUtcLayout | APIs/yahoo_finance.py:59 | `%Y-%m-%d %H:%M:%S`: each field is its zero-padded decimal at a fixed position, between fixed separators |
| YahooFinance.FormatBrtInjective | APIs/yahoo_finance.py:57 | equal Brasília renderings come from equal date-times: the format loses nothing |
| YahooFinance.FormatUtcInjective | APIs/yahoo_finance.py:59 | equal UTC renderings come from equal date-times |
| YahooFinance.LastUpdate | APIs/yahoo_finance.py:46-59 | raises exactly for a timestamp past 9999-12-31 23:59:59 UTC; "N/A" exactly for a missing or zero timestamp; otherwise 25 characters ending " (BRT)" for a Brazilian quote and " (UTC)" for any other |
| YahooFinance.Rendered | APIs/yahoo_finance.py:49-59 | a trade time in range renders as 25 characters ending " (BRT)" when Brazilian and " (UTC)" otherwise |
| YahooFinance.LastUpdateShowsBrasiliaTime | APIs/yahoo_finance.py:49-57 | a Brazilian quote with a non-zero time in range shows the instant three hours back, in the Brasília layout |
| YahooFinance.LastUpdateShowsUtcTime | APIs/yahoo_finance.py:49-59 | any other quote with a non-zero time in range shows the instant itself, in the UTC layout |
| YahooFinance.BrtShowsUtcMinusThreeHours | APIs/yahoo_finance.py:51-56 | the Brasília time is the UTC time three hours earlier: the same date from 03:00 UTC, else 21:00-23:59 of the previous day |
| YahooFinance.ExampleBrtRendering | APIs/yahoo_finance.py:54-57 | 1700000000 for VALE3.SA in BRL renders "14/11/2023 19:13:20 (BRT)" |
| YahooFinance.ExampleUtcRendering | APIs/yahoo_finance.py:54-59 | 1700000000 for AAPL in USD renders "2023-11-14 22:13:20 (UTC)" |
| YahooFinance.ExampleNotBrazilian | APIs/yahoo_finance.py:54 | "AAPL" with currency "USD" is not treated as Brazilian |
| YahooFinance.StatusLabel | APIs/yahoo_finance.py:62-70 | a code in `status_map` is shown as its entry, any other code as itself, and a `None` state as `None` (only then) |
| YahooFinance.StatusLabelTable | APIs/yahoo_finance.py:62-69 | REGULAR is shown as "Aberto", CLOSED, PREPRE and POSTPOST as "Fechado", PRE as "Pré-Market", POST as "After-Market" |
| YahooFinance.StatusLabelPassesThroughUnknownCodes | APIs/yahoo_finance.py:62-70 | a state is shown as itself exactly when `status_map` has no entry for it |
| YahooFinance.ClosedCodes | APIs/yahoo_finance.py:62-70 | the label is "Fechado" exactly for CLOSED, PREPRE, POSTPOST (and "Fechado" itself) |
| YahooFinance.StatusLabelIdempotent | APIs/yahoo_finance.py:62-70 | translating a label again changes nothing: no label is itself a code |
| YahooFinance.GetStockPrice | APIs/yahoo_finance.py:7-79 | raises exactly when the timestamp is past year 9999. Otherwise the quote echoes the ticker, reports the raw and translated state and the chosen currency; its price is the chosen price when that is neither `None` nor zero, else 0.0; its last_update is the rendering of the trade time (`LastUpdate`), "N/A" exactly when the timestamp is missing or zero |
| YahooFinance.FastPriceIgnoresInfo | APIs/yahoo_finance.py:16-33 | a fast-path price, even zero, fixes price and currency whatever `info` holds |
| YahooFinance.PriceFallsBackToInfo | APIs/yahoo_finance.py:31-33 | without a fast-path price: the first non-zero of `currentPrice` and `regularMarketPrice`, else 0.0; currency from `info`: "BRL" when the key is absent, `None` when it holds `None`, else its value |
| YahooFinance.InfoFailureDefaults | APIs/yahoo_finance.py:41-43 | when `info` cannot be read: fast-path values, "N/A" time, "UNKNOWN" state and label, nothing raised |
| YahooFinance.MissingMarketStateIsUnknown | APIs/yahoo_finance.py:39 | an `info` without `marketState` reports "UNKNOWN" |
| Calendar.CivilFromDays | APIs/yahoo_finance.py:51 | the date `n` days after 1970-01-01 is a valid Gregorian date that lies `n` days after 1970-01-01 |
| Calendar.CivilFromDaysInverse | APIs/yahoo_finance.py:51 | counting a valid date's days and converting back gives the date |
| Calendar.DaysFromCivilInjective | APIs/yahoo_finance.py:51 | distinct valid dates have distinct day counts |
| Calendar.DaysBeforeYearClosedForm | APIs/yahoo_finance.py:51 | the day count of a year is 365 per year plus one per Gregorian leap year |
| Calendar.FromInstant | APIs/yahoo_finance.py:51 | `fromtimestamp` gives a valid date-time denoting exactly that instant |
| Calendar.FromInstantInverse | APIs/yahoo_finance.py:51 | converting a valid date-time to its instant and back gives it again |
| Calendar.FromInstantYearRange | APIs/yahoo_finance.py:51 | instants from three hours before the epoch on fall in year 1969 or later, and in year 9999 or earlier exactly up to `MaxTimestamp` |
| Calendar.MaxTimestampIsLastSecond | APIs/yahoo_finance.py:51 | `MaxTimestamp` is 9999-12-31 23:59:59 UTC |
| Text.Strip | chains/summary_chain.py:96 | `str.strip()` returns a contiguous piece of its input that neither starts nor ends with whitespace |
| Text.StripRemovesOnlyWhitespace | chains/summary_chain.py:96 | what `strip` removes on either side is whitespace |
| Text.BlankIffStripEmpty | chains/summary_chain.py:81 | a string strips to "" exactly when it is all whitespace |
| Text.StripAround | chains/summary_chain.py:96 | stripping `p + x + q` around a stripped `x` keeps `x` and the inner parts of `p` and `q`, dropping a blank `p` or `q` whole |
| Text.Find | chains/summary_chain.py:101 | `find` gives the first index of the character, or -1 exactly when it is absent |
| Text.RFind | chains/summary_chain.py:102 | `rfind` gives the last index of the character, or -1 exactly when it is absent |
| Text.HasInfix | APIs/yahoo_finance.py:54 | `".SA" in s` holds exactly when ".SA" occurs in `s` at some position |
| Text.Upper | APIs/yahoo_finance.py:54 | `str.upper` keeps the length, turns each ASCII lower-case letter into its capital in place, keeps every other character, and leaves no ASCII lower-case letter |
| Text.Decimal | APIs/yahoo_finance.py:57-59 | zero-padded `n` has exactly `width` digits and reads back as `n` |
| SummaryChain.CompanySummary.ToJson | chains/summary_chain.py:118-122 | the summary is a dict with exactly company_name, sector and description |
| SummaryChain.JsonSpan | chains/summary_chain.py:100-108 | the text decoded occurs in the stripped reply; a reply starting with "{" is kept whole; a cut-down text starts with "{" and ends with "}" |
| SummaryChain.ExtractJsonText | chains/summary_chain.py:96-108 | the text decoded occurs in the stripped reply |
| SummaryChain.JsonSpanCutsIff | chains/summary_chain.py:100-106 | the reply is cut down exactly when it does not start with "{" and has a "{" before a later "}" |
| SummaryChain.JsonSpanIsOutermost | chains/summary_chain.py:101-104 | a cut-down text runs from the first "{" to the last "}" |
| SummaryChain.JsonSpanOfBraceLed | chains/summary_chain.py:100-108 | a reply that starts with an object is decoded whole, trailing text included |
| SummaryChain.JsonSpanOfWrapped | chains/summary_chain.py:100-104 | an object after a non-empty brace-free lead and before brace-free text is cut out exactly |
| SummaryChain.ExtractFromWrapped | chains/summary_chain.py:96-108 | an object wrapped in brace-free text is recovered exactly when the text before it is not blank or the text after it is blank |
| SummaryChain.Field | chains/summary_chain.py:113-115 | `parsed.get(key)` is `None` for an absent key and the stored value for a present one |
| SummaryChain.FirstTruthy | chains/summary_chain.py:113-115 | `a or b or default`: the first value that is neither `None` nor "", else the default |
| SummaryChain.Normalize | chains/summary_chain.py:113-122 | the three returned fields are stripped |
| SummaryChain.Fallback | chains/summary_chain.py:126-133 | the fallback keeps the name as given, has sector "Unknown", and its description is the fixed prefix followed by the error text |
| SummaryChain.GetCompanySummary | chains/summary_chain.py:68-133 | raises exactly for a blank name (`ValueError` with the source's message) or a failed model set-up; a failed run or a failed decoding gives the fallback with that error's message; a decoded object gives its normalised summary |
| SummaryChain.SummaryRoundTrip | chains/summary_chain.py:92-124 | a summary the model returns as JSON is returned unchanged, provided it is wrapped so that the extraction recovers it, the decoder reads it back, its fields are stripped, and its name and sector are non-empty |
| SummaryChain.NormalizeFieldsOf | chains/summary_chain.py:113-122 | normalising a summary's own three keys gives it back when its fields are stripped and its name and sector are non-empty |
| SummaryChain.FailureGivesFallback | chains/summary_chain.py:126-133 | a failed model run or a failed decoding gives exactly the fallback: the name as given, sector "Unknown", and the fixed prefix followed by that failure's message |
| SummaryChain.NormalizeSynonyms | chains/summary_chain.py:113-120 | each field comes from its key when that holds a non-empty string, else from its synonym (company, industry, summary) when that does, else from its default (the requested name, "N/A", ""), and is stripped |
| SummaryChain.DecodedSummaryIsStripped | chains/summary_chain.py:110-124 | a decoded answer gives a summary with all three fields stripped |
| SummaryChain.NormalizeReadsOnlySixKeys | chains/summary_chain.py:113-115 | the summary depends on company_name, company, sector, industry, description and summary only |
| SummaryChain.EmptyObjectDefaults | chains/summary_chain.py:113-115 | an object with none of those keys gives the stripped requested name, "N/A" and "" |
| NewsChain.NewsItem.ToJson | chains/news_chain.py:15-19 | each news item is a dict with exactly title, source and url |
| NewsChain.Query | chains/news_chain.py:11 | the query is the company name followed by exactly " stock market news" |
| NewsChain.QueryInjective | chains/news_chain.py:11-12 | different names give different queries |
| NewsChain.GetOrNull | chains/news_chain.py:17-18 | `item.get(key)` is the value, or `None` for an absent key |
| NewsChain.Reduce | chains/news_chain.py:15-19 | an item reduces exactly when it has a title; otherwise `KeyError('title')` |
| NewsChain.ReduceAll | chains/news_chain.py:14-21 | succeeds exactly when every item has a title; then it keeps the length and order, each item's title, and its source and URL (`None` when absent); otherwise `KeyError('title')` |
| NewsChain.GetCompanyNews | chains/news_chain.py:7-21 | a failing search propagates its exception; otherwise the results are reduced |
| NewsChain.ReduceAllIdempotent | chains/news_chain.py:14-21 | reducing already reduced items gives them back |
| NewsChain.ReduceIgnoresOtherKeys | chains/news_chain.py:14-21 | keys other than title, source and url do not matter |
| NewsChain.OneMissingTitleFailsAll | chains/news_chain.py:14-21 | one item without a title fails the whole list, wherever it is |
| StockChain.StockPrice.ToJson | chains/stock_chain.py:20-28 | the placeholder is exactly {ticker "UNKNOWN", currency "BRL", price 0.0, last_update null}; a found quote is its six-key dict |
| StockChain.GetCompanyStockPrice | chains/stock_chain.py:14-28 | an unlisted name gives the placeholder whatever the fetch does; a listed name gives the quote for its ticker or that quote's exception |
| StockChain.PlaceholderIffUnknownName | chains/stock_chain.py:18-26 | the placeholder comes back exactly for a name not in `COMPANY_TICKERS`, and a found quote is for the listed ticker |
| StockChain.UnknownTickerIffUnknownName | chains/stock_chain.py:5-28 | the reported ticker is "UNKNOWN" exactly for an unlisted name |
| StockChain.LookupIsExact | chains/stock_chain.py:18 | "vale", " Vale" and "Vale S.A." get the placeholder: the lookup is case- and space-sensitive |
| StockChain.SaSuffixIsBrazilian | APIs/yahoo_finance.py:54 | a ticker ending in ".SA" is Brazilian whatever its currency |
| StockChain.KnownCompaniesShowBrasiliaTime | chains/stock_chain.py:5-11 | a listed company's non-zero trade time is shown as that instant three hours back, in the Brasília layout, whatever the quote's currency |
| Orchestrator.Research.ToJson | core/orchestrator.py:12-17 | the result is a dict with exactly company, summary, news and stock_price; the company is the name asked for; news keeps one entry per item |
| Orchestrator.RunCompanyResearch | core/orchestrator.py:8-17 | succeeds exactly when all three chains succeed, and then holds the name and exactly their results |
| Orchestrator.FirstFailureEscapes | core/orchestrator.py:12-17 | the exception that escapes is the first in evaluation order: summary, then news, then stock price |
| Orchestrator.BlankNameFailsFirst | core/orchestrator.py:14 | a blank name fails the run with the summary's `ValueError`, whatever the collaborators do |
| Orchestrator.UnlistedCompanyStillResearched | core/orchestrator.py:12-17 | with a working model and search, an unlisted company is still researched, with the placeholder price and one news entry per result |
| Orchestrator.CompanyIsEchoed | core/orchestrator.py:13 | the research dict's company is the name as given |

## Left out

- Fetching: `yf.Ticker`, `stock.fast_info` and `stock.info` are not modelled. Their outcome is the `Fetched` parameter:
  - `fast` is absent when reading `fast_info` raised `AttributeError`;
  - `info` is absent when reading `info` raised any exception.
  Exceptions other than `AttributeError` while reading `fast_info` propagate in the source and are not modelled.
- Floating point: prices are reals. `float(price)` is the identity, and timestamps are non-negative integers. A fractional or negative `regularMarketTime` is not modelled.
- Non-string JSON values in the model's answer: `Decoded` holds strings or `None`. Python truthiness and `str()` of numbers, lists or objects are not modelled. An answer that is not an object is a decoding failure, as its `.get` raises inside the `try`.
- `json.loads` itself: it is the `parse` parameter.
- The language-model plumbing: `ChatOpenAI`, `PromptTemplate`, `LLMChain`, the prompt file and its built-in fallback, and the environment settings. The model is the `llm` parameter, applied to the company name.
- `str.upper` is modelled for ASCII letters only. Other characters are kept, which can differ for non-ASCII letters.
- `strftime` is modelled for years 1000 to 9999, the only years a non-negative timestamp reaches.
- The search providers (APIs/bing_search.py, APIs/web_search.py) are the `search` parameter. The news items are dicts of JSON values.
- app.py and main.py are presentation and command-line wrappers around `run_company_research`; they are not modelled.
- Concurrency: the source is sequential, so there is none to model.
- The `tools.` import paths in chains/stock_chain.py and chains/news_chain.py do not match the `APIs/` directory. The model assumes they resolve to those modules.
- YahooFinance.FormatBrt: its own contract states only the length and the suffix. The field layout is stated by `FormatBrtLayout`, which keeps the quantified slices out of every caller.
- YahooFinance.FormatUtc: likewise; the layout is stated by `FormatUtcLayout`.
