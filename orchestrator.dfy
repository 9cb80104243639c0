/** `run_company_research` of core/orchestrator.py: the summary, the news and
    the stock price of one company, gathered in that order into one record.
    An exception from any of the three ends the run with that exception. */
module Orchestrator {
  import opened Wrappers
  import opened Text
  import opened YahooFinance
  import opened SummaryChain
  import opened NewsChain
  import opened StockChain

  /** The collaborators outside the core: the language model, `json.loads`,
      the news search and the two Yahoo Finance fetches. */
  datatype Providers = Providers(
    llm: string -> LlmReply,
    parse: string -> Decoded,
    search: string -> Result<seq<RawItem>>,
    fetch: string -> Fetched)

  /** The research record. */
  datatype Research = Research(
    company: string, summary: CompanySummary, news: seq<NewsItem>, stockPrice: StockPrice)
  {
    /** The dict returned, with its four keys. */
    function ToJson(): (j: Json)
      ensures j.JObj? && j.fields.Keys == {"company", "summary", "news", "stock_price"}
      ensures j.fields["company"] == JStr(company)
      ensures j.fields["news"].JArr? && |j.fields["news"].items| == |news|
    {
      JObj(map[
        "company" := JStr(company),
        "summary" := summary.ToJson(),
        "news" := JArr(seq(|news|, i requires 0 <= i < |news| => news[i].ToJson())),
        "stock_price" := stockPrice.ToJson()])
    }
  }

  /** `run_company_research(company_name)`: the dict display evaluates its
      values left to right, so the summary is computed first, then the news,
      then the stock price, and the first exception escapes. */
  function RunCompanyResearch(companyName: string, p: Providers): (r: Result<Research>)
    ensures r.Ok? <==>
      && GetCompanySummary(companyName, p.llm, p.parse).Ok?
      && GetCompanyNews(companyName, p.search).Ok?
      && GetCompanyStockPrice(companyName, p.fetch).Ok?
    ensures r.Ok? ==> r.value == Research(
      companyName,
      GetCompanySummary(companyName, p.llm, p.parse).value,
      GetCompanyNews(companyName, p.search).value,
      GetCompanyStockPrice(companyName, p.fetch).value)
  {
    var summary :- GetCompanySummary(companyName, p.llm, p.parse);
    var news :- GetCompanyNews(companyName, p.search);
    var stockPrice :- GetCompanyStockPrice(companyName, p.fetch);
    Ok(Research(companyName, summary, news, stockPrice))
  }

  /** The exception that escapes is the first one in evaluation order. */
  lemma FirstFailureEscapes(companyName: string, p: Providers)
    ensures var summary, news, stock :=
      GetCompanySummary(companyName, p.llm, p.parse),
      GetCompanyNews(companyName, p.search),
      GetCompanyStockPrice(companyName, p.fetch);
      var r := RunCompanyResearch(companyName, p);
      && (summary.Err? ==> r == Err(summary.error))
      && (summary.Ok? && news.Err? ==> r == Err(news.error))
      && (summary.Ok? && news.Ok? && stock.Err? ==> r == Err(stock.error))
  {
  }

  /** A blank name fails the run with the `ValueError`, whatever the
      collaborators would do: the summary check comes first. */
  lemma BlankNameFailsFirst(companyName: string, p: Providers, q: Providers)
    requires IsBlank(companyName)
    ensures RunCompanyResearch(companyName, p) == RunCompanyResearch(companyName, q)
            == Err(ValueError(EmptyNameMessage))
  {
  }

  /** With a named company, a model that answers or fails (but sets up), a
      search that succeeds with titled items, and a company outside the
      ticker table, the run succeeds and reports the placeholder price. */
  lemma UnlistedCompanyStillResearched(companyName: string, p: Providers)
    requires !IsBlank(companyName) && !p.llm(companyName).SetupFailed?
    requires p.search(Query(companyName)).Ok?
    requires forall item :: item in p.search(Query(companyName)).value ==> "title" in item
    requires companyName !in Tickers
    ensures var r := RunCompanyResearch(companyName, p);
      r.Ok? && r.value.stockPrice == Unknown && r.value.company == companyName
      && |r.value.news| == |p.search(Query(companyName)).value|
  {
    var items := p.search(Query(companyName)).value;
    assert forall i :: 0 <= i < |items| ==> "title" in items[i] by {
      forall i | 0 <= i < |items| ensures "title" in items[i] {
        assert items[i] in items;
      }
    }
  }

  /** The research record's company is the name asked for, unstripped. */
  lemma CompanyIsEchoed(companyName: string, p: Providers)
    ensures var r := RunCompanyResearch(companyName, p);
      r.Ok? ==> r.value.ToJson().fields["company"] == JStr(companyName)
  {
  }
}
