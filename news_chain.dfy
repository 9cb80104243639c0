/** `get_company_news` of chains/news_chain.py: one news search for the
    company, then each result reduced to its title, source and URL. The
    search itself is a parameter. */
module NewsChain {
  import opened Wrappers

  /** A search result item: a dict of JSON values. */
  type RawItem = map<string, Json>

  /** The three fields kept from each result. A missing source or URL is `null`. */
  datatype NewsItem = NewsItem(title: Json, source: Json, url: Json)
  {
    function ToJson(): (j: Json)
      ensures j.JObj? && j.fields.Keys == {"title", "source", "url"}
    {
      JObj(map["title" := title, "source" := source, "url" := url])
    }

    /** The item as a search result dict with the same three keys. */
    function AsRaw(): (raw: RawItem)
      ensures raw.Keys == {"title", "source", "url"}
    {
      map["title" := title, "source" := source, "url" := url]
    }
  }

  /** The search query: the company name followed by " stock market news". */
  function Query(companyName: string): (query: string)
    ensures |query| == |companyName| + 18 && query[..|companyName|] == companyName
    ensures query[|companyName|..] == " stock market news"
  {
    companyName + " stock market news"
  }

  /** Different company names give different queries. */
  lemma QueryInjective(a: string, b: string)
    requires Query(a) == Query(b)
    ensures a == b
  {
    assert a == Query(a)[..|a|];
  }

  /** `item.get(key)`: `null` for an absent key. */
  function GetOrNull(item: RawItem, key: string): (v: Json)
    ensures key in item ==> v == item[key]
    ensures key !in item ==> v == JNull
  {
    if key in item then item[key] else JNull
  }

  /** One result reduced: `item["title"]` raises `KeyError` when the key is absent. */
  function Reduce(item: RawItem): (r: Result<NewsItem>)
    ensures r.Ok? <==> "title" in item
    ensures r.Err? ==> r.error == KeyError("title")
  {
    if "title" in item then Ok(NewsItem(item["title"], GetOrNull(item, "source"), GetOrNull(item, "url")))
    else Err(KeyError("title"))
  }

  /** The list comprehension: every result reduced, in order; the first
      result without a title raises. */
  function ReduceAll(items: seq<RawItem>): (r: Result<seq<NewsItem>>)
    ensures r.Ok? <==> forall i :: 0 <= i < |items| ==> "title" in items[i]
    ensures r.Err? ==> r.error == KeyError("title")
    ensures r.Ok? ==> |r.value| == |items|
    ensures r.Ok? ==> forall i :: 0 <= i < |items| ==>
      && r.value[i].title == items[i]["title"]
      && r.value[i].source == GetOrNull(items[i], "source")
      && r.value[i].url == GetOrNull(items[i], "url")
  {
    if items == [] then Ok([])
    else
      var first :- Reduce(items[0]);
      var rest :- ReduceAll(items[1..]);
      assert forall i :: 1 <= i < |items| ==> items[i] == items[1..][i - 1];
      Ok([first] + rest)
  }

  /** `get_company_news(company_name)`, where `search` runs the news search. */
  function GetCompanyNews(companyName: string, search: string -> Result<seq<RawItem>>): (r: Result<seq<NewsItem>>)
    ensures search(Query(companyName)).Err? ==> r == Err(search(Query(companyName)).error)
    ensures search(Query(companyName)).Ok? ==> r == ReduceAll(search(Query(companyName)).value)
  {
    var items :- search(Query(companyName));
    ReduceAll(items)
  }

  /** Reducing already reduced items changes nothing. */
  lemma {:induction false} ReduceAllIdempotent(news: seq<NewsItem>)
    ensures ReduceAll(seq(|news|, i requires 0 <= i < |news| => news[i].AsRaw())) == Ok(news)
  {
    var raws := seq(|news|, i requires 0 <= i < |news| => news[i].AsRaw());
    var r := ReduceAll(raws);
    assert r.Ok?;
    forall i | 0 <= i < |news|
      ensures r.value[i] == news[i]
    {
      assert raws[i] == news[i].AsRaw();
    }
    assert r.value == news;
  }

  /** Keys other than the three read ones do not change a reduced item. */
  lemma ReduceIgnoresOtherKeys(item: RawItem, key: string, value: Json)
    requires key !in {"title", "source", "url"}
    ensures Reduce(item[key := value]) == Reduce(item)
  {
  }

  /** One bad result fails the whole search, whatever precedes or follows it. */
  lemma {:induction false} OneMissingTitleFailsAll(before: seq<RawItem>, bad: RawItem, after: seq<RawItem>)
    requires "title" !in bad
    ensures ReduceAll(before + [bad] + after) == Err(KeyError("title"))
  {
    var items := before + [bad] + after;
    assert items[|before|] == bad;
  }
}
