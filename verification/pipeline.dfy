/** The per-URL fetch guard of `scrape_post_content`, the main loop that
    accumulates records, the empty-list guard of `save_to_json`, and the run
    that strings discovery, scraping and saving together.

    The network is a parameter: `Web` says, for each URL, what the GET
    request produced and what `urlparse` made of the URL.
 */
module Pipeline {
  import opened Wrappers
  import opened Links
  import opened Page

  const OutputFile: string := "scraped_data_FINAL.json"

  /** `requests`' `Response.ok`: false exactly for client and server error
      statuses, 400 up to but not including 600. */
  predicate IsOk(status: int) {
    !(400 <= status < 600)
  }

  /** What `requests.get` produced: an exception (connection failure, or any
      other exception inside the scraping `try`), or a response with its
      status code and its parsed page. */
  datatype FetchOutcome = FetchRaised | Fetched(status: int, page: ParsedPage)

  /** The outside world, as far as one run can observe it. */
  datatype Web = Web(fetch: string -> FetchOutcome, pathOf: string -> Option<string>)

  /** `scrape_post_content`: no record when the request raised or the status
      is not ok, otherwise the record assembled from the page. */
  function ScrapePost(url: string, fetched: FetchOutcome, path: Option<string>): (r: Option<Record>)
    ensures r.None? <==> fetched.FetchRaised? || !IsOk(fetched.status)
    ensures r.Some? ==> r.value == Extract(url, path, fetched.page)
  {
    match fetched
    case FetchRaised => None
    case Fetched(status, page) =>
      if !IsOk(status) then None
      else Some(Extract(url, path, page))
  }

  /** Scraping one URL against the world. */
  function ScrapeUrl(web: Web, url: string): Option<Record> {
    ScrapePost(url, web.fetch(url), web.pathOf(url))
  }

  /** The records of the main loop: the non-`None` results in URL order. */
  function Harvest(web: Web, urls: seq<string>): (records: seq<Record>)
    ensures |records| <= |urls|
    ensures forall r :: r in records <==> exists u :: u in urls && ScrapeUrl(web, u) == Some(r)
    ensures forall r :: r in records ==> r.url in urls
    decreases |urls|
  {
    if |urls| == 0 then []
    else
      var init := urls[..|urls| - 1];
      var last := urls[|urls| - 1];
      assert urls == init + [last];
      match ScrapeUrl(web, last)
      case None => Harvest(web, init)
      case Some(r) => Harvest(web, init) + [r]
  }

  /** The main loop (scrapyy.py:209-216): scrape each URL in turn and keep
      the result when there is one. */
  method ScrapeAll(web: Web, urls: seq<string>) returns (records: seq<Record>)
    ensures records == Harvest(web, urls)
  {
    records := [];
    for i := 0 to |urls|
      invariant records == Harvest(web, urls[..i])
    {
      var data := ScrapeUrl(web, urls[i]);
      if data.Some? {
        records := records + [data.value];
      }
      assert urls[..i + 1][..i] == urls[..i];
    }
    assert urls[..|urls|] == urls;
  }

  /** Harvesting two runs of URLs one after the other harvests each in turn. */
  lemma {:induction false} HarvestAppend(web: Web, a: seq<string>, b: seq<string>)
    ensures Harvest(web, a + b) == Harvest(web, a) + Harvest(web, b)
    decreases |b|
  {
    if |b| == 0 {
      assert a + b == a;
    } else {
      var init := b[..|b| - 1];
      assert (a + b)[..|a + b| - 1] == a + init;
      HarvestAppend(web, a, init);
    }
  }

  /** A URL whose fetch fails contributes nothing and does not disturb the
      others: the records are those of the remaining URLs. */
  lemma FailedUrlOmitted(web: Web, urls: seq<string>, k: nat)
    requires k < |urls| && ScrapeUrl(web, urls[k]).None?
    ensures Harvest(web, urls) == Harvest(web, urls[..k] + urls[k + 1..])
  {
    assert urls == urls[..k] + [urls[k]] + urls[k + 1..];
    HarvestAppend(web, urls[..k] + [urls[k]], urls[k + 1..]);
    HarvestAppend(web, urls[..k], [urls[k]]);
    HarvestAppend(web, urls[..k], urls[k + 1..]);
    assert [urls[k]][..0] == [];
  }

  /** The records' URLs occur in `urls`, in strictly increasing positions. */
  predicate FollowsOrder(records: seq<Record>, urls: seq<string>) {
    && (forall i :: 0 <= i < |records| ==> records[i].url in urls)
    && (forall i, j :: 0 <= i < j < |records| ==>
          FirstIndex(urls, records[i].url) < FirstIndex(urls, records[j].url))
  }

  /** Over distinct URLs, the records come in the order of their URLs, so no
      page is recorded twice. */
  lemma {:induction false} HarvestFollowsUrlOrder(web: Web, urls: seq<string>)
    requires Distinct(urls)
    ensures FollowsOrder(Harvest(web, urls), urls)
    decreases |urls|
  {
    if |urls| > 0 {
      var n := |urls| - 1;
      var init := urls[..n];
      assert Distinct(init);
      HarvestFollowsUrlOrder(web, init);
      var prev := Harvest(web, init);
      PrefixOrderCarriesOver(prev, urls, n);
      if ScrapeUrl(web, urls[n]).Some? {
        assert urls[n] !in init;
        assert FirstIndex(urls, urls[n]) == n;
        AppendLastInOrder(prev, urls, ScrapeUrl(web, urls[n]).value);
      }
    }
  }

  /** Records ordered by a prefix of the URLs are ordered by all of them, and
      every one of them sits before the prefix's end. */
  lemma {:induction false} PrefixOrderCarriesOver(records: seq<Record>, urls: seq<string>, n: nat)
    requires n <= |urls| && FollowsOrder(records, urls[..n])
    ensures FollowsOrder(records, urls)
    ensures forall i :: 0 <= i < |records| ==> FirstIndex(urls, records[i].url) < n
  {
    forall i | 0 <= i < |records|
      ensures records[i].url in urls && FirstIndex(urls, records[i].url) == FirstIndex(urls[..n], records[i].url)
    {
      FirstIndexInPrefix(urls, n, records[i].url);
    }
  }

  /** A record for the last URL, which occurs nowhere earlier, extends the order. */
  lemma {:induction false} AppendLastInOrder(records: seq<Record>, urls: seq<string>, r: Record)
    requires |urls| > 0 && r.url == urls[|urls| - 1]
    requires FirstIndex(urls, r.url) == |urls| - 1
    requires FollowsOrder(records, urls)
    requires forall i :: 0 <= i < |records| ==> FirstIndex(urls, records[i].url) < |urls| - 1
    ensures FollowsOrder(records + [r], urls)
  {
    var ext := records + [r];
    var n := |records|;
    assert forall i :: 0 <= i < n ==> ext[i] == records[i];
    assert ext[n] == r;
    assert forall i :: 0 <= i < |ext| ==> ext[i].url in urls;
    forall i, j | 0 <= i < j < |ext|
      ensures FirstIndex(urls, ext[i].url) < FirstIndex(urls, ext[j].url)
    {
      if j < n {
        OrderedPair(records, urls, i, j);
      }
    }
  }

  /** Two records of an ordered list, by position. */
  lemma OrderedPair(records: seq<Record>, urls: seq<string>, i: nat, j: nat)
    requires FollowsOrder(records, urls) && i < j < |records|
    ensures records[i].url in urls && records[j].url in urls
    ensures FirstIndex(urls, records[i].url) < FirstIndex(urls, records[j].url)
  {
  }

  /** What `save_to_json` writes: the file name and the records. */
  datatype FileWrite = FileWrite(filename: string, records: seq<Record>)

  /** `save_to_json`: nothing is written for an empty list; otherwise the
      whole list goes to the file. */
  function SaveToJson(data: seq<Record>, filename: string): (w: Option<FileWrite>)
    ensures w.None? <==> |data| == 0
    ensures w.Some? ==> w.value.filename == filename && w.value.records == data
  {
    if |data| == 0 then None else Some(FileWrite(filename, data))
  }

  /** How a run ends: discovery raised, it found no URLs, or the URLs were
      scraped and the records handed to `save_to_json`. */
  datatype RunOutcome =
    | DiscoveryFailed(error: DiscoveryError)
    | NoUrls
    | Finished(records: seq<Record>, saved: Option<FileWrite>)

  /** The `__main__` block (scrapyy.py:202-219), with the listing page's
      articles standing for what the browser loaded. */
  function Run(articles: seq<Article>, web: Web): (out: RunOutcome)
    ensures out.DiscoveryFailed? <==> LinksOf(articles).Failure?
    ensures out.NoUrls? <==> LinksOf(articles) == Success([])
    ensures out.Finished? ==> LinksOf(articles).Success?
                              && out.records == Harvest(web, LinksOf(articles).value)
    ensures out.Finished? ==> (out.saved.Some? <==> out.records != [])
    ensures out.Finished? && out.saved.Some? ==> out.saved.value == FileWrite(OutputFile, out.records)
  {
    match LinksOf(articles)
    case Failure(e) => DiscoveryFailed(e)
    case Success(urls) =>
      if |urls| == 0 then NoUrls
      else
        var records := Harvest(web, urls);
        Finished(records, SaveToJson(records, OutputFile))
  }

  /** A run writes the output file exactly when discovery succeeds and at
      least one discovered URL yields a record. */
  lemma RunWritesIffSomeRecord(articles: seq<Article>, web: Web)
    ensures var out := Run(articles, web);
      (out.Finished? && out.saved.Some?) <==>
        (LinksOf(articles).Success? &&
         exists u :: u in LinksOf(articles).value && ScrapeUrl(web, u).Some?)
  {
    if LinksOf(articles).Success? {
      var urls := LinksOf(articles).value;
      var records := Harvest(web, urls);
      if u :| u in urls && ScrapeUrl(web, u).Some? {
        assert |urls| > 0;
        assert ScrapeUrl(web, u).value in records;
      } else if |records| > 0 {
        assert records[0] in records;
      }
    }
  }

  /** In a finished run no page is recorded twice, and the records follow the
      order in which their links were discovered. */
  lemma {:induction false} RunRecordsFollowDiscovery(articles: seq<Article>, web: Web)
    requires Run(articles, web).Finished?
    ensures FollowsOrder(Run(articles, web).records, LinksOf(articles).value)
  {
    HarvestFollowsUrlOrder(web, LinksOf(articles).value);
  }
}
