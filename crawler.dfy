/** The `Scraper` class of the lrytas.lt crawler: its counters, its word
    pool and its store are fields that the methods update in place. Each
    method is proved to compute the corresponding function of CrawlModel,
    so every property proved there holds of the object. */
module Crawler {
  import opened Samples
  import opened CrawlModel
  import opened CrawlProofs

  class Scraper {
    const maxArticles: int
    /** The browser, the HTTP session and the domain parser. */
    const site: Site
    var datasetLength: int
    var seenUrls: set<string>
    /** The shuffled word pool; `pop` takes from the end. */
    var words: seq<string>
    /** The records of the JSONL store file, in file order. */
    var store: seq<Sample>
    /** What the crawler has done so far. */
    var trace: seq<Event>

    function State(): CrawlState
      reads this
    {
      CrawlState(words, seenUrls, datasetLength, store, trace)
    }

    /** The counters agree with the store. */
    ghost predicate Valid()
      reads this
    {
      Consistent(State())
    }

    /** `__init__`: the counters are read back from the store left by an
        earlier run (an absent store file is an empty `stored`), then the
        pool is installed. */
    constructor (stored: seq<Sample>, maxArticles: int, pool: seq<string>, site: Site)
      ensures this.maxArticles == maxArticles && this.site == site
      ensures State() == CrawlState(pool, Urls(stored), |stored|, stored, [])
      ensures Valid()
    {
      this.maxArticles := maxArticles;
      this.site := site;
      datasetLength := 0;
      seenUrls := {};
      words := [];
      store := stored;
      trace := [];
      new;
      GetDatasetInfo();
      words := pool;
    }

    /** `_get_dataset_info`: one pass over the store, adding each URL and
        counting each record. */
    method GetDatasetInfo()
      modifies this`seenUrls, this`datasetLength
      ensures seenUrls == old(seenUrls) + Urls(store)
      ensures datasetLength == old(datasetLength) + |store|
    {
      for i := 0 to |store|
        invariant seenUrls == old(seenUrls) + Urls(store[..i])
        invariant datasetLength == old(datasetLength) + i
      {
        assert store[..i + 1] == store[..i] + [store[i]];
        UrlsAppend(store[..i], [store[i]]);
        assert Urls([store[i]]) == {store[i].url};
        seenUrls := seenUrls + {store[i].url};
        datasetLength := datasetLength + 1;
      }
      assert store[..|store|] == store;
    }

    /** `_save_sample`: append the record to the store, remember its URL
        and count it. */
    method SaveSample(s: Sample)
      modifies this`store, this`seenUrls, this`datasetLength, this`trace
      ensures State() == Save(old(State()), s)
      ensures old(Valid()) ==> Valid()
    {
      UrlsAppend(store, [s]);
      assert Urls([s]) == {s.url};
      store := store + [s];
      trace := trace + [Wrote(s.url)];
      seenUrls := seenUrls + {s.url};
      datasetLength := datasetLength + 1;
    }

    method ShortSleep()
      modifies this`trace
      ensures State() == Emit(old(State()), [Pause(Short)])
    {
      trace := trace + [Pause(Short)];
    }

    method LongSleep(cause: Cause)
      modifies this`trace
      ensures State() == Emit(old(State()), [Pause(Long(cause))])
    {
      trace := trace + [Pause(Long(cause))];
    }

    /** `self.words.pop()`; `None` where Python raises IndexError. */
    method PopWord() returns (word: Option<string>)
      modifies this`words
      ensures old(words) == [] ==> word == None && State() == old(State())
      ensures old(words) != [] ==> word == Some(Last(old(words))) && State() == Pop(old(State()))
    {
      if words == [] {
        word := None;
      } else {
        word := Some(Last(words));
        words := DropLast(words);
      }
    }

    /** `_get_article_urls`: load the search page, sleep, then normalise
        every link found under an h3 heading. */
    method GetArticleUrls(query: string) returns (urls: seq<string>)
      modifies this`trace
      ensures urls == ArticleUrls(site, query)
      ensures State() == Emit(old(State()), [Search(query, |urls|), Pause(Short)])
    {
      var links := site.search(query);
      trace := trace + [Search(query, |links|)];
      ShortSleep();
      urls := [];
      for i := 0 to |links|
        invariant |urls| == i
        invariant forall k | 0 <= k < i :: urls[k] == ArticleUrl(site, links[k])
      {
        var url;
        if !site.isLrytasDomain(links[i]) {
          url := BaseUrl + links[i];
        } else {
          url := links[i];
        }
        urls := urls + [url];
      }
    }

    /** `_get_article_data`: sleep, fetch, and check the extracted fields. */
    method GetArticleData(url: string) returns (fetched: Fetch)
      modifies this`trace
      ensures fetched == ArticleData(site, url)
      ensures State() == Emit(old(State()), [Pause(Short), Get(url)])
    {
      ShortSleep();
      var response := site.get(url);
      trace := trace + [Get(url)];
      match response
      case HttpError =>
        fetched := Fault;
      case Ok(page) =>
        if page.text == "" || page.summary == "" {
          fetched := Missing;
        } else {
          fetched := Found(Sample(url, Some(page.title), page.summary, page.text));
        }
    }

    /** The body of the `for` loop of `_scrape`: skip a known URL,
        otherwise fetch the article and save it if it is complete. */
    method VisitArticle(url: string) returns (status: Status)
      modifies this`store, this`seenUrls, this`datasetLength, this`trace
      ensures Step(State(), status) == Visit(site, url, old(State()))
      ensures old(Valid()) ==> Valid()
    {
      VisitKeepsStoreIf(site, url, State());
      if url in seenUrls {
        return Scraped;
      }
      var fetched := GetArticleData(url);
      match fetched
      case Fault =>
        status := Faulted;
      case Missing =>
        status := Scraped;
      case Found(s) =>
        SaveSample(s);
        status := Scraped;
    }

    /** The `for` loop of `_scrape` over the article URLs of a query,
        stopping at the first HTTP fault. */
    method VisitArticles(urls: seq<string>) returns (status: Status)
      modifies this`store, this`seenUrls, this`datasetLength, this`trace
      ensures Step(State(), status) == VisitAll(site, urls, old(State()))
    {
      ghost var start := State();
      for i := 0 to |urls|
        invariant VisitAll(site, urls[..i], start) == Step(State(), Scraped)
      {
        VisitAllNext(site, urls, i, start);
        status := VisitArticle(urls[i]);
        if status == Faulted {
          VisitAllStopsAtFault(site, urls, i + 1, start);
          return;
        }
      }
      assert urls[..|urls|] == urls;
      return Scraped;
    }

    /** `_scrape(query)`. */
    method ScrapeQuery(query: string) returns (status: Status)
      modifies this`store, this`seenUrls, this`datasetLength, this`trace
      ensures Step(State(), status) == QueryOnce(site, query, old(State()))
      ensures old(Valid()) ==> Valid()
    {
      QueryKeepsStoreIf(site, query, State());
      var urls := GetArticleUrls(query);
      if urls == [] {
        return NoArticles;
      }
      status := VisitArticles(urls);
    }

    /** The inner loop of `scrape`: `_scrape` the popped query and, while
        a query finds no articles, sleep long and pop the next word. */
    method ScrapeUntilFound(query: string) returns (outcome: Outcome)
      modifies this`store, this`seenUrls, this`datasetLength, this`trace, this`words
      ensures Ending(State(), outcome) == Attempt(site, query, old(State()))
      ensures old(Valid()) ==> Valid()
    {
      AttemptKeepsStoreIf(site, query, State());
      ghost var attempt := Attempt(site, query, State());
      var status := ScrapeQuery(query);
      while status == NoArticles
        invariant Retry(site, Step(State(), status)) == attempt
        decreases |words|
      {
        LongSleep(EmptyQuery);
        var next := PopWord();
        if next.None? {
          return Exhausted;
        }
        status := ScrapeQuery(next.value);
      }
      outcome := if status == Faulted then Aborted else Continue;
    }

    /** `scrape`: query until `maxArticles` samples are stored, with a long
        cooldown at the head of an iteration once more than
        `CooldownBatch` samples were added since the last one or the
        start of the run. */
    method Scrape() returns (outcome: Outcome)
      modifies this
      ensures Ending(State(), outcome) == Crawl(site, maxArticles, old(State()), old(datasetLength))
      ensures old(Valid()) ==> Valid()
    {
      ghost var goal := Crawl(site, maxArticles, State(), datasetLength);
      CrawlKeepsStoreIf(site, maxArticles, State(), datasetLength);
      var track := datasetLength;
      while datasetLength < maxArticles
        invariant Crawl(site, maxArticles, State(), track) == goal
        decreases |words|
      {
        if datasetLength - track > CooldownBatch {
          LongSleep(Track);
          track := datasetLength;
        }
        var next := PopWord();
        if next.None? {
          return Exhausted;
        }
        outcome := ScrapeUntilFound(next.value);
        if outcome != Continue {
          return;
        }
      }
      outcome := Completed;
    }
  }

  lemma VisitKeepsStoreIf(site: Site, url: string, st: CrawlState)
    ensures Consistent(st) ==> Consistent(Visit(site, url, st).state)
  {
    if Consistent(st) {
      VisitAppends(site, url, st);
      AppendsConsistent(st, Visit(site, url, st).state);
    }
  }

  lemma QueryKeepsStoreIf(site: Site, query: string, st: CrawlState)
    ensures Consistent(st) ==> Consistent(QueryOnce(site, query, st).state)
  {
    if Consistent(st) {
      ScrapeKeepsStore(site, query, st);
    }
  }

  lemma {:induction false} AttemptKeepsStoreIf(site: Site, query: string, st: CrawlState)
    ensures Consistent(st) ==> Consistent(Attempt(site, query, st).state)
    decreases |st.words|
  {
    var s := QueryOnce(site, query, st);
    QueryKeepsStoreIf(site, query, st);
    if s.status == NoArticles {
      var backoff := Emit(s.state, [Pause(Long(EmptyQuery))]);
      if backoff.words != [] {
        AttemptKeepsStoreIf(site, Last(backoff.words), Pop(backoff));
      }
    }
  }

  lemma CrawlKeepsStoreIf(site: Site, maxArticles: int, st: CrawlState, track: int)
    ensures Consistent(st) ==> Consistent(Crawl(site, maxArticles, st, track).state)
  {
    if Consistent(st) {
      CrawlKeepsStore(site, maxArticles, st, track);
    }
  }
}
