/** Concrete runs of the crawl loop. */
module Scenarios {
  import opened Samples
  import opened CrawlModel

  /** A site where "a" finds nothing, any other query finds two relative
      links, and every article has a title, a summary and a text. */
  function TwoLinkSite(): Site {
    Site(
      q => if q == "a" then [] else ["/x", "/y"],
      u => Ok(Page("T", "S", "B")),
      l => false)
  }

  /** The article loop over two new URLs whose pages are complete. */
  lemma TwoArticles(site: Site, x: string, y: string, p: Page, h: CrawlState)
    requires x != y && x !in h.seen && y !in h.seen
    requires site.get(x) == Ok(p) && site.get(y) == Ok(p) && p.text != "" && p.summary != ""
    ensures var v1 := Save(Emit(h, [Pause(Short), Get(x)]), Sample(x, Some(p.title), p.summary, p.text));
            VisitAll(site, [x, y], h) == Step(Save(Emit(v1, [Pause(Short), Get(y)]), Sample(y, Some(p.title), p.summary, p.text)), Scraped)
  {
    assert DropLast([x, y]) == [x] && DropLast([x]) == [];
    assert VisitAll(site, [], h) == Step(h, Scraped);
  }

  /** A query that finds nothing, with words left: the inner loop records
      the search, its short sleep and a backoff, then pops the next word. */
  lemma EmptyFirst(site: Site, query: string, st: CrawlState)
    requires site.search(query) == [] && st.words != []
    ensures var backoff := Emit(st, [Search(query, 0), Pause(Short), Pause(Long(EmptyQuery))]);
            Attempt(site, query, st) == Attempt(site, Last(st.words), Pop(backoff))
  {
    var searched := Emit(st, [Search(query, 0), Pause(Short)]);
    assert QueryOnce(site, query, st) == Step(searched, NoArticles);
    assert Emit(searched, [Pause(Long(EmptyQuery))]) == Emit(st, [Search(query, 0), Pause(Short), Pause(Long(EmptyQuery))]);
  }

  /** An outer iteration with no cooldown due whose query finds articles
      leads to the next iteration. */
  lemma CrawlNext(site: Site, maxArticles: int, st: CrawlState, track: int)
    requires st.length < maxArticles && st.length - track <= CooldownBatch && st.words != []
    requires Attempt(site, Last(st.words), Pop(st)).outcome == Continue
    ensures Crawl(site, maxArticles, st, track) == Crawl(site, maxArticles, Attempt(site, Last(st.words), Pop(st)).state, track)
  {
  }

  /** The state after "a" and its backoff. */
  function AfterBackoff(): CrawlState {
    CrawlState([], {}, 0, [], [Search("a", 0), Pause(Short), Pause(Long(EmptyQuery))])
  }

  /** The state after "b" has stored both of its articles. */
  function AfterOvershoot(): CrawlState {
    var x, y := BaseUrl + "/x", BaseUrl + "/y";
    CrawlState([], {x, y}, 2, [Sample(x, Some("T"), "S", "B"), Sample(y, Some("T"), "S", "B")],
               [Search("a", 0), Pause(Short), Pause(Long(EmptyQuery)),
                Search("b", 2), Pause(Short),
                Pause(Short), Get(x), Wrote(x),
                Pause(Short), Get(y), Wrote(y)])
  }

  /** The steps of "b", written out. */
  lemma OvershootSteps()
    ensures var x, y := BaseUrl + "/x", BaseUrl + "/y";
            var h := AfterBackoff().(trace := AfterBackoff().trace + [Search("b", 2), Pause(Short)]);
            var v1 := Save(Emit(h, [Pause(Short), Get(x)]), Sample(x, Some("T"), "S", "B"));
            Save(Emit(v1, [Pause(Short), Get(y)]), Sample(y, Some("T"), "S", "B")) == AfterOvershoot()
  {
  }

  /** "b" stores both of its articles. */
  lemma FoundSecond()
    ensures QueryOnce(TwoLinkSite(), "b", AfterBackoff()) == Step(AfterOvershoot(), Scraped)
  {
    var site := TwoLinkSite();
    var x, y := BaseUrl + "/x", BaseUrl + "/y";
    assert site.search("b") == ["/x", "/y"];
    assert ArticleUrls(site, "b") == [x, y];
    var h := AfterBackoff().(trace := AfterBackoff().trace + [Search("b", 2), Pause(Short)]);
    assert x[|x| - 1] == 'x' && y[|y| - 1] == 'y';
    TwoArticles(site, x, y, Page("T", "S", "B"), h);
    OvershootSteps();
  }

  /** Pool ["b", "a"], limit 1: "a" is popped first, finds nothing and is
      followed by a long backoff; "b" then saves both of its articles, one
      more than the limit, and the loop stops. */
  lemma OvershootExample()
    ensures var st := CrawlState(["b", "a"], {}, 0, [], []);
            Crawl(TwoLinkSite(), 1, st, 0) == Ending(AfterOvershoot(), Completed)
    ensures AfterOvershoot().length == 2 > 1
  {
    var site := TwoLinkSite();
    var st := CrawlState(["b", "a"], {}, 0, [], []);
    var s1 := CrawlState(["b"], {}, 0, [], []);
    assert Pop(st) == s1;
    assert site.search("a") == [];
    EmptyFirst(site, "a", s1);
    assert Pop(Emit(s1, [Search("a", 0), Pause(Short), Pause(Long(EmptyQuery))])) == AfterBackoff();
    FoundSecond();
    assert Attempt(site, "a", s1) == Ending(AfterOvershoot(), Continue);
    CrawlNext(site, 1, st, 0);
  }

  /** A pool whose only word finds nothing: one search, one backoff, and
      the run ends with the pool exhausted and nothing saved. */
  lemma ExhaustedExample()
    ensures var st := CrawlState(["a"], {}, 0, [], []);
            var r := Crawl(TwoLinkSite(), 1, st, 0);
            && r.outcome == Exhausted
            && r.state == CrawlState([], {}, 0, [], [Search("a", 0), Pause(Short), Pause(Long(EmptyQuery))])
  {
    var site := TwoLinkSite();
    var s1 := CrawlState([], {}, 0, [], []);
    assert site.search("a") == [];
    assert QueryOnce(site, "a", s1) == Step(s1.(trace := [Search("a", 0), Pause(Short)]), NoArticles);
  }

  /** As `TwoLinkSite`, but every article GET fails. */
  function FailingSite(): Site {
    Site(
      q => if q == "a" then [] else ["/x", "/y"],
      u => HttpError,
      l => false)
  }

  /** An HTTP error on the first article aborts the run: the second
      article is never fetched and nothing is saved. */
  lemma FaultExample()
    ensures var st := CrawlState(["b"], {}, 0, [], []);
            var r := Crawl(FailingSite(), 1, st, 0);
            var x := BaseUrl + "/x";
            && r.outcome == Aborted
            && r.state == CrawlState([], {}, 0, [], [Search("b", 2), Pause(Short), Pause(Short), Get(x)])
  {
    var site := FailingSite();
    var x, y := BaseUrl + "/x", BaseUrl + "/y";
    var s1 := CrawlState([], {}, 0, [], []);
    assert site.search("b") == ["/x", "/y"];
    assert ArticleUrls(site, "b") == [x, y];
    var h := s1.(trace := [Search("b", 2), Pause(Short)]);
    assert QueryOnce(site, "b", s1) == VisitAll(site, [x, y], h);
    assert DropLast([x, y]) == [x] && DropLast([x]) == [];
    assert VisitAll(site, [], h) == Step(h, Scraped);
    assert VisitAll(site, [x], h) == Step(Emit(h, [Pause(Short), Get(x)]), Faulted);
  }
}
