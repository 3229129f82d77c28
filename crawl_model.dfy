/** The crawl loop of the lrytas.lt scraper as pure functions on a crawl
    state. The browser and HTTP session are an oracle (`Site`); the sleeps
    are recorded as `Pause` events in a trace. The imperative `Scraper`
    class in module Crawler is proved to compute exactly these functions. */
module CrawlModel {
  import opened Samples

  /** Prefix put in front of a link that does not lead to lrytas.lt. */
  const BaseUrl: string := "https://www.lrytas.lt"

  /** A long cooldown is due once MORE than this many samples were saved
      since the last one. */
  const CooldownBatch: int := 25

  /** What the extraction of an article page yields; any field may be empty. */
  datatype Page = Page(title: string, summary: string, text: string)

  /** Outcome of the HTTP GET of an article page: `HttpError` stands for any
      exception of that GET, raised by the session itself (a connection
      error, a timeout) or by `raise_for_status` on an error status. */
  datatype Response = Ok(page: Page) | HttpError

  /** The outside world as seen by the crawler:
      - `search`: the hrefs found under the h3 headings of the search page
        for a query;
      - `get`: the article page behind a URL;
      - `isLrytasDomain`: whether the registered domain of a link is lrytas. */
  datatype Site = Site(
    search: string -> seq<string>,
    get: string -> Response,
    isLrytasDomain: string -> bool)

  datatype Cause = Track | EmptyQuery
  datatype Delay = Short | Long(cause: Cause)

  /** Observable effects of the crawler, in the order they happen:
      a search page loaded (with the number of article URLs found on it),
      a sleep, an article GET, and a record written to the store. */
  datatype Event = Search(query: string, hits: nat) | Pause(delay: Delay) | Get(url: string) | Wrote(url: string)

  /** Result of `_get_article_data`: a sample, `None` (missing fields), or
      an exception from the HTTP layer. */
  datatype Fetch = Found(sample: Sample) | Missing | Fault

  /** Result of `_scrape`: False, True, or an exception passing through. */
  datatype Status = NoArticles | Scraped | Faulted

  /** How `scrape` ends. `Continue` only occurs internally, after a query
      that found articles. `Exhausted` is `pop` on an empty word pool. */
  datatype Outcome = Continue | Completed | Exhausted | Aborted

  /** The scraper's mutable state: the word pool, `seen_urls`,
      `dataset_length`, the contents of the store file, and the trace. */
  datatype CrawlState = CrawlState(
    words: seq<string>,
    seen: set<string>,
    length: int,
    store: seq<Sample>,
    trace: seq<Event>)

  datatype Step = Step(state: CrawlState, status: Status)
  datatype Ending = Ending(state: CrawlState, outcome: Outcome)

  /** The in-memory counters agree with the store. */
  ghost predicate Consistent(st: CrawlState) {
    st.length == |st.store| && st.seen == Urls(st.store)
  }

  /** URL normalisation of `_get_article_urls`. */
  function ArticleUrl(site: Site, link: string): (url: string)
    ensures |link| <= |url| && url[|url| - |link|..] == link
    ensures site.isLrytasDomain(link) ==> url == link
    ensures !site.isLrytasDomain(link) ==> |url| == |BaseUrl| + |link| && url[..|BaseUrl|] == BaseUrl
  {
    if site.isLrytasDomain(link) then link else BaseUrl + link
  }

  /** The article URLs collected from the search page of a query. */
  function ArticleUrls(site: Site, query: string): (urls: seq<string>)
    ensures |urls| == |site.search(query)|
    ensures forall i | 0 <= i < |urls| :: urls[i] == ArticleUrl(site, site.search(query)[i])
  {
    var links := site.search(query);
    seq(|links|, i requires 0 <= i < |links| => ArticleUrl(site, links[i]))
  }

  /** The validation branch of `_get_article_data`. */
  function ArticleData(site: Site, url: string): (r: Fetch)
    ensures r.Fault? <==> site.get(url).HttpError?
    ensures r.Missing? <==> site.get(url).Ok? && (site.get(url).page.text == "" || site.get(url).page.summary == "")
    ensures r.Found? ==> && r.sample.url == url && Persistable(r.sample)
                         && r.sample.title == Some(site.get(url).page.title)
                         && r.sample.summary == site.get(url).page.summary
                         && r.sample.text == site.get(url).page.text
  {
    match site.get(url)
    case HttpError => Fault
    case Ok(page) =>
      if page.text == "" || page.summary == "" then Missing
      else Found(Sample(url, Some(page.title), page.summary, page.text))
  }

  function Emit(st: CrawlState, events: seq<Event>): CrawlState {
    st.(trace := st.trace + events)
  }

  /** `_save_sample`: append the record, mark its URL, count it. */
  function Save(st: CrawlState, s: Sample): CrawlState {
    CrawlState(st.words, st.seen + {s.url}, st.length + 1, st.store + [s], st.trace + [Wrote(s.url)])
  }

  /** Removes the last word of the pool (`words.pop()`). */
  function Pop(st: CrawlState): CrawlState
    requires st.words != []
  {
    st.(words := DropLast(st.words))
  }

  /** One iteration of the `for` loop of `_scrape`. */
  function Visit(site: Site, url: string, st: CrawlState): Step {
    if url in st.seen then Step(st, Scraped)
    else
      var fetched := Emit(st, [Pause(Short), Get(url)]);
      match ArticleData(site, url)
      case Fault => Step(fetched, Faulted)
      case Missing => Step(fetched, Scraped)
      case Found(s) => Step(Save(fetched, s), Scraped)
  }

  /** The whole `for` loop of `_scrape` over `urls`, stopping at the first
      HTTP fault. */
  function VisitAll(site: Site, urls: seq<string>, st: CrawlState): (r: Step)
    ensures r.status != NoArticles
    ensures r.state.words == st.words
    decreases |urls|
  {
    if urls == [] then Step(st, Scraped)
    else
      var prev := VisitAll(site, DropLast(urls), st);
      if prev.status == Faulted then prev else Visit(site, Last(urls), prev.state)
  }

  /** `_scrape(query)`. */
  function QueryOnce(site: Site, query: string, st: CrawlState): (r: Step)
    ensures r.status == NoArticles <==> site.search(query) == []
    ensures r.state.words == st.words
  {
    var urls := ArticleUrls(site, query);
    var searched := Emit(st, [Search(query, |urls|), Pause(Short)]);
    if urls == [] then Step(searched, NoArticles) else VisitAll(site, urls, searched)
  }

  /** The inner `while not self._scrape(query)` loop of `scrape`, entered
      with an already popped query. */
  function Attempt(site: Site, query: string, st: CrawlState): (r: Ending)
    ensures r.state.words <= st.words
    ensures r.outcome != Completed
    decreases |st.words|, 1
  {
    Retry(site, QueryOnce(site, query, st))
  }

  /** What the inner loop does after a `_scrape` call has returned. */
  function Retry(site: Site, s: Step): (r: Ending)
    ensures r.state.words <= s.state.words
    ensures r.outcome != Completed
    decreases |s.state.words|, 0
  {
    match s.status
    case Faulted => Ending(s.state, Aborted)
    case Scraped => Ending(s.state, Continue)
    case NoArticles =>
      var backoff := Emit(s.state, [Pause(Long(EmptyQuery))]);
      if backoff.words == [] then Ending(backoff, Exhausted)
      else Attempt(site, Last(backoff.words), Pop(backoff))
  }

  /** The state after the cooldown check, and the count it measures from. */
  datatype Cooled = Cooled(state: CrawlState, track: int)

  /** The cooldown check at the head of the outer loop of `scrape`: once
      more than `CooldownBatch` samples were added since `track`, a long
      sleep is taken and the count is measured from the current length. */
  function Cooldown(st: CrawlState, track: int): Cooled {
    if st.length - track > CooldownBatch then Cooled(Emit(st, [Pause(Long(Track))]), st.length)
    else Cooled(st, track)
  }

  /** The body of the outer loop of `scrape` up to the end: the cooldown
      check at its head, one query (with its retries), and the loop test. */
  function Crawl(site: Site, maxArticles: int, st: CrawlState, track: int): (r: Ending)
    ensures r.outcome != Continue
    decreases |st.words|
  {
    if st.length >= maxArticles then Ending(st, Completed)
    else
      var c := Cooldown(st, track);
      if c.state.words == [] then Ending(c.state, Exhausted)
      else
        var r := Attempt(site, Last(c.state.words), Pop(c.state));
        if r.outcome == Continue then Crawl(site, maxArticles, r.state, c.track) else r
  }

  // ---- reading the trace ----

  /** The search queries issued, in order. */
  function Queries(t: seq<Event>): seq<string> {
    if t == [] then []
    else Queries(DropLast(t)) + (if Last(t).Search? then [Last(t).query] else [])
  }

  /** The number of events satisfying `p`. */
  function CountIf(t: seq<Event>, p: Event -> bool): nat {
    if t == [] then 0 else CountIf(DropLast(t), p) + (if p(Last(t)) then 1 else 0)
  }

  predicate IsEmptySearch(e: Event) { e.Search? && e.hits == 0 }
  predicate IsQueryBackoff(e: Event) { e == Pause(Long(EmptyQuery)) }
  predicate IsCooldown(e: Event) { e == Pause(Long(Track)) }
  predicate IsWrote(e: Event) { e.Wrote? }

  /** URLs of the records written. */
  function WrittenUrls(t: seq<Event>): set<string> {
    set e | e in t && e.Wrote? :: e.url
  }

  /** No article is fetched whose URL was seen at the start or has been
      written since. */
  ghost predicate NoRefetch(seen: set<string>, t: seq<Event>) {
    forall j | 0 <= j < |t| && t[j].Get? :: t[j].url !in seen && Wrote(t[j].url) !in t[..j]
  }

  /** The last event is the GET of a URL whose response is an HTTP error. */
  ghost predicate FaultedOn(site: Site, st: CrawlState) {
    st.trace != [] && Last(st.trace).Get? && site.get(Last(st.trace).url).HttpError?
  }
}
