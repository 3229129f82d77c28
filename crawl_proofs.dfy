/** What the crawl loop guarantees, proved about the functions of CrawlModel:
    the store only grows by fresh, valid records; the counters stay in step
    with it; no URL is fetched once it is known; each query pops the last
    word; there are as many long backoffs as empty searches;
    cooldowns are bounded by the saved samples and a due one comes first;
    and no search is made once the target is reached. */
module CrawlProofs {
  import opened Samples
  import opened CrawlModel

  // ---- trace algebra ----

  lemma {:induction false} QueriesAppend(a: seq<Event>, b: seq<Event>)
    ensures Queries(a + b) == Queries(a) + Queries(b)
    decreases |b|
  {
    if b == [] {
      assert a + b == a;
    } else {
      assert DropLast(a + b) == a + DropLast(b);
      assert Last(a + b) == Last(b);
      QueriesAppend(a, DropLast(b));
    }
  }

  lemma {:induction false} CountIfAppend(a: seq<Event>, b: seq<Event>, p: Event -> bool)
    ensures CountIf(a + b, p) == CountIf(a, p) + CountIf(b, p)
    decreases |b|
  {
    if b == [] {
      assert a + b == a;
    } else {
      assert DropLast(a + b) == a + DropLast(b);
      assert Last(a + b) == Last(b);
      CountIfAppend(a, DropLast(b), p);
    }
  }

  lemma QueriesSnoc(t: seq<Event>, e: Event)
    ensures Queries(t + [e]) == Queries(t) + (if e.Search? then [e.query] else [])
  {
    assert DropLast(t + [e]) == t;
  }

  lemma CountIfSnoc(t: seq<Event>, e: Event, p: Event -> bool)
    ensures CountIf(t + [e], p) == CountIf(t, p) + (if p(e) then 1 else 0)
  {
    assert DropLast(t + [e]) == t;
  }

  lemma CountIfSingle(e: Event, p: Event -> bool)
    ensures CountIf([e], p) == (if p(e) then 1 else 0)
  {
    assert DropLast([e]) == [];
  }

  lemma WrittenUrlsAppend(a: seq<Event>, b: seq<Event>)
    ensures WrittenUrls(a + b) == WrittenUrls(a) + WrittenUrls(b)
  {
    assert forall e :: e in a + b <==> e in a || e in b;
  }

  /** A stretch of trace with no search and no long sleep. */
  ghost predicate Quiet(t: seq<Event>) {
    forall i | 0 <= i < |t| :: !t[i].Search? && !(t[i].Pause? && t[i].delay.Long?)
  }

  lemma {:induction false} QuietCounts(t: seq<Event>)
    requires Quiet(t)
    ensures Queries(t) == []
    ensures CountIf(t, IsEmptySearch) == 0 && CountIf(t, IsQueryBackoff) == 0 && CountIf(t, IsCooldown) == 0
    decreases |t|
  {
    if t != [] {
      assert Last(t) == t[|t| - 1];
      assert Quiet(DropLast(t));
      QuietCounts(DropLast(t));
    }
  }

  /** A stretch with no event satisfying `p` counts zero. */
  lemma {:induction false} CountIfNone(t: seq<Event>, p: Event -> bool)
    requires forall i | 0 <= i < |t| :: !p(t[i])
    ensures CountIf(t, p) == 0
    decreases |t|
  {
    if t != [] {
      assert Last(t) == t[|t| - 1];
      CountIfNone(DropLast(t), p);
    }
  }

  lemma QuietAppend(a: seq<Event>, b: seq<Event>)
    requires Quiet(a) && Quiet(b)
    ensures Quiet(a + b)
  {
    forall i | 0 <= i < |a + b|
      ensures !(a + b)[i].Search? && !((a + b)[i].Pause? && (a + b)[i].delay.Long?)
    {
      if i >= |a| {
        assert (a + b)[i] == b[i - |a|];
      }
    }
  }

  // ---- how one state leads to a later one ----

  /** The records added to the store between two states. */
  function Added(a: CrawlState, b: CrawlState): seq<Sample>
    requires |a.store| <= |b.store|
  {
    b.store[|a.store|..]
  }

  /** The events recorded between two states. */
  function Delta(a: CrawlState, b: CrawlState): seq<Event>
    requires |a.trace| <= |b.trace|
  {
    b.trace[|a.trace|..]
  }

  /** New records all have unknown URLs, distinct from each other, and
      non-empty text and summary. */
  ghost predicate FreshRecords(seen: set<string>, added: seq<Sample>) {
    && DistinctUrls(added)
    && forall i | 0 <= i < |added| :: added[i].url !in seen && Persistable(added[i])
  }

  /** `b` is `a` after appends to the store and to the trace, with the
      counters moved by exactly the records appended, one write event per
      record, and every fetch made for a URL that was neither known nor
      written. */
  ghost predicate Appends(a: CrawlState, b: CrawlState) {
    && a.store <= b.store
    && a.trace <= b.trace
    && b.length == a.length + |Added(a, b)|
    && b.seen == a.seen + Urls(Added(a, b))
    && FreshRecords(a.seen, Added(a, b))
    && WrittenUrls(Delta(a, b)) == Urls(Added(a, b))
    && CountIf(Delta(a, b), IsWrote) == |Added(a, b)|
    && NoRefetch(a.seen, Delta(a, b))
  }

  /** `Appends`, and in addition: the pool shrank from the end, the queries
      issued are the removed words, last one first, and there are as many
      long backoffs for empty searches as empty searches. */
  ghost predicate Advances(a: CrawlState, b: CrawlState) {
    && Appends(a, b)
    && b.words <= a.words
    && Queries(Delta(a, b)) == Reversed(a.words[|b.words|..])
    && CountIf(Delta(a, b), IsEmptySearch) == CountIf(Delta(a, b), IsQueryBackoff)
  }

  lemma AppendsSame(a: CrawlState, b: CrawlState)
    requires a.store == b.store && a.trace == b.trace && a.length == b.length && a.seen == b.seen
    ensures Appends(a, b)
  {
    assert Added(a, b) == [];
    assert Delta(a, b) == [];
  }

  lemma FreshAppend(seen: set<string>, x: seq<Sample>, y: seq<Sample>)
    requires FreshRecords(seen, x) && FreshRecords(seen + Urls(x), y)
    ensures FreshRecords(seen, x + y)
  {
    var z := x + y;
    forall i, j | 0 <= i < j < |z| ensures z[i].url != z[j].url {
      if i < |x| && j >= |x| {
        assert z[i] == x[i] && x[i] in x;
        assert z[j] == y[j - |x|];
      } else if i >= |x| {
        assert z[i] == y[i - |x|] && z[j] == y[j - |x|];
      }
    }
    forall i | 0 <= i < |z| ensures z[i].url !in seen && Persistable(z[i]) {
      if i >= |x| {
        assert z[i] == y[i - |x|];
      }
    }
  }

  lemma NoRefetchAppend(seen: set<string>, t1: seq<Event>, t2: seq<Event>)
    requires NoRefetch(seen, t1) && NoRefetch(seen + WrittenUrls(t1), t2)
    ensures NoRefetch(seen, t1 + t2)
  {
    var t := t1 + t2;
    forall j | 0 <= j < |t| && t[j].Get?
      ensures t[j].url !in seen && Wrote(t[j].url) !in t[..j]
    {
      if j < |t1| {
        assert t[j] == t1[j] && t[..j] == t1[..j];
      } else {
        var k := j - |t1|;
        assert t[j] == t2[k] && t[..j] == t1 + t2[..k];
        var u := t2[k].url;
        assert Wrote(u) in t1 ==> u in WrittenUrls(t1);
      }
    }
  }

  lemma AppendsTrans(a: CrawlState, b: CrawlState, c: CrawlState)
    requires Appends(a, b) && Appends(b, c)
    ensures Appends(a, c)
  {
    assert a.store <= c.store;
    assert a.trace <= c.trace;
    assert Added(a, c) == Added(a, b) + Added(b, c);
    assert Delta(a, c) == Delta(a, b) + Delta(b, c);
    UrlsAppend(Added(a, b), Added(b, c));
    WrittenUrlsAppend(Delta(a, b), Delta(b, c));
    CountIfAppend(Delta(a, b), Delta(b, c), IsWrote);
    FreshAppend(a.seen, Added(a, b), Added(b, c));
    NoRefetchAppend(a.seen, Delta(a, b), Delta(b, c));
  }

  /** The word and count parts of `Advances` compose. */
  lemma ConsumesTrans(wa: seq<string>, wb: seq<string>, wc: seq<string>, ta: seq<Event>, tb: seq<Event>, tc: seq<Event>)
    requires wb <= wa && wc <= wb && ta <= tb && tb <= tc
    requires Queries(tb[|ta|..]) == Reversed(wa[|wb|..]) && Queries(tc[|tb|..]) == Reversed(wb[|wc|..])
    requires CountIf(tb[|ta|..], IsEmptySearch) == CountIf(tb[|ta|..], IsQueryBackoff)
    requires CountIf(tc[|tb|..], IsEmptySearch) == CountIf(tc[|tb|..], IsQueryBackoff)
    ensures Queries(tc[|ta|..]) == Reversed(wa[|wc|..])
    ensures CountIf(tc[|ta|..], IsEmptySearch) == CountIf(tc[|ta|..], IsQueryBackoff)
  {
    SliceSplit(ta, tb, tc);
    assert wa[|wc|..] == wb[|wc|..] + wa[|wb|..];
    QueriesAppend(tb[|ta|..], tc[|tb|..]);
    ReversedAppend(wb[|wc|..], wa[|wb|..]);
    CountIfAppend(tb[|ta|..], tc[|tb|..], IsEmptySearch);
    CountIfAppend(tb[|ta|..], tc[|tb|..], IsQueryBackoff);
  }

  lemma AdvancesTrans(a: CrawlState, b: CrawlState, c: CrawlState)
    requires Advances(a, b) && Advances(b, c)
    ensures Advances(a, c)
  {
    AppendsTrans(a, b, c);
    ConsumesTrans(a.words, b.words, c.words, a.trace, b.trace, c.trace);
  }

  /** Appending events that write nothing and fetch only unknown URLs. */
  lemma EmitAppends(st: CrawlState, events: seq<Event>)
    requires forall i | 0 <= i < |events| :: !events[i].Wrote? && (events[i].Get? ==> events[i].url !in st.seen)
    ensures Appends(st, Emit(st, events)) && Delta(st, Emit(st, events)) == events
  {
    var b := Emit(st, events);
    assert Added(st, b) == [];
    assert Delta(st, b) == events;
    CountIfNone(events, IsWrote);
  }

  lemma SaveAppends(st: CrawlState, s: Sample)
    requires s.url !in st.seen && Persistable(s)
    ensures Appends(st, Save(st, s)) && Added(st, Save(st, s)) == [s] && Delta(st, Save(st, s)) == [Wrote(s.url)]
  {
    var b := Save(st, s);
    assert Added(st, b) == [s];
    assert Delta(st, b) == [Wrote(s.url)];
    CountIfSingle(Wrote(s.url), IsWrote);
    assert Urls([s]) == {s.url};
    assert WrittenUrls([Wrote(s.url)]) == {s.url};
  }

  // ---- the steps of `_scrape` ----

  lemma VisitAppends(site: Site, url: string, st: CrawlState)
    ensures var r := Visit(site, url, st);
            && Appends(st, r.state)
            && Quiet(Delta(st, r.state))
            && (r.status == Faulted ==> FaultedOn(site, r.state))
  {
    var r := Visit(site, url, st);
    if url in st.seen {
      AppendsSame(st, r.state);
    } else {
      var fetched := Emit(st, [Pause(Short), Get(url)]);
      EmitAppends(st, [Pause(Short), Get(url)]);
      match ArticleData(site, url)
      case Fault =>
      case Missing =>
      case Found(s) =>
        FetchSaveAppends(st, s);
    }
  }

  /** Fetching an unknown article and saving its record. */
  lemma FetchSaveAppends(st: CrawlState, s: Sample)
    requires s.url !in st.seen && Persistable(s)
    ensures var b := Save(Emit(st, [Pause(Short), Get(s.url)]), s);
            && Appends(st, b)
            && Delta(st, b) == [Pause(Short), Get(s.url), Wrote(s.url)]
  {
    var fetched := Emit(st, [Pause(Short), Get(s.url)]);
    var b := Save(fetched, s);
    EmitAppends(st, [Pause(Short), Get(s.url)]);
    SaveAppends(fetched, s);
    AppendsTrans(st, fetched, b);
    assert Delta(st, b) == [Pause(Short), Get(s.url)] + [Wrote(s.url)];
  }

  /** Quiet stretches of a growing trace join into a quiet stretch. */
  lemma QuietTrans(ta: seq<Event>, tb: seq<Event>, tc: seq<Event>)
    requires ta <= tb && tb <= tc
    requires Quiet(tb[|ta|..]) && Quiet(tc[|tb|..])
    ensures Quiet(tc[|ta|..])
  {
    SliceSplit(ta, tb, tc);
    QuietAppend(tb[|ta|..], tc[|tb|..]);
  }

  lemma {:induction false} VisitAllAppends(site: Site, urls: seq<string>, st: CrawlState)
    ensures var r := VisitAll(site, urls, st);
            && Appends(st, r.state)
            && Quiet(Delta(st, r.state))
            && (r.status == Faulted ==> FaultedOn(site, r.state))
    decreases |urls|
  {
    if urls == [] {
      AppendsSame(st, st);
      assert Delta(st, st) == [];
    } else {
      var prev := VisitAll(site, DropLast(urls), st);
      VisitAllAppends(site, DropLast(urls), st);
      if prev.status != Faulted {
        var r := Visit(site, Last(urls), prev.state);
        VisitAppends(site, Last(urls), prev.state);
        AppendsTrans(st, prev.state, r.state);
        QuietTrans(st.trace, prev.state.trace, r.state.trace);
      }
    }
  }

  /** One more URL of the `for` loop of `_scrape`. */
  lemma VisitAllNext(site: Site, urls: seq<string>, i: nat, st: CrawlState)
    requires i < |urls|
    ensures var prev := VisitAll(site, urls[..i], st);
            VisitAll(site, urls[..i + 1], st) == if prev.status == Faulted then prev else Visit(site, urls[i], prev.state)
  {
    assert DropLast(urls[..i + 1]) == urls[..i] && Last(urls[..i + 1]) == urls[i];
  }

  /** An HTTP error ends the `for` loop of `_scrape`: the articles after
      the failing one are never visited. */
  lemma {:induction false} VisitAllStopsAtFault(site: Site, urls: seq<string>, k: nat, st: CrawlState)
    requires k <= |urls|
    requires VisitAll(site, urls[..k], st).status == Faulted
    ensures VisitAll(site, urls, st) == VisitAll(site, urls[..k], st)
    decreases |urls|
  {
    if k == |urls| {
      assert urls[..k] == urls;
    } else {
      assert DropLast(urls)[..k] == urls[..k];
      VisitAllStopsAtFault(site, DropLast(urls), k, st);
    }
  }

  /** The URLs among `urls` whose article page is complete. */
  function Complete(site: Site, urls: seq<string>): set<string> {
    set u | u in urls && ArticleData(site, u).Found?
  }

  lemma CompleteSnoc(site: Site, urls: seq<string>, u: string)
    ensures Complete(site, urls + [u]) == Complete(site, urls) + (if ArticleData(site, u).Found? then {u} else {})
  {
    assert forall v :: v in urls + [u] <==> v in urls || v == u;
  }

  /** The article loop, when no GET fails, leaves every URL of a complete
      article known: the ones known before and, of the rest, exactly those
      it saves. */
  lemma {:induction false} VisitAllSaves(site: Site, urls: seq<string>, st: CrawlState)
    ensures var r := VisitAll(site, urls, st);
            r.status != Faulted ==> r.state.seen == st.seen + Complete(site, urls)
    decreases |urls|
  {
    if urls == [] {
      assert Complete(site, urls) == {};
    } else {
      var u := Last(urls);
      var prev := VisitAll(site, DropLast(urls), st);
      VisitAllSaves(site, DropLast(urls), st);
      assert urls == DropLast(urls) + [u];
      CompleteSnoc(site, DropLast(urls), u);
    }
  }

  /** `_scrape(query)` writes each record exactly as fetched for its URL,
      and without an HTTP error it stores every article of the search page
      that is complete and was not known, and nothing else: the URLs of the
      records it appends are exactly those. */
  lemma ScrapeStoresAll(site: Site, query: string, st: CrawlState)
    ensures var r := QueryOnce(site, query, st);
            && st.store <= r.state.store
            && (forall i | |st.store| <= i < |r.state.store| :: ArticleData(site, r.state.store[i].url) == Found(r.state.store[i]))
            && (r.status != Faulted ==>
                  Urls(Added(st, r.state)) == Complete(site, ArticleUrls(site, query)) - st.seen)
  {
    var urls := ArticleUrls(site, query);
    var r := QueryOnce(site, query, st);
    QueryOnceRecords(site, query, st);
    FromSiteIndex(site, st.store, r.state.store);
    QueryOnceAppends(site, query, st);
    if r.status != Faulted {
      var searched := Emit(st, [Search(query, |urls|), Pause(Short)]);
      if urls == [] {
        assert Complete(site, urls) == {};
      } else {
        VisitAllSaves(site, urls, searched);
      }
      var added := Added(st, r.state);
      assert r.state.seen == st.seen + Complete(site, urls);
      forall x | x in Urls(added) ensures x !in st.seen {
        var i :| 0 <= i < |added| && added[i].url == x;
      }
    }
  }

  // ---- every record written is the article fetched for its URL ----

  /** Each record is the sample `_get_article_data` builds for its own URL. */
  ghost predicate FromSite(site: Site, added: seq<Sample>) {
    forall i | 0 <= i < |added| :: ArticleData(site, added[i].url) == Found(added[i])
  }

  lemma FromSiteTrans(site: Site, sa: seq<Sample>, sb: seq<Sample>, sc: seq<Sample>)
    requires sa <= sb && sb <= sc
    requires FromSite(site, sb[|sa|..]) && FromSite(site, sc[|sb|..])
    ensures FromSite(site, sc[|sa|..])
  {
    forall i | 0 <= i < |sc| - |sa| ensures ArticleData(site, sc[|sa|..][i].url) == Found(sc[|sa|..][i]) {
      if |sa| + i < |sb| {
        assert sc[|sa|..][i] == sb[|sa|..][i];
      } else {
        assert sc[|sa|..][i] == sc[|sb|..][|sa| + i - |sb|];
      }
    }
  }

  /** `FromSite` of the records past `a`, read by their index in `b`. */
  lemma FromSiteIndex(site: Site, a: seq<Sample>, b: seq<Sample>)
    requires a <= b && FromSite(site, b[|a|..])
    ensures forall i | |a| <= i < |b| :: ArticleData(site, b[i].url) == Found(b[i])
  {
    forall i | |a| <= i < |b| ensures ArticleData(site, b[i].url) == Found(b[i]) {
      assert b[i] == b[|a|..][i - |a|];
    }
  }

  lemma VisitRecords(site: Site, url: string, st: CrawlState)
    ensures var r := Visit(site, url, st).state;
            st.store <= r.store && FromSite(site, r.store[|st.store|..])
  {
    var r := Visit(site, url, st).state;
    if url !in st.seen && ArticleData(site, url).Found? {
      assert r.store[|st.store|..] == [ArticleData(site, url).sample];
    } else {
      assert r.store[|st.store|..] == [];
    }
  }

  lemma {:induction false} VisitAllRecords(site: Site, urls: seq<string>, st: CrawlState)
    ensures var r := VisitAll(site, urls, st).state;
            st.store <= r.store && FromSite(site, r.store[|st.store|..])
    decreases |urls|
  {
    if urls == [] {
      assert st.store[|st.store|..] == [];
    } else {
      var prev := VisitAll(site, DropLast(urls), st);
      VisitAllRecords(site, DropLast(urls), st);
      if prev.status != Faulted {
        var r := Visit(site, Last(urls), prev.state);
        VisitRecords(site, Last(urls), prev.state);
        FromSiteTrans(site, st.store, prev.state.store, r.state.store);
      }
    }
  }

  lemma QueryOnceRecords(site: Site, query: string, st: CrawlState)
    ensures var r := QueryOnce(site, query, st).state;
            st.store <= r.store && FromSite(site, r.store[|st.store|..])
  {
    var urls := ArticleUrls(site, query);
    var searched := Emit(st, [Search(query, |urls|), Pause(Short)]);
    if urls == [] {
      assert st.store[|st.store|..] == [];
    } else {
      VisitAllRecords(site, urls, searched);
    }
  }

  lemma {:induction false} AttemptRecords(site: Site, query: string, st: CrawlState)
    ensures var r := Attempt(site, query, st).state;
            st.store <= r.store && FromSite(site, r.store[|st.store|..])
    decreases |st.words|
  {
    var s := QueryOnce(site, query, st);
    QueryOnceRecords(site, query, st);
    if s.status == NoArticles {
      var backoff := Emit(s.state, [Pause(Long(EmptyQuery))]);
      if backoff.words != [] {
        var r := Attempt(site, Last(backoff.words), Pop(backoff));
        AttemptRecords(site, Last(backoff.words), Pop(backoff));
        FromSiteTrans(site, st.store, s.state.store, r.state.store);
      }
    }
  }

  lemma {:induction false} CrawlRecords(site: Site, maxArticles: int, st: CrawlState, track: int)
    ensures var r := Crawl(site, maxArticles, st, track).state;
            st.store <= r.store && FromSite(site, r.store[|st.store|..])
    decreases |st.words|
  {
    assert st.store[|st.store|..] == [];
    if st.length < maxArticles {
      var c := Cooldown(st, track);
      if c.state.words != [] {
        var a := Attempt(site, Last(c.state.words), Pop(c.state));
        AttemptRecords(site, Last(c.state.words), Pop(c.state));
        if a.outcome == Continue {
          var r := Crawl(site, maxArticles, a.state, c.track);
          CrawlRecords(site, maxArticles, a.state, c.track);
          FromSiteTrans(site, st.store, a.state.store, r.state.store);
        }
      }
    }
  }

  /** Counting over two events followed by a stretch that counts nothing. */
  lemma CountHead(e0: Event, e1: Event, rest: seq<Event>, p: Event -> bool)
    requires CountIf(rest, p) == 0
    ensures CountIf([e0, e1] + rest, p) == (if p(e0) then 1 else 0) + (if p(e1) then 1 else 0)
  {
    assert [e0, e1] == ([] + [e0]) + [e1];
    CountIfSnoc([], e0, p);
    CountIfSnoc([e0], e1, p);
    CountIfAppend([e0, e1], rest, p);
  }

  /** The queries of two events followed by a stretch without searches. */
  lemma QueriesHead(e0: Event, e1: Event, rest: seq<Event>)
    requires Queries(rest) == []
    ensures Queries([e0, e1] + rest) == (if e0.Search? then [e0.query] else []) + (if e1.Search? then [e1.query] else [])
  {
    assert [e0, e1] == ([] + [e0]) + [e1];
    QueriesSnoc([], e0);
    QueriesSnoc([e0], e1);
    QueriesAppend([e0, e1], rest);
  }

  /** The two events of loading a search page, followed by a quiet stretch. */
  lemma SearchThenQuiet(query: string, hits: nat, rest: seq<Event>)
    requires Quiet(rest)
    ensures var t := [Search(query, hits), Pause(Short)] + rest;
            && Queries(t) == [query]
            && CountIf(t, IsEmptySearch) == (if hits == 0 then 1 else 0)
            && CountIf(t, IsQueryBackoff) == 0
            && CountIf(t, IsCooldown) == 0
  {
    var e0, e1 := Search(query, hits), Pause(Short);
    QuietCounts(rest);
    QueriesHead(e0, e1, rest);
    CountHead(e0, e1, rest, IsEmptySearch);
    CountHead(e0, e1, rest, IsQueryBackoff);
    CountHead(e0, e1, rest, IsCooldown);
  }

  /** One `_scrape(query)` call: what it appends and what it records. */
  lemma QueryOnceAppends(site: Site, query: string, st: CrawlState)
    ensures var r := QueryOnce(site, query, st);
            && Appends(st, r.state)
            && Queries(Delta(st, r.state)) == [query]
            && CountIf(Delta(st, r.state), IsEmptySearch) == (if r.status == NoArticles then 1 else 0)
            && CountIf(Delta(st, r.state), IsQueryBackoff) == 0
            && CountIf(Delta(st, r.state), IsCooldown) == 0
            && (r.status == Faulted ==> FaultedOn(site, r.state))
            && (r.status == NoArticles ==> r.state == Emit(st, [Search(query, 0), Pause(Short)]))
  {
    var urls := ArticleUrls(site, query);
    var head := [Search(query, |urls|), Pause(Short)];
    var searched := Emit(st, head);
    EmitAppends(st, head);
    if urls == [] {
      assert head + [] == head;
      SearchThenQuiet(query, 0, []);
    } else {
      var r := VisitAll(site, urls, searched);
      VisitAllAppends(site, urls, searched);
      AppendsTrans(st, searched, r.state);
      var rest := Delta(searched, r.state);
      SliceSplit(st.trace, searched.trace, r.state.trace);
      SearchThenQuiet(query, |urls|, rest);
    }
  }

  /** Appends preserve the agreement of counters and store, and a store
      free of duplicate URLs stays free of them. */
  lemma AppendsConsistent(a: CrawlState, b: CrawlState)
    requires Appends(a, b) && Consistent(a)
    ensures Consistent(b) && b.length >= a.length
    ensures DistinctUrls(a.store) ==> DistinctUrls(b.store)
  {
    assert b.store == a.store + Added(a, b);
    UrlsAppend(a.store, Added(a, b));
    if DistinctUrls(a.store) {
      forall i, j | 0 <= i < j < |b.store| ensures b.store[i].url != b.store[j].url {
        if j >= |a.store| {
          assert b.store[j] == Added(a, b)[j - |a.store|];
          if i < |a.store| {
            assert b.store[i] == a.store[i] && a.store[i] in a.store;
          } else {
            assert b.store[i] == Added(a, b)[i - |a.store|];
          }
        }
      }
    }
  }

  /** `_scrape` on a consistent state: the store only grows, by records with
      unknown URLs and non-empty text and summary; no article is fetched
      whose URL is known or was written earlier in the call; counters stay
      in step with the store; a duplicate-free store stays duplicate-free. */
  lemma ScrapeKeepsStore(site: Site, query: string, st: CrawlState)
    requires Consistent(st)
    ensures var r := QueryOnce(site, query, st).state;
            && Consistent(r)
            && st.store <= r.store
            && (DistinctUrls(st.store) ==> DistinctUrls(r.store))
            && (forall i | |st.store| <= i < |r.store| :: r.store[i].url !in st.seen && Persistable(r.store[i]))
            && st.trace <= r.trace
            && NoRefetch(st.seen, r.trace[|st.trace|..])
  {
    var r := QueryOnce(site, query, st).state;
    QueryOnceAppends(site, query, st);
    AppendsConsistent(st, r);
    forall i | |st.store| <= i < |r.store| ensures r.store[i].url !in st.seen && Persistable(r.store[i]) {
      assert r.store[i] == Added(st, r)[i - |st.store|];
    }
  }

  // ---- the loops of `scrape` ----

  /** A count that is zero on two consecutive stretches is zero on both. */
  lemma CountZeroTrans(ta: seq<Event>, tb: seq<Event>, tc: seq<Event>, p: Event -> bool)
    requires ta <= tb && tb <= tc
    requires CountIf(tb[|ta|..], p) == 0 && CountIf(tc[|tb|..], p) == 0
    ensures CountIf(tc[|ta|..], p) == 0
  {
    SliceSplit(ta, tb, tc);
    CountIfAppend(tb[|ta|..], tc[|tb|..], p);
  }

  /** `Advances` with no cooldown taken, composed. */
  lemma ChainNoCooldown(a: CrawlState, b: CrawlState, c: CrawlState)
    requires Advances(a, b) && Advances(b, c)
    requires CountIf(Delta(a, b), IsCooldown) == 0 && CountIf(Delta(b, c), IsCooldown) == 0
    ensures Advances(a, c) && CountIf(Delta(a, c), IsCooldown) == 0
  {
    AdvancesTrans(a, b, c);
    CountZeroTrans(a.trace, b.trace, c.trace, IsCooldown);
  }

  /** A popped query whose search page lists articles. */
  lemma FoundQueryAdvances(site: Site, st: CrawlState)
    requires st.words != []
    requires QueryOnce(site, Last(st.words), Pop(st)).status != NoArticles
    ensures var s := QueryOnce(site, Last(st.words), Pop(st));
            && Advances(st, s.state)
            && CountIf(Delta(st, s.state), IsCooldown) == 0
            && (s.status == Faulted ==> FaultedOn(site, s.state))
  {
    var q := Last(st.words);
    var p := Pop(st);
    var s := QueryOnce(site, q, p);
    AppendsSame(st, p);
    QueryOnceAppends(site, q, p);
    AppendsTrans(st, p, s.state);
    assert Delta(st, s.state) == Delta(p, s.state);
    assert st.words[|s.state.words|..] == [q];
    assert DropLast([q]) == [];
  }

  /** A popped query whose search page is empty, followed by its backoff. */
  lemma EmptyQueryAdvances(site: Site, st: CrawlState)
    requires st.words != []
    requires QueryOnce(site, Last(st.words), Pop(st)).status == NoArticles
    ensures var b := Emit(QueryOnce(site, Last(st.words), Pop(st)).state, [Pause(Long(EmptyQuery))]);
            && b == Emit(Pop(st), [Search(Last(st.words), 0), Pause(Short), Pause(Long(EmptyQuery))])
            && Advances(st, b)
            && CountIf(Delta(st, b), IsCooldown) == 0
  {
    var q := Last(st.words);
    var p := Pop(st);
    var e0, e1, e2 := Search(q, 0), Pause(Short), Pause(Long(EmptyQuery));
    var b := Emit(p, [e0, e1, e2]);
    assert [e0, e1, e2] == (([] + [e0]) + [e1]) + [e2];
    EmitAppends(p, [e0, e1, e2]);
    AppendsSame(st, p);
    AppendsTrans(st, p, b);
    assert Delta(st, b) == [e0, e1, e2];
    QueriesSnoc([], e0);
    QueriesSnoc([e0], e1);
    QueriesSnoc([e0, e1], e2);
    CountIfSnoc([], e0, IsEmptySearch);
    CountIfSnoc([e0], e1, IsEmptySearch);
    CountIfSnoc([e0, e1], e2, IsEmptySearch);
    CountIfSnoc([], e0, IsQueryBackoff);
    CountIfSnoc([e0], e1, IsQueryBackoff);
    CountIfSnoc([e0, e1], e2, IsQueryBackoff);
    CountIfSnoc([], e0, IsCooldown);
    CountIfSnoc([e0], e1, IsCooldown);
    CountIfSnoc([e0, e1], e2, IsCooldown);
    assert st.words[|b.words|..] == [q];
    assert DropLast([q]) == [];
  }

  /** Pop a word and run the inner loop: the state advances, no cooldown is
      taken, running out of words saves nothing, and an abort is an HTTP
      error on the last fetch. */
  lemma {:induction false} AttemptAdvances(site: Site, st: CrawlState)
    requires st.words != []
    ensures var r := Attempt(site, Last(st.words), Pop(st));
            && Advances(st, r.state)
            && CountIf(Delta(st, r.state), IsCooldown) == 0
            && (r.outcome == Exhausted ==> r.state.words == [] && r.state.length == st.length)
            && (r.outcome == Aborted ==> FaultedOn(site, r.state))
    decreases |st.words|
  {
    var s := QueryOnce(site, Last(st.words), Pop(st));
    if s.status == NoArticles {
      var backoff := Emit(s.state, [Pause(Long(EmptyQuery))]);
      EmptyQueryAdvances(site, st);
      if backoff.words != [] {
        var r := Attempt(site, Last(backoff.words), Pop(backoff));
        AttemptAdvances(site, backoff);
        ChainNoCooldown(st, backoff, r.state);
      }
    } else {
      FoundQueryAdvances(site, st);
    }
  }

  /** The cooldown check at the head of the outer loop: when due it records
      exactly one long cooldown and measures from the current length,
      otherwise it records nothing and keeps the count. */
  lemma CooldownAdvances(st: CrawlState, track: int)
    ensures var due := st.length - track > CooldownBatch;
            var c := Cooldown(st, track);
            && Advances(st, c.state)
            && c.state.words == st.words && c.state.length == st.length
            && Delta(st, c.state) == (if due then [Pause(Long(Track))] else [])
            && c.track == (if due then st.length else track)
            && CountIf(Delta(st, c.state), IsCooldown) == (if due then 1 else 0)
  {
    var due := st.length - track > CooldownBatch;
    assert st.words[|st.words|..] == [];
    if due {
      var e := Pause(Long(Track));
      EmitAppends(st, [e]);
      assert [e] == [] + [e];
      QueriesSnoc([], e);
      CountIfSnoc([], e, IsEmptySearch);
      CountIfSnoc([], e, IsQueryBackoff);
      CountIfSnoc([], e, IsCooldown);
    } else {
      AppendsSame(st, st);
      assert Delta(st, st) == [];
    }
  }

  /** One iteration of the outer loop: the cooldown check, then a popped
      query with its retries. */
  lemma IterationAdvances(site: Site, st: CrawlState, track: int)
    ensures var c := Cooldown(st, track);
            c.state.words != [] ==> Advances(st, Attempt(site, Last(c.state.words), Pop(c.state)).state)
  {
    var c := Cooldown(st, track);
    CooldownAdvances(st, track);
    if c.state.words != [] {
      var r := Attempt(site, Last(c.state.words), Pop(c.state));
      AttemptAdvances(site, c.state);
      AdvancesTrans(st, c.state, r.state);
    }
  }

  /** How one iteration of the outer loop can end. */
  lemma IterationEnds(site: Site, st: CrawlState, track: int)
    ensures var c := Cooldown(st, track);
            c.state.words != [] ==>
              var r := Attempt(site, Last(c.state.words), Pop(c.state));
              && (r.outcome == Exhausted ==> r.state.words == [] && r.state.length == st.length)
              && (r.outcome == Aborted ==> FaultedOn(site, r.state))
  {
    var c := Cooldown(st, track);
    if c.state.words != [] {
      AttemptAdvances(site, c.state);
    }
  }

  /** The outer loop of `scrape`, as one lemma by induction on the pool. */
  lemma {:induction false} CrawlAdvances(site: Site, maxArticles: int, st: CrawlState, track: int)
    ensures Advances(st, Crawl(site, maxArticles, st, track).state)
    decreases |st.words|
  {
    var r := Crawl(site, maxArticles, st, track);
    if st.length >= maxArticles {
      AppendsSame(st, st);
      assert Delta(st, st) == [];
      assert st.words[|st.words|..] == [];
    } else {
      var c := Cooldown(st, track);
      if c.state.words == [] {
        CooldownAdvances(st, track);
      } else {
        var a := Attempt(site, Last(c.state.words), Pop(c.state));
        IterationAdvances(site, st, track);
        if a.outcome == Continue {
          CrawlAdvances(site, maxArticles, a.state, c.track);
          AdvancesTrans(st, a.state, r.state);
        }
      }
    }
  }

  /** Only what the cooldown count needs from `AttemptAdvances`. */
  lemma AttemptGrows(site: Site, st: CrawlState)
    requires st.words != []
    ensures var r := Attempt(site, Last(st.words), Pop(st)).state;
            && st.trace <= r.trace && r.length >= st.length
            && CountIf(r.trace[|st.trace|..], IsCooldown) == 0
  {
    AttemptAdvances(site, st);
  }

  /** Only what the cooldown count needs from `CrawlAdvances`. */
  lemma CrawlGrows(site: Site, maxArticles: int, st: CrawlState, track: int)
    ensures var r := Crawl(site, maxArticles, st, track).state;
            st.trace <= r.trace && r.length >= st.length
  {
    CrawlAdvances(site, maxArticles, st, track);
  }

  /** Counting over three consecutive stretches of a growing trace. */
  lemma CountSplit(t0: seq<Event>, t1: seq<Event>, t2: seq<Event>, t3: seq<Event>, p: Event -> bool)
    requires t0 <= t1 && t1 <= t2 && t2 <= t3
    ensures CountIf(t3[|t0|..], p) == CountIf(t1[|t0|..], p) + CountIf(t2[|t1|..], p) + CountIf(t3[|t2|..], p)
  {
    SliceSplit(t0, t1, t2);
    SliceSplit(t0, t2, t3);
    CountIfAppend(t1[|t0|..], t2[|t1|..], p);
    CountIfAppend(t2[|t0|..], t3[|t2|..], p);
  }

  /** The trace effect of the cooldown check alone. */
  lemma CooldownHead(st: CrawlState, track: int)
    ensures var c := Cooldown(st, track);
            && st.trace <= c.state.trace
            && c.state.trace[|st.trace|..] == (if st.length - track > CooldownBatch then [Pause(Long(Track))] else [])
            && CountIf(c.state.trace[|st.trace|..], IsCooldown) == (if st.length - track > CooldownBatch then 1 else 0)
            && c.track == (if st.length - track > CooldownBatch then st.length else track)
  {
    var c := Cooldown(st, track);
    if st.length - track > CooldownBatch {
      assert c.state.trace[|st.trace|..] == [] + [Pause(Long(Track))];
      CountIfSnoc([], Pause(Long(Track)), IsCooldown);
    } else {
      assert c.state.trace[|st.trace|..] == [];
    }
  }

  /** A bound on the number of cooldowns: a cooldown is taken only once more
      than 25 samples were saved since `track`, and `track` then moves to
      the current count, so a run that ends with n samples more than
      `track` took at most n / 26 cooldowns. */
  lemma {:induction false} CrawlCooldowns(site: Site, maxArticles: int, st: CrawlState, track: int)
    requires track <= st.length
    ensures var r := Crawl(site, maxArticles, st, track);
            && st.trace <= r.state.trace
            && (CooldownBatch + 1) * CountIf(r.state.trace[|st.trace|..], IsCooldown) <= r.state.length - track
    decreases |st.words|
  {
    var r := Crawl(site, maxArticles, st, track);
    CrawlGrows(site, maxArticles, st, track);
    if st.length >= maxArticles {
      assert r.state.trace[|st.trace|..] == [];
    } else {
      var c := Cooldown(st, track);
      CooldownHead(st, track);
      if c.state.words != [] {
        var a := Attempt(site, Last(c.state.words), Pop(c.state));
        AttemptGrows(site, c.state);
        if a.outcome == Continue {
          CrawlCooldowns(site, maxArticles, a.state, c.track);
          CrawlGrows(site, maxArticles, a.state, c.track);
          CountSplit(st.trace, c.state.trace, a.state.trace, r.state.trace, IsCooldown);
        } else {
          CountSplit(st.trace, c.state.trace, a.state.trace, a.state.trace, IsCooldown);
        }
      }
    }
  }

  /** A due cooldown is the first thing a run records. */
  lemma CrawlCoolsFirst(site: Site, maxArticles: int, st: CrawlState, track: int)
    requires st.length < maxArticles && st.length - track > CooldownBatch
    ensures var r := Crawl(site, maxArticles, st, track).state;
            && |st.trace| < |r.trace|
            && r.trace[|st.trace|] == Pause(Long(Track))
  {
    var r := Crawl(site, maxArticles, st, track);
    var c := Cooldown(st, track);
    assert c.state.trace == st.trace + [Pause(Long(Track))];
    if c.state.words != [] {
      var a := Attempt(site, Last(c.state.words), Pop(c.state));
      AttemptGrows(site, c.state);
      if a.outcome == Continue {
        CrawlGrows(site, maxArticles, a.state, c.track);
      }
      assert c.state.trace <= r.state.trace;
    }
  }

  // ---- no search once the target is reached ----

  /** Every search in `t` is made while fewer than `limit` samples are
      stored, counting `base` at the start of `t` and one per write. */
  ghost predicate SearchesBelow(t: seq<Event>, base: int, limit: int) {
    forall j | 0 <= j < |t| && t[j].Search? :: base + CountIf(t[..j], IsWrote) < limit
  }

  /** No search in `t` comes after a write. */
  ghost predicate SearchesFirst(t: seq<Event>) {
    forall i, j | 0 <= i < j < |t| && t[j].Search? :: !t[i].Wrote?
  }

  lemma SearchesFirstBelow(t: seq<Event>, base: int, limit: int)
    requires SearchesFirst(t) && base < limit
    ensures SearchesBelow(t, base, limit)
  {
    forall j | 0 <= j < |t| && t[j].Search? ensures base + CountIf(t[..j], IsWrote) < limit {
      assert forall i | 0 <= i < j :: t[..j][i] == t[i];
      CountIfNone(t[..j], IsWrote);
    }
  }

  lemma SearchesFirstAppend(t1: seq<Event>, t2: seq<Event>)
    requires forall i | 0 <= i < |t1| :: !t1[i].Wrote?
    requires SearchesFirst(t2)
    ensures SearchesFirst(t1 + t2)
  {
    var t := t1 + t2;
    forall i, j | 0 <= i < j < |t| && t[j].Search? ensures !t[i].Wrote? {
      if i < |t1| {
        assert t[i] == t1[i];
      } else {
        assert t[i] == t2[i - |t1|] && t[j] == t2[j - |t1|];
      }
    }
  }

  lemma SearchesBelowAppend(t1: seq<Event>, t2: seq<Event>, base: int, limit: int)
    requires SearchesBelow(t1, base, limit)
    requires SearchesBelow(t2, base + CountIf(t1, IsWrote), limit)
    ensures SearchesBelow(t1 + t2, base, limit)
  {
    var t := t1 + t2;
    forall j | 0 <= j < |t| && t[j].Search? ensures base + CountIf(t[..j], IsWrote) < limit {
      if j < |t1| {
        assert t[j] == t1[j] && t[..j] == t1[..j];
      } else {
        var k := j - |t1|;
        assert t[j] == t2[k] && t[..j] == t1 + t2[..k];
        CountIfAppend(t1, t2[..k], IsWrote);
      }
    }
  }

  /** A search page followed by a quiet stretch: the one search is first. */
  lemma SearchThenQuietFirst(query: string, hits: nat, rest: seq<Event>)
    requires Quiet(rest)
    ensures SearchesFirst([Search(query, hits), Pause(Short)] + rest)
  {
    var t := [Search(query, hits), Pause(Short)] + rest;
    forall j | 1 <= j < |t| ensures !t[j].Search? {
      if j >= 2 {
        assert t[j] == rest[j - 2];
      }
    }
  }

  /** In one `_scrape(query)` call the search comes before every write. */
  lemma QueryOnceSearchesFirst(site: Site, query: string, st: CrawlState)
    ensures var r := QueryOnce(site, query, st).state;
            && st.trace <= r.trace
            && SearchesFirst(Delta(st, r))
  {
    var urls := ArticleUrls(site, query);
    var head := [Search(query, |urls|), Pause(Short)];
    var searched := Emit(st, head);
    if urls == [] {
      assert Delta(st, searched) == head + [];
      SearchThenQuietFirst(query, 0, []);
    } else {
      var r := VisitAll(site, urls, searched);
      VisitAllAppends(site, urls, searched);
      SliceSplit(st.trace, searched.trace, r.state.trace);
      assert searched.trace[|st.trace|..] == head;
      SearchThenQuietFirst(query, |urls|, Delta(searched, r.state));
    }
  }

  /** A search page with no article links leaves just the two events of
      loading it. */
  lemma EmptyQueryTrace(site: Site, query: string, st: CrawlState)
    requires QueryOnce(site, query, st).status == NoArticles
    ensures QueryOnce(site, query, st).state == Emit(st, [Search(query, 0), Pause(Short)])
  {
  }

  /** The inner loop writes nothing before any of its searches: a retry is
      made only after a search that found no article. */
  lemma {:induction false} AttemptSearchesFirst(site: Site, st: CrawlState)
    requires st.words != []
    ensures var r := Attempt(site, Last(st.words), Pop(st)).state;
            && st.trace <= r.trace
            && SearchesFirst(Delta(st, r))
    decreases |st.words|
  {
    var q := Last(st.words);
    var s := QueryOnce(site, q, Pop(st));
    if s.status == NoArticles {
      var backoff := Emit(s.state, [Pause(Long(EmptyQuery))]);
      var head := [Search(q, 0), Pause(Short), Pause(Long(EmptyQuery))];
      EmptyQueryTrace(site, q, Pop(st));
      assert backoff.trace == st.trace + [Search(q, 0), Pause(Short)] + [Pause(Long(EmptyQuery))];
      assert Delta(st, backoff) == head;
      if backoff.words == [] {
        SearchesFirstAppend(head, []);
        assert head + [] == head;
      } else {
        var r := Attempt(site, Last(backoff.words), Pop(backoff));
        AttemptSearchesFirst(site, backoff);
        SliceSplit(st.trace, backoff.trace, r.state.trace);
        SearchesFirstAppend(head, Delta(backoff, r.state));
      }
    } else {
      QueryOnceSearchesFirst(site, q, Pop(st));
      assert Delta(st, s.state) == Delta(Pop(st), s.state);
    }
  }

  /** One iteration of the outer loop entered below the target makes all
      its searches below the target. */
  lemma IterationSearches(site: Site, maxArticles: int, st: CrawlState, track: int)
    requires st.length < maxArticles
    ensures var c := Cooldown(st, track);
            c.state.words != [] ==>
              var r := Attempt(site, Last(c.state.words), Pop(c.state)).state;
              && st.trace <= r.trace
              && SearchesBelow(Delta(st, r), st.length, maxArticles)
  {
    var c := Cooldown(st, track);
    CooldownHead(st, track);
    if c.state.words != [] {
      var r := Attempt(site, Last(c.state.words), Pop(c.state)).state;
      AttemptSearchesFirst(site, c.state);
      SliceSplit(st.trace, c.state.trace, r.trace);
      SearchesFirstAppend(Delta(st, c.state), Delta(c.state, r));
      SearchesFirstBelow(Delta(st, r), st.length, maxArticles);
    }
  }

  lemma {:induction false} CrawlSearchesBelow(site: Site, maxArticles: int, st: CrawlState, track: int)
    ensures var r := Crawl(site, maxArticles, st, track).state;
            && st.trace <= r.trace
            && SearchesBelow(Delta(st, r), st.length, maxArticles)
    decreases |st.words|
  {
    var r := Crawl(site, maxArticles, st, track);
    if st.length >= maxArticles {
      assert Delta(st, r.state) == [];
    } else {
      var c := Cooldown(st, track);
      CooldownHead(st, track);
      if c.state.words != [] {
        var a := Attempt(site, Last(c.state.words), Pop(c.state));
        IterationSearches(site, maxArticles, st, track);
        if a.outcome == Continue {
          IterationAdvances(site, st, track);
          CrawlSearchesBelow(site, maxArticles, a.state, c.track);
          SliceSplit(st.trace, a.state.trace, r.state.trace);
          SearchesBelowAppend(Delta(st, a.state), Delta(a.state, r.state), st.length, maxArticles);
        }
      }
    }
  }

  // ---- what `scrape` promises, stated on its own ----

  /** The store only ever grows, by records with new URLs and non-empty
      text and summary, each exactly the article fetched for its URL; the
      counters stay in step with it; the counter
      never decreases; a duplicate-free store stays duplicate-free; no
      article whose URL is known is fetched. */
  lemma CrawlKeepsStore(site: Site, maxArticles: int, st: CrawlState, track: int)
    requires Consistent(st)
    ensures var r := Crawl(site, maxArticles, st, track).state;
            && Consistent(r)
            && st.store <= r.store
            && r.length >= st.length
            && (DistinctUrls(st.store) ==> DistinctUrls(r.store))
            && (forall i | |st.store| <= i < |r.store| :: r.store[i].url !in st.seen && Persistable(r.store[i]))
            && (forall i | |st.store| <= i < |r.store| :: ArticleData(site, r.store[i].url) == Found(r.store[i]))
            && st.trace <= r.trace
            && NoRefetch(st.seen, r.trace[|st.trace|..])
  {
    var r := Crawl(site, maxArticles, st, track).state;
    CrawlRecords(site, maxArticles, st, track);
    FromSiteIndex(site, st.store, r.store);
    CrawlAdvances(site, maxArticles, st, track);
    AppendsConsistent(st, r);
    forall i | |st.store| <= i < |r.store| ensures r.store[i].url !in st.seen && Persistable(r.store[i]) {
      assert r.store[i] == Added(st, r)[i - |st.store|];
    }
  }

  /** Queries are taken from the end of the pool, each exactly once: the
      queries issued are the words removed, last word first, so at most
      the initial number of words are issued. */
  lemma CrawlConsumesWords(site: Site, maxArticles: int, st: CrawlState, track: int)
    ensures var r := Crawl(site, maxArticles, st, track).state;
            && r.words <= st.words
            && st.trace <= r.trace
            && Queries(r.trace[|st.trace|..]) == Reversed(st.words[|r.words|..])
            && |Queries(r.trace[|st.trace|..])| <= |st.words|
  {
    CrawlAdvances(site, maxArticles, st, track);
  }

  /** How a run ends: completion only with at least `maxArticles` samples,
      exhaustion only with an empty pool and the target not reached, an
      abort only on an HTTP error of the last article fetched. */
  lemma {:induction false} CrawlOutcome(site: Site, maxArticles: int, st: CrawlState, track: int)
    ensures var r := Crawl(site, maxArticles, st, track);
            && r.outcome in {Completed, Exhausted, Aborted}
            && (r.outcome == Completed ==> r.state.length >= maxArticles)
            && (r.outcome == Exhausted ==> r.state.words == [] && r.state.length < maxArticles)
            && (r.outcome == Aborted ==> FaultedOn(site, r.state))
    decreases |st.words|
  {
    if st.length < maxArticles {
      var c := Cooldown(st, track);
      if c.state.words != [] {
        var a := Attempt(site, Last(c.state.words), Pop(c.state));
        IterationEnds(site, st, track);
        if a.outcome == Continue {
          CrawlOutcome(site, maxArticles, a.state, c.track);
        }
      }
    }
  }

  /** Every search that found nothing is matched by exactly one long backoff. */
  lemma CrawlBacksOff(site: Site, maxArticles: int, st: CrawlState, track: int)
    ensures var r := Crawl(site, maxArticles, st, track).state;
            && st.trace <= r.trace
            && CountIf(r.trace[|st.trace|..], IsEmptySearch) == CountIf(r.trace[|st.trace|..], IsQueryBackoff)
  {
    CrawlAdvances(site, maxArticles, st, track);
  }

  /** No query is issued once the target is reached: at every search of a
      run, the samples stored so far (those at the start plus one per
      write before it) are fewer than `maxArticles`. */
  lemma CrawlStopsAtTarget(site: Site, maxArticles: int, st: CrawlState, track: int)
    ensures var r := Crawl(site, maxArticles, st, track).state;
            && st.trace <= r.trace
            && var delta := r.trace[|st.trace|..];
               forall j | 0 <= j < |delta| && delta[j].Search? :: st.length + CountIf(delta[..j], IsWrote) < maxArticles
  {
    CrawlSearchesBelow(site, maxArticles, st, track);
  }
}
