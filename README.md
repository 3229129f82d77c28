# lrytas: the crawl loop and the title deduplication, in Dafny

This project models the core of the lrytas.lt article scraper and its
dataset exporter.

**The crawler** (`Scraper` in `src/lrytas/scraper.py`) owns these pieces of state:

- a shuffled word pool, consumed from the end;
- the set of URLs already stored;
- a record counter;
- the append-only JSONL store the records go to.

It runs one search query at a time. For every article URL on a search page
that it has not seen before, it fetches the page and appends the article
to the store if the article has both a text and a summary. Its sleeps come
in two kinds:

- a short sleep around every page load;
- a long sleep after a query that finds nothing, and at the head of an
  outer-loop iteration once more than 25 samples were added since the
  last cooldown or the start of the run.

**The exporter** (`DatasetBuilder` in `src/lrytas/dataset_builder.py`)
reads the whole store. It keeps the first record for each non-empty,
whitespace-stripped title.

Modules:

- `Samples`: the stored record, its URL set, sequence helpers (`Last`,
  `DropLast`, `Reversed`).
- `CrawlModel`: the crawl loop as pure functions on a `CrawlState`, which
  has five parts:
  - the pool;
  - `seen_urls`;
  - `dataset_length`;
  - the store;
  - a trace of observable events: `Search(query, hits)`,
    `Pause(Short | Long(cause))`, `Get(url)` and `Wrote(url)`.

  The browser, the HTTP session and `tldextract` become the oracle
  `Site`, with three parts:
  - `search`: the hrefs under the h3 headings of a search page;
  - `get`: an article page, or `HttpError` for any exception of the GET
    (one raised by the session, or by `raise_for_status`);
  - `isLrytasDomain`.
- `CrawlProofs`: two relations between states, and the lemmas built on
  them.
  - `Appends`: the store, the trace and the counters only grow, by fresh
    records.
  - `Advances`: `Appends`, plus the queries come off the end of the pool.

  The lemmas proved with them:
  - `seen_urls`/`dataset_length` stay in step with the store;
  - no stored URL is fetched again;
  - no URL is stored twice;
  - every record written is exactly the article fetched for its URL;
  - a query without an HTTP error stores every complete article of its
    search page that was not known, and nothing else;
  - each query pops exactly one word;
  - one long backoff per empty query;
  - a bound on the number of cooldowns, and a due cooldown comes first;
  - no search is made once `max_articles` samples are stored;
  - how the run ends.
- `Crawler`: the class `Scraper`, with fields that its methods update in
  place. Each method is proved equal to the matching `CrawlModel`
  function, so everything in `CrawlProofs` holds of the object.
- `Titles`: Python's `str.strip()` with the exact `str.isspace()`
  character set.
- `DatasetBuilder`: the pure definition `Dedup`, its lemmas, and the
  loop `IgnoreDuplicates` proved equal to it. The lemmas cover:
  - subsequence of first occurrences;
  - unique non-empty titles;
  - count;
  - fixed point;
  - idempotence.
- `Scenarios`: three concrete runs:
  - a query overshoots the limit;
  - an exhausted pool;
  - an aborting HTTP error.

Points where the code's behaviour is easy to misread:

- An HTTP error while fetching an article is not treated like a query
  with no URLs. It propagates out of `_scrape` and `scrape`, and the run
  ends (`Aborted`).
- The batch cooldown is due when more than 25 samples (that is, 26 or
  more) were added since the last cooldown or the start of the run.
  - It is checked only at the head of the outer loop, never between the
    articles of one query.
  - A long backoff after an empty query does not reset the tracker.
- The limit `max_articles` is checked only at the head of the outer loop.
  The retried queries of the inner loop are popped without a check, which
  is harmless because an empty query stores nothing. One query can store
  more than the limit (`Scenarios.OvershootExample`).
- Popping from an empty pool is a failure of the run (`Exhausted`), not a
  normal end.

## Model

| member | source | states |
|---|---|---|
| CrawlModel.ArticleUrl | src/lrytas/scraper.py:143-149 | a link in the lrytas domain is kept as is; any other link gets the site prefix in front, and the link is always a suffix of the URL |
| CrawlModel.ArticleUrls | src/lrytas/scraper.py:138-151 | one URL per link found on the search page, in page order, each normalised by `ArticleUrl` |
| CrawlModel.ArticleData | src/lrytas/scraper.py:153-169 | a fault exactly when the HTTP response is an error; `None` exactly when the text or the summary is empty; otherwise a sample for that URL carrying exactly the page's title, summary and text, both of the latter non-empty |
| CrawlModel.Visit | src/lrytas/scraper.py:102-107 | one pass of the article loop; `VisitAppends` and `VisitRecords` state its meaning: a known URL is skipped, otherwise the article is fetched and only a complete one is saved, exactly as fetched |
| CrawlModel.Save | src/lrytas/scraper.py:219-228 | `_save_sample`; `SaveAppends` states its meaning: exactly that record appended, its URL marked, the counter up by one, one write recorded |
| CrawlModel.Pop | src/lrytas/scraper.py:84 | `words.pop()`; `CrawlConsumesWords` states its meaning over a run: the queries are the words removed from the end, last first |
| CrawlModel.Cooldown | src/lrytas/scraper.py:79-82 | the cooldown check; `CooldownAdvances` states its meaning: one long cooldown and the tracker moved to the count exactly when more than 25 samples were added since the tracker, otherwise nothing |
| CrawlModel.VisitAll | src/lrytas/scraper.py:101-107 | the article loop never reports "no articles" and leaves the word pool alone |
| CrawlModel.QueryOnce | src/lrytas/scraper.py:92-109 | `_scrape` returns False exactly when the search found no links, and does not touch the word pool |
| CrawlModel.Attempt | src/lrytas/scraper.py:84-88 | the inner loop only shrinks the pool from the end and never completes the run by itself |
| CrawlModel.Retry | src/lrytas/scraper.py:85-88 | after a `_scrape` call the inner loop only shrinks the pool and never completes the run |
| CrawlModel.Crawl | src/lrytas/scraper.py:75-90 | the outer loop always ends with a completed, exhausted or aborted run |
| CrawlProofs.SaveAppends | src/lrytas/scraper.py:219-228 | `_save_sample` of a sample with an unseen URL appends exactly that record, marks its URL, adds one to the counter and logs exactly one write |
| CrawlProofs.VisitAppends | src/lrytas/scraper.py:101-107 | one article step only appends fresh, persistable records, fetches no known URL, makes no search and no long sleep, and reports a fault only right after a failing GET |
| CrawlProofs.VisitAllAppends | src/lrytas/scraper.py:101-107 | the same for the whole article loop of a query |
| CrawlProofs.VisitAllSaves | src/lrytas/scraper.py:101-107 | when no GET fails, the article loop ends with `seen_urls` equal to the URLs known before plus every URL whose page is complete |
| CrawlProofs.ScrapeStoresAll | src/lrytas/scraper.py:98-109 | `_scrape` writes every record exactly as `_get_article_data` returns it for its URL, and without an HTTP error appends records whose URLs are exactly the complete, previously unknown articles of the search page |
| CrawlProofs.VisitRecords | src/lrytas/scraper.py:102-107 | one article step only appends, and what it appends is the sample fetched for that record's own URL |
| CrawlProofs.VisitAllRecords | src/lrytas/scraper.py:101-107 | the same for the whole article loop of a query |
| CrawlProofs.AttemptRecords | src/lrytas/scraper.py:84-88 | the same for the inner loop with its retries |
| CrawlProofs.CrawlRecords | src/lrytas/scraper.py:75-90 | the same for the whole run |
| CrawlProofs.VisitAllStopsAtFault | src/lrytas/scraper.py:101-107 | once the GET of an article fails, the articles after it are not visited |
| CrawlProofs.QueryOnceAppends | src/lrytas/scraper.py:92-109 | a query issues one search; it counts as an empty search exactly when `_scrape` returns False, in which case only the search and its short sleep happened; it takes no long sleep; and it only appends fresh records |
| CrawlProofs.AppendsConsistent | src/lrytas/scraper.py:219-228 | appending fresh records keeps `dataset_length == len(store)` and `seen_urls == urls(store)`, never lowers the counter, and keeps a duplicate-free store duplicate-free |
| CrawlProofs.ScrapeKeepsStore | src/lrytas/scraper.py:101-107 | from consistent counters, `_scrape` keeps them consistent, keeps earlier records, adds only records with unseen URLs and non-empty text and summary, and never fetches a known URL |
| CrawlProofs.FoundQueryAdvances | src/lrytas/scraper.py:84-85 | a popped query that finds articles consumes exactly that word and takes no cooldown |
| CrawlProofs.EmptyQueryAdvances | src/lrytas/scraper.py:85-88 | a popped query that finds nothing does its search and short sleep, then exactly one long backoff and nothing else; the empty searches and the backoffs stay equal in number |
| CrawlProofs.AttemptAdvances | src/lrytas/scraper.py:84-88 | the inner loop consumes words from the end, one per search, with one backoff per empty search and no cooldown; it runs out only with an empty pool, having stored nothing; an abort follows a failing GET |
| CrawlProofs.CooldownAdvances | src/lrytas/scraper.py:79-82 | the check `Cooldown` at the head of the outer loop records exactly one `Pause(Long(Track))` and moves the tracker to the current count when more than 25 samples were added since the tracker; otherwise it records nothing and keeps the tracker; it changes nothing else |
| CrawlProofs.IterationAdvances | src/lrytas/scraper.py:79-88 | one outer iteration (cooldown check, then a query with its retries) advances the state |
| CrawlProofs.IterationEnds | src/lrytas/scraper.py:79-88 | one outer iteration runs out only with an empty pool having stored nothing, and aborts only right after a failing GET |
| CrawlProofs.CrawlAdvances | src/lrytas/scraper.py:75-90 | over the whole run the state only grows by fresh records, one write event per record, and words come off the end one per search |
| CrawlProofs.CrawlCoolsFirst | src/lrytas/scraper.py:78-82 | when the loop is entered below the limit with more than 25 samples added since the tracker, the first event of the run is the long cooldown |
| CrawlProofs.AttemptSearchesFirst | src/lrytas/scraper.py:84-88 | within the inner loop no record is written before any of its searches: a retry follows only a search that found nothing |
| CrawlProofs.IterationSearches | src/lrytas/scraper.py:78-88 | an outer iteration entered below the limit makes all its searches while the count is still below the limit |
| CrawlProofs.CrawlStopsAtTarget | src/lrytas/scraper.py:78-88 | no query is issued once the target is reached: at every search of the run, the samples at the start plus the writes before it are fewer than `max_articles` |
| CrawlProofs.CrawlCooldowns | src/lrytas/scraper.py:77-82 | the number of cooldowns is bounded by the samples added: (26 × number of cooldowns) ≤ samples added since the tracker |
| CrawlProofs.CrawlKeepsStore | src/lrytas/scraper.py:75-109 | a run from consistent counters keeps them consistent, keeps the old records, never lowers the counter, stores no URL twice, stores only unseen URLs with non-empty text and summary, each record exactly the article fetched for its URL, and never fetches a known URL |
| CrawlProofs.CrawlConsumesWords | src/lrytas/scraper.py:84-88 | the queries issued are exactly the words removed from the end of the pool, last first, so at most the initial number of words are queried |
| CrawlProofs.CrawlOutcome | src/lrytas/scraper.py:78-88 | a run completes only with at least `max_articles` samples, is exhausted only with an empty pool below the limit, and aborts only right after a failing GET |
| CrawlProofs.CrawlBacksOff | src/lrytas/scraper.py:85-88 | there are exactly as many long backoffs as searches that found nothing |
| Crawler.Scraper.constructor | src/lrytas/scraper.py:65-73 | the counters are recovered from the stored records (zero and empty for an absent store) and the pool is installed; the object is consistent |
| Crawler.Scraper.GetDatasetInfo | src/lrytas/scraper.py:235-243 | the loop adds every stored URL to `seen_urls` and one per record to `dataset_length` |
| Crawler.Scraper.SaveSample | src/lrytas/scraper.py:219-228 | the new state is `Save` of the old one: record appended, URL marked, counter incremented; consistent counters stay consistent |
| Crawler.Scraper.ShortSleep | src/lrytas/scraper.py:245-248 | records one short pause and changes nothing else |
| Crawler.Scraper.LongSleep | src/lrytas/scraper.py:250-253 | records one long pause with its cause and changes nothing else |
| Crawler.Scraper.PopWord | src/lrytas/scraper.py:84 | removes and returns the last word; on an empty pool it fails and changes nothing |
| Crawler.Scraper.GetArticleUrls | src/lrytas/scraper.py:124-151 | the loop returns `ArticleUrls` of the query after recording the search and its short sleep |
| Crawler.Scraper.GetArticleData | src/lrytas/scraper.py:153-169 | returns `ArticleData` of the URL after recording the short sleep and the GET |
| Crawler.Scraper.VisitArticle | src/lrytas/scraper.py:102-107 | one pass of the article loop computes `Visit`: a known URL is skipped, otherwise the article is fetched and saved only if complete; consistent counters stay consistent |
| Crawler.Scraper.VisitArticles | src/lrytas/scraper.py:101-107 | the `for` loop over the article URLs computes `VisitAll`: it stops at the first HTTP fault |
| Crawler.Scraper.ScrapeQuery | src/lrytas/scraper.py:92-109 | the loop over the article URLs computes `QueryOnce`: same status, same new state; consistent counters stay consistent |
| Crawler.Scraper.ScrapeUntilFound | src/lrytas/scraper.py:84-88 | the inner `while` loop computes `Attempt`; consistent counters stay consistent |
| Crawler.Scraper.Scrape | src/lrytas/scraper.py:75-90 | the two nested loops compute `Crawl` from the state on entry and keep the counters consistent with the store |
| Titles.TrimStart | src/lrytas/dataset_builder.py:63 | the left half of `str.strip()`; `TrimStartShape` states its meaning |
| Titles.TrimEnd | src/lrytas/dataset_builder.py:63 | the right half of `str.strip()`; `TrimEndShape` states its meaning |
| Titles.Strip | src/lrytas/dataset_builder.py:63 | `str.strip()`; `StripShape`, `StripEmpty` and `StripIdempotent` state its meaning |
| Titles.TrimStartShape | src/lrytas/dataset_builder.py:63 | left stripping removes exactly the longest whitespace prefix |
| Titles.TrimEndShape | src/lrytas/dataset_builder.py:63 | right stripping removes exactly the longest whitespace suffix |
| Titles.StripShape | src/lrytas/dataset_builder.py:63 | `strip()` yields an inner slice with only whitespace around it, and the slice neither starts nor ends with whitespace |
| Titles.StripEmpty | src/lrytas/dataset_builder.py:63-64 | a stripped title is empty exactly when the title is whitespace only |
| Titles.StripIdempotent | src/lrytas/dataset_builder.py:63 | stripping twice is stripping once |
| DatasetBuilder.Dedup | src/lrytas/dataset_builder.py:57-72 | the output is no longer than the input |
| DatasetBuilder.TitleKey | src/lrytas/dataset_builder.py:63 | `sample.get("title", "").strip()`; `TitleKeyEmpty` states when it is empty, and `DedupUnique` that kept records differ in it |
| DatasetBuilder.TitleKeyEmpty | src/lrytas/dataset_builder.py:63-64 | the key is empty exactly when the title is missing or whitespace only |
| DatasetBuilder.DedupKeepsFirst | src/lrytas/dataset_builder.py:62-66 | the output is the input's records, unchanged and in order, at exactly the positions where a non-empty key occurs for the first time |
| DatasetBuilder.DedupUnique | src/lrytas/dataset_builder.py:63-66 | every kept record has a non-empty stripped title, and no two kept records share one |
| DatasetBuilder.DedupKeys | src/lrytas/dataset_builder.py:62-66 | every non-empty stripped title of the input is represented in the output |
| DatasetBuilder.UniqueTitlesCount | src/lrytas/dataset_builder.py:64-66 | a sequence with unique non-empty titles has as many titles as records |
| DatasetBuilder.DedupCount | src/lrytas/dataset_builder.py:68-71 | the number kept is the number of distinct non-empty titles, and kept plus removed is the input length |
| DatasetBuilder.DedupFixedPoint | src/lrytas/dataset_builder.py:62-66 | a sequence with unique non-empty titles passes through unchanged |
| DatasetBuilder.DedupIdempotent | src/lrytas/dataset_builder.py:57-72 | deduplicating the output again returns it unchanged |
| DatasetBuilder.DedupFour | src/lrytas/dataset_builder.py:62-66 | of four records with keys k, k, empty and k' (k' different from k and both non-empty), the first and the fourth are kept |
| DatasetBuilder.DedupExample | src/lrytas/dataset_builder.py:62-66 | titles "X", " X", missing, "Y" keep the first and the fourth record |
| DatasetBuilder.IgnoreDuplicates | src/lrytas/dataset_builder.py:57-72 | the loop with its set of seen titles returns `Dedup` of the input |
| DatasetBuilder.BuildDataset | src/lrytas/dataset_builder.py:28-49 | the exported list is `Dedup` of the store's records |
| Scenarios.OvershootExample | src/lrytas/scraper.py:75-109 | pool ["b", "a"] with limit 1 ends completed in the state `AfterOvershoot`: "a" finds nothing and is followed by a backoff, then "b" stores two articles, one past the limit |
| Scenarios.ExhaustedExample | src/lrytas/scraper.py:84-88 | a single word that finds nothing leads to one search, one backoff, and an exhausted pool with nothing stored |
| Scenarios.FaultExample | src/lrytas/scraper.py:101-107 | a failing GET on the first article aborts the run before the second article is fetched |

## Left out

- Browser automation: the Selenium driver's lifecycle, Chrome options, the cookie button, and the `ValueError` for a missing driver. `Site.search` stands for a loaded page.
- A failure while loading a search page: `Site.search` is total.
- HTML extraction with BeautifulSoup (`_get_title`, `_get_summary`, `_get_text`, the unused `_get_text___`, the h3/a scan). `Site.search` and `Site.get` return their results directly.
- `tldextract`: the registered-domain test is the oracle `Site.isLrytasDomain`.
- The oracle is a fixed function: searching or fetching the same thing twice gives the same answer.
- The sleep durations (random floats) and the `debug` flag that chooses them. Only the kind of each sleep is recorded.
- `top_n_list` and `random.shuffle`: the initial pool is any given sequence.
- JSON serialisation, file existence and `touch`. The store is a sequence of records, and an absent file is an empty sequence.
- A record in the store without a `url` key (a `KeyError` during recovery): every modelled record has a URL.
- `push_to_hub`, `datasets.Dataset`/`DatasetDict` and the unused `_write_split`.
- Logging, including the progress message on every tenth sample.
- The command-line scripts `src/scripts/scrape.py` and `src/scripts/build_dataset.py`.
- CrawlBacksOff: states that backoffs and empty searches are equal in number, not that each backoff comes right after its search. The position is fixed by `Retry`, which `Scraper.ScrapeUntilFound` is proved to compute, and is shown in `Scenarios.OvershootExample`.
- CrawlCooldowns: bounds the number of cooldowns by the samples added, but does not state that a cooldown happens at every loop head where one is due. `CooldownAdvances` states what the check records at each head, and `CrawlCoolsFirst` that a due cooldown is the first event of the run that follows.
