/**
 The pagination driver `scrape_scholar_articles` (prog.py:14-65).

 HTTP and HTML parsing are abstracted into a `server`: a total function from
 the request sent to what the scraper makes of the response, either the status
 code and the parsed result blocks, or an exception raised outside the
 per-result `try`. The error and warning dialogs that accompany each `break`
 become the run's `Stop` reason.
 */
module Pagination {
  import opened Wrappers
  import opened Records
  import opened SearchUrl

  const StatusOk := 200

  /** One page fetch as the loop sees it. `blocks` matter only when `status` is 200. */
  datatype PageOutcome =
    | Response(status: int, blocks: seq<Block>)
    | Raised

  /** Why the loop ended: the page budget ran out, or the dialog that went with a `break`. */
  datatype Stop =
    | PagesExhausted
    | BadStatus(code: int)
    | NoResults
    | FetchRaised

  /** The returned article list, plus (for the model) the requests sent, in order, and the stop reason. */
  datatype Run = Run(articles: seq<Article>, requested: seq<Request>, stop: Stop)

  /**
   The web as the scraper sees it. It is keyed by request rather than by URL
   text: `SearchUrl.UrlInjective` shows the URL determines the request.
   */
  type Server = Request -> PageOutcome

  /** The response the scraper gets for page `page` of `query`. */
  function OutcomeAt(query: string, server: Server, page: nat): PageOutcome {
    server(PageRequest(query, page))
  }

  /** Whether a page ends the loop, and with which reason; `None` when the page is processed in full. */
  function Verdict(o: PageOutcome): (v: Option<Stop>)
    ensures v.None? <==> o.Response? && o.status == StatusOk && 0 < |o.blocks|
    ensures v == Some(FetchRaised) <==> o.Raised?
    ensures v == Some(NoResults) <==> o.Response? && o.status == StatusOk && |o.blocks| == 0
    ensures o.Response? && o.status != StatusOk ==> v == Some(BadStatus(o.status))
    ensures v != Some(PagesExhausted)
  {
    match o
    case Raised => Some(FetchRaised)
    case Response(status, blocks) =>
      if status != StatusOk then Some(BadStatus(status))
      else if |blocks| == 0 then Some(NoResults)
      else None
  }

  /** The records a page adds when it is processed in full. */
  function PageArticles(o: PageOutcome): seq<Article> {
    if o.Response? then ParsePage(o.blocks) else []
  }

  /** The number of pages the loop admits: `while page < num_pages` never runs for `num_pages <= 0`. */
  function PagesAllowed(numPages: int): nat {
    if numPages < 0 then 0 else numPages
  }

  /** One past the last page a loop starting at `page` may fetch. */
  function Budget(numPages: int, page: nat): nat {
    if page < numPages then numPages else page
  }

  /** The loop from page `page` on, with `numPages` the page budget. */
  function ScrapeFrom(query: string, numPages: int, page: nat, server: Server): (r: Run)
    ensures page + |r.requested| <= Budget(numPages, page)
    decreases Budget(numPages, page) - page
  {
    if numPages <= page then Run([], [], PagesExhausted)
    else
      var outcome := OutcomeAt(query, server, page);
      if Verdict(outcome).Some? then Run([], [PageRequest(query, page)], Verdict(outcome).value)
      else
        var rest := ScrapeFrom(query, numPages, page + 1, server);
        Run(ParsePage(outcome.blocks) + rest.articles, [PageRequest(query, page)] + rest.requested, rest.stop)
  }

  /** `scrape_scholar_articles(query, num_pages)`: at most `num_pages` pages are fetched, none when it is not positive. */
  function Scrape(query: string, numPages: int, server: Server): (r: Run)
    ensures numPages <= 0 ==> r == Run([], [], PagesExhausted)
    ensures |r.requested| <= PagesAllowed(numPages)
  {
    ScrapeFrom(query, numPages, 0, server)
  }

  // Reference definitions: what a run should return, stated page by page
  // rather than as a loop.

  /** The first page in `lo .. hi-1` that stops the loop, or `hi` when none does. */
  function FirstStop(query: string, server: Server, lo: nat, hi: nat): (k: nat)
    requires lo <= hi
    ensures lo <= k <= hi
    ensures forall p :: lo <= p < k ==> Verdict(OutcomeAt(query, server, p)).None?
    ensures k < hi ==> Verdict(OutcomeAt(query, server, k)).Some?
    decreases hi - lo
  {
    if lo == hi then hi
    else if Verdict(OutcomeAt(query, server, lo)).Some? then lo
    else FirstStop(query, server, lo + 1, hi)
  }

  /** The requests for pages `lo .. hi-1`, in page order. */
  function Requests(query: string, lo: nat, hi: nat): (rs: seq<Request>)
    requires lo <= hi
    ensures |rs| == hi - lo
    ensures forall i :: 0 <= i < |rs| ==> rs[i] == PageRequest(query, lo + i)
    decreases hi - lo
  {
    if lo == hi then [] else [PageRequest(query, lo)] + Requests(query, lo + 1, hi)
  }

  /** The records of pages `lo .. hi-1`, page by page, each in result order. */
  function Gathered(query: string, server: Server, lo: nat, hi: nat): seq<Article>
    requires lo <= hi
    decreases hi - lo
  {
    if lo == hi then [] else PageArticles(OutcomeAt(query, server, lo)) + Gathered(query, server, lo + 1, hi)
  }

  /**
   The run expected from page `page` on: every page before the first stopping
   one is fetched and contributes its records; the stopping page is fetched,
   contributes nothing and names the reason; without one the budget is spent.
   */
  function Expected(query: string, numPages: int, page: nat, server: Server): Run {
    var hi := Budget(numPages, page);
    var k := FirstStop(query, server, page, hi);
    if k < hi then Run(Gathered(query, server, page, k), Requests(query, page, k + 1), Verdict(OutcomeAt(query, server, k)).value)
    else Run(Gathered(query, server, page, hi), Requests(query, page, hi), PagesExhausted)
  }

  /** The loop computes the reference run. */
  lemma {:induction false} ScrapeFromExpected(query: string, numPages: int, page: nat, server: Server)
    ensures ScrapeFrom(query, numPages, page, server) == Expected(query, numPages, page, server)
    decreases Budget(numPages, page) - page
  {
    if page < numPages && Verdict(OutcomeAt(query, server, page)).None? {
      ScrapeFromExpected(query, numPages, page + 1, server);
      var hi := Budget(numPages, page);
      assert Budget(numPages, page + 1) == hi;
      var k := FirstStop(query, server, page + 1, hi);
      assert FirstStop(query, server, page, hi) == k;
    }
  }

  /**
   A whole run is the reference run from page 0: pages are requested in order
   0, 1, 2, …; the articles are those of the pages before the first stopping
   page, in page order and then result order; a stopping page ends the run
   with its reason.
   */
  lemma ScrapeIsExpected(query: string, numPages: int, server: Server)
    ensures Scrape(query, numPages, server) == Expected(query, numPages, 0, server)
  {
    ScrapeFromExpected(query, numPages, 0, server);
  }

  /** Page `p` is requested `p`-th, with the raw query and the offset `10 * p`. */
  lemma ScrapeRequestsInOrder(query: string, numPages: int, server: Server)
    ensures var r := Scrape(query, numPages, server);
            forall p :: 0 <= p < |r.requested| ==> r.requested[p].query == query && r.requested[p].start == p * ResultsPerPage
  {
    ScrapeIsExpected(query, numPages, server);
  }

  /** No request is sent twice in one run: the pages, and so the offsets, are distinct. */
  lemma ScrapeRequestsDistinct(query: string, numPages: int, server: Server)
    ensures var r := Scrape(query, numPages, server);
            forall i, j :: 0 <= i < j < |r.requested| ==> r.requested[i] != r.requested[j]
  {
    ScrapeRequestsInOrder(query, numPages, server);
  }

  /** `FirstStop` is pinned down by its contract: the page before which nothing stops and which does stop. */
  lemma FirstStopIs(query: string, server: Server, lo: nat, hi: nat, p: nat)
    requires lo <= p <= hi
    requires forall i :: lo <= i < p ==> Verdict(OutcomeAt(query, server, i)).None?
    requires p < hi ==> Verdict(OutcomeAt(query, server, p)).Some?
    ensures FirstStop(query, server, lo, hi) == p
  {}

  /**
   Early stop: when every page before `p` is processed in full and page `p`
   (within the budget) stops the loop, the run fetched pages `0 .. p`, returns
   the records of the pages before `p`, and reports `p`'s reason.
   */
  lemma ScrapeStopsAtFirstStoppingPage(query: string, numPages: int, server: Server, p: nat)
    requires p < numPages
    requires forall i :: 0 <= i < p ==> Verdict(OutcomeAt(query, server, i)).None?
    requires Verdict(OutcomeAt(query, server, p)).Some?
    ensures Scrape(query, numPages, server) ==
              Run(Gathered(query, server, 0, p), Requests(query, 0, p + 1), Verdict(OutcomeAt(query, server, p)).value)
  {
    ScrapeIsExpected(query, numPages, server);
    FirstStopIs(query, server, 0, numPages, p);
  }

  /**
   Budget spent: when every page within the budget is processed in full, the
   run fetched all of them and returns all their records.
   */
  lemma ScrapeCompletes(query: string, numPages: int, server: Server)
    requires forall i :: 0 <= i < numPages ==> Verdict(OutcomeAt(query, server, i)).None?
    ensures Scrape(query, numPages, server) ==
              Run(Gathered(query, server, 0, PagesAllowed(numPages)), Requests(query, 0, PagesAllowed(numPages)), PagesExhausted)
  {
    ScrapeIsExpected(query, numPages, server);
    FirstStopIs(query, server, 0, PagesAllowed(numPages), PagesAllowed(numPages));
  }

  /**
   Partial results are kept: a run cut short by a stopping page returns exactly
   what a run budgeted for the pages before that page returns.
   */
  lemma ScrapePartialResults(query: string, numPages: int, server: Server)
    requires Scrape(query, numPages, server).stop != PagesExhausted
    ensures var r := Scrape(query, numPages, server);
            Scrape(query, |r.requested| - 1, server) == Run(r.articles, r.requested[..|r.requested| - 1], PagesExhausted)
  {
    var r := Scrape(query, numPages, server);
    ScrapeIsExpected(query, numPages, server);
    var k := FirstStop(query, server, 0, PagesAllowed(numPages));
    assert k < PagesAllowed(numPages);
    assert |r.requested| - 1 == k;
    ScrapeCompletes(query, k, server);
    assert r.requested[..k] == Requests(query, 0, k);
    assert Scrape(query, k, server) == Run(r.articles, r.requested[..k], PagesExhausted);
  }

  /** A run that stopped early is unaffected by a larger page budget. */
  lemma ScrapeStoppedIgnoresBudget(query: string, numPages: int, server: Server, more: int)
    requires Scrape(query, numPages, server).stop != PagesExhausted
    requires numPages <= more
    ensures Scrape(query, more, server) == Scrape(query, numPages, server)
  {
    ScrapeIsExpected(query, numPages, server);
    var k := FirstStop(query, server, 0, PagesAllowed(numPages));
    assert k < PagesAllowed(numPages);
    ScrapeStopsAtFirstStoppingPage(query, numPages, server, k);
    ScrapeStopsAtFirstStoppingPage(query, more, server, k);
  }

  /** The records of consecutive page ranges are concatenated in page order. */
  lemma {:induction false} GatheredSplit(query: string, server: Server, lo: nat, mid: nat, hi: nat)
    requires lo <= mid <= hi
    ensures Gathered(query, server, lo, hi) == Gathered(query, server, lo, mid) + Gathered(query, server, mid, hi)
    decreases mid - lo
  {
    if lo < mid {
      GatheredSplit(query, server, lo + 1, mid, hi);
      var head := PageArticles(OutcomeAt(query, server, lo));
      assert head + (Gathered(query, server, lo + 1, mid) + Gathered(query, server, mid, hi))
          == (head + Gathered(query, server, lo + 1, mid)) + Gathered(query, server, mid, hi);
    }
  }

  /** A larger page budget only extends a run: the smaller run's articles and requests come first, unchanged. */
  lemma ScrapeBudgetPrefix(query: string, numPages: int, server: Server, more: int)
    requires numPages <= more
    ensures Scrape(query, numPages, server).articles <= Scrape(query, more, server).articles
    ensures Scrape(query, numPages, server).requested <= Scrape(query, more, server).requested
  {
    if Scrape(query, numPages, server).stop != PagesExhausted {
      ScrapeStoppedIgnoresBudget(query, numPages, server, more);
    } else {
      ScrapeIsExpected(query, numPages, server);
      ScrapeIsExpected(query, more, server);
      var n := PagesAllowed(numPages);
      var m := PagesAllowed(more);
      assert FirstStop(query, server, 0, n) == n;
      var k := FirstStop(query, server, 0, m);
      FirstStopIs(query, server, n, m, k);
      GatheredSplit(query, server, 0, n, k);
    }
  }

  /** The run of `ScrapeFrom(page)` with the records and requests of earlier pages in front. */
  function Prepend(articles: seq<Article>, requested: seq<Request>, r: Run): Run {
    Run(articles + r.articles, requested + r.requested, r.stop)
  }

  /** Prepending twice is prepending the concatenations. */
  lemma PrependPrepend(a: seq<Article>, q: seq<Request>, b: seq<Article>, q': seq<Request>, r: Run)
    ensures Prepend(a, q, Prepend(b, q', r)) == Prepend(a + b, q + q', r)
  {
    assert a + (b + r.articles) == (a + b) + r.articles;
    assert q + (q' + r.requested) == (q + q') + r.requested;
  }

  /**
   One step of the loop: if the run so far is `articles`/`requested` followed
   by the run from `page`, then after page `page` it is either finished (the
   page stopped the loop) or the longer prefix followed by the run from the
   next page.
   */
  lemma ScrapeFromStep(query: string, numPages: int, page: nat, server: Server,
                                          articles: seq<Article>, requested: seq<Request>)
    requires page < numPages
    requires ScrapeFrom(query, numPages, 0, server) == Prepend(articles, requested, ScrapeFrom(query, numPages, page, server))
    ensures var o := OutcomeAt(query, server, page);
            var requested' := requested + [PageRequest(query, page)];
            if Verdict(o).Some? then ScrapeFrom(query, numPages, 0, server) == Run(articles, requested', Verdict(o).value)
            else ScrapeFrom(query, numPages, 0, server) ==
                   Prepend(articles + PageArticles(o), requested', ScrapeFrom(query, numPages, page + 1, server))
  {
    var o := OutcomeAt(query, server, page);
    if Verdict(o).Some? {
      assert articles + [] == articles;
    } else {
      PrependPrepend(articles, requested, PageArticles(o), [PageRequest(query, page)],
                     ScrapeFrom(query, numPages, page + 1, server));
    }
  }

  /** Past the budget the run from `page` adds nothing: the prefix is the whole run. */
  lemma ScrapeFromDone(query: string, numPages: int, page: nat, server: Server,
                                          articles: seq<Article>, requested: seq<Request>)
    requires numPages <= page
    ensures Prepend(articles, requested, ScrapeFrom(query, numPages, page, server)) == Run(articles, requested, PagesExhausted)
  {
    assert articles + [] == articles;
    assert requested + [] == requested;
  }

  /**
   One pass of the loop body as written: send the request, stop on an
   exception or a status other than 200, stop on a page without results,
   otherwise parse each result under its own `try`.
   */
  method FetchPage(query: string, page: nat, server: Server)
    returns (request: Request, parsed: seq<Article>, halt: Option<Stop>)
    ensures request == PageRequest(query, page)
    ensures halt == Verdict(OutcomeAt(query, server, page))
    ensures parsed == if halt.Some? then [] else PageArticles(OutcomeAt(query, server, page))
  {
    request := PageRequest(query, page);
    parsed := [];
    var response := server(request);
    if response.Raised? {
      halt := Some(FetchRaised);
      return;
    }
    if response.status != StatusOk {
      halt := Some(BadStatus(response.status));
      return;
    }
    var results := response.blocks;
    if |results| == 0 {
      halt := Some(NoResults);
      return;
    }
    parsed := ParseResults(results);
    halt := None;
  }

  /** The `while page < num_pages` loop; it computes `Scrape`. */
  method ScrapeScholarArticles(query: string, numPages: int, server: Server)
    returns (articles: seq<Article>, requested: seq<Request>, stop: Stop)
    ensures Run(articles, requested, stop) == Scrape(query, numPages, server)
  {
    articles := [];
    requested := [];
    stop := PagesExhausted;
    var page: nat := 0;
    while page < numPages
      invariant ScrapeFrom(query, numPages, 0, server) == Prepend(articles, requested, ScrapeFrom(query, numPages, page, server))
      invariant stop == PagesExhausted
      decreases numPages - page
    {
      var request, parsed, halt := FetchPage(query, page, server);
      ScrapeFromStep(query, numPages, page, server, articles, requested);
      articles := articles + parsed;
      requested := requested + [request];
      if halt.Some? {
        stop := halt.value;
        break;
      }
      page := page + 1;
    }
    if stop == PagesExhausted {
      ScrapeFromDone(query, numPages, page, server, articles, requested);
    }
  }
}
