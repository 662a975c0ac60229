# Google Scholar scraper — a Dafny model

`prog.py` is a small desktop tool. It takes a search query and a page count. It fetches that many Google Scholar results pages. From each result it collects the title, the authors and the link. It then writes the collected records to a spreadsheet whose name does not clash with an existing file. This project models the two functions that do this work and proves properties of them:

- `scrape_scholar_articles` (pagination driver). Page `p` is requested with the offset `start = 10 * p`. The loop runs while `page < num_pages`. It stops early on a status other than 200, on a page without results, or on an exception. A result whose parsing raises is skipped. The records gathered so far are always returned.
- `save_to_excel` (exporter). An empty list is refused. Otherwise the file name is made collision-free by trying `name.ext`, then `name_1.ext`, `name_2.ext`, … and taking the first one that does not exist.

Modules, one per file:

- `Wrappers` (`wrappers.dfy`): `Option`.
- `Decimal` (`decimal.dfy`): the decimal numerals Python's f-strings produce, with their inverse.
- `Records` (`records.dfy`): one result block and the record built from it (`Article`), with the sentinel strings `No title found`, `No authors found` and `No link found`.
- `SearchUrl` (`search_url.dfy`): the results-page URL and a parser that reads it back.
- `Pagination` (`pagination.dfy`): the loop, written twice. `ScrapeScholarArticles` is the imperative loop as written. `Scrape` is its functional counterpart. `Expected` is an independent, page-by-page reference definition.
- `Export` (`export.dfy`): the collision-free file-name search and the save.
- `QueryEncoding` (`query_encoding.dfy`): how the search engine reads the `q` parameter (see Findings).

The outside world is abstracted as follows:

- **Network and HTML parser.** These are a `Server`, a total function from the request sent to a `PageOutcome`. A `PageOutcome` is either `Response(status, blocks)` or `Raised`. `Raised` is an exception outside the per-result `try`.
- **Server keyed by request.** The server is keyed by `Request` (query, start offset) rather than by URL text. `SearchUrl.UrlInjective` shows that the URL text determines the request.
- **Result blocks.** A block gives the optional title heading (its text and optional first anchor with optional `href`) and the optional authors text. `Unparsable` is a block whose field extraction raises.
- **Element presence.** A BeautifulSoup tag is always truthy, so "the element was found" is `Some`.
- **Dialogs.** The error and warning dialogs that accompany each `break` become the run's `Stop` reason.
- **Filesystem.** It is the finite set `existing` of paths that exist. `os.path.splitext` is a split `base + ext == filename`. The spreadsheet write either succeeds or raises, given as the flag `writeSucceeds`.

Where the code and its design description disagree, the model follows the code:

- **Query encoding.** The design description says the query is percent-encoded. `prog.py:25` interpolates it raw.
- **Empty titles.** The design description calls the title non-empty. `prog.py:44` keeps the heading text even when it is `""`.

## Model

| member | source | states |
|---|---|---|
| Decimal.NatToString | prog.py:25 | the rendering of an offset or counter is a non-empty string of decimal digits |
| Decimal.DigitsToNatOfNatToString | prog.py:25 | reading the rendered numeral back gives the number: the f-string rendering loses nothing |
| Decimal.NatToStringInjective | prog.py:80 | distinct numbers render to distinct numerals |
| Records.LinkOf | prog.py:49-50 | the link is the `href` of the title's first anchor when the title, the anchor and the attribute are all present; otherwise it is `No link found`; a real link always traces back to such an `href` |
| Records.ToArticle | prog.py:43-52 | each field is the element's text when the element is present and its sentinel when it is missing; a missing title also forces the link sentinel |
| Records.ParseBlock | prog.py:42-55 | a result yields a record exactly when its parsing does not raise, and the record is the one built from it |
| Records.ParsePage | prog.py:41-55 | a page contributes at most one record per result; with the lemmas below: exactly the records of the results that parse, in result order |
| Records.ParsePageAppend | prog.py:41-55 | the records of a page are the records of its parts, concatenated in result order |
| Records.ParsePageAllParse | prog.py:41-52 | when no result raises, the page yields one record per result and record `i` is built from result `i` |
| Records.ParsePageNoneParse | prog.py:54-55 | when every result raises, the page yields no records |
| Records.ParsePageOrigin | prog.py:41-52 | every record of a page comes from a result on that page that parsed |
| Records.SentinelMeansMissing | prog.py:44-50 | when no result literally carries a sentinel text, a sentinel in a record means exactly that the field was missing |
| Records.ParseResults | prog.py:41-55 | the per-result loop with its inner `try` computes the page's records, in order, skipping results that raise |
| SearchUrl.PageRequest | prog.py:25 | page `p` asks for the raw query and an offset that is a multiple of 10 whose tenth is `p` |
| SearchUrl.Url | prog.py:25 | the f-string URL of a request; it reads back to that request, so offset and query are both carried unchanged |
| SearchUrl.ParseStartOf | prog.py:25 | the text after `start=` reads back to the offset and the query |
| SearchUrl.UrlInjective | prog.py:25 | distinct requests are sent as distinct URLs |
| Pagination.Verdict | prog.py:29-39 | a page is processed in full exactly when it answered 200 with at least one result; an exception, any other status, or 200 with no results each stop the loop with their own reason; a page never reports an exhausted budget |
| Pagination.ScrapeFrom | prog.py:23-63 | the loop from a given page never requests more pages than the budget leaves |
| Pagination.Scrape | prog.py:14-23 | no page is requested when `num_pages` is not positive, and never more than `num_pages` pages |
| Pagination.ScrapeFromExpected | prog.py:23-65 | the loop from any page computes the reference run: the pages before the first stopping page, their records, and the stop reason |
| Pagination.ScrapeIsExpected | prog.py:14-65 | a whole run equals the reference run from page 0 |
| Pagination.ScrapeRequestsInOrder | prog.py:23-25 | the `p`-th request carries the raw query and the offset `10 * p` |
| Pagination.ScrapeRequestsDistinct | prog.py:23-28 | no request is sent twice in one run, so the server can be any function of the request |
| Pagination.FirstStopIs | prog.py:29-39 | the first stopping page is the page before which nothing stops and which itself stops (or the budget when none does) |
| Pagination.ScrapeStopsAtFirstStoppingPage | prog.py:29-39 | a page that returns a non-200 status, has no results or raises ends the run: pages `0 .. p` were fetched, the records of the pages before `p` are returned, and `p`'s reason is reported |
| Pagination.ScrapeCompletes | prog.py:23-59 | when no page within the budget stops, all `num_pages` pages are fetched and all their records are returned |
| Pagination.ScrapePartialResults | prog.py:61-65 | a run cut short returns exactly what a run budgeted for the pages before the stopping page returns |
| Pagination.ScrapeStoppedIgnoresBudget | prog.py:29-39 | a run that stopped early is the same under any larger page budget |
| Pagination.GatheredSplit | prog.py:41-59 | the records of consecutive page ranges are concatenated in page order |
| Pagination.ScrapeBudgetPrefix | prog.py:23-59 | a larger page budget only extends a run: the smaller run's records and requests come first, unchanged |
| Pagination.FetchPage | prog.py:24-59 | one pass of the loop body sends the page's request, halts on an exception, a non-200 status or an empty page, and otherwise returns the page's records |
| Pagination.ScrapeScholarArticles | prog.py:14-65 | the loop as written returns the records, requests and stop reason of the run `Scrape` defines |
| Export.Candidate | prog.py:80 | the numbered name starts with the base name, an underscore follows, it ends with the extension, and the digits in between read back to the counter |
| Export.CandidateInjective | prog.py:80 | different counters give different file names |
| Export.CandidateIsNotOriginal | prog.py:77-80 | a numbered name is never the original name |
| Export.TakenBound | prog.py:79-81 | when the original name and the first `n` numbered names all exist, more than `n` paths exist; so the search ends |
| Export.FreshName | prog.py:74-81 | the name chosen does not exist; it is the given name when that is free, and otherwise the numbered name with the smallest free counter; it starts with the base name and ends with the extension |
| Export.FirstFreeUnique | prog.py:79-81 | at most one name is the first free name, so the search result is determined |
| Export.SecondSaveIsNumbered | prog.py:79-81 | after a save to the plain name, the next save goes to `base_1ext` when that is free: no file is overwritten |
| Export.SaveToExcel | prog.py:67-89 | an empty list writes nothing and returns `None`; a failed write returns `None`; otherwise the first free name is returned |
| QueryEncoding.DecodeEncode | prog.py:25 | percent-decoding undoes percent-encoding |
| QueryEncoding.ReadQueryOf | prog.py:25 | a URL of the scraper's shape is read as the text after `&q=` cut at its first `#` (the fragment is not sent), then at its first `&`, then percent-decoded |
| QueryEncoding.RawQueryIsCut | prog.py:25 | as written, a query whose first `&` or `#` is at index `i` reaches the engine as its first `i` characters, decoded: strictly shorter than typed |
| QueryEncoding.QueriesAreMisread | prog.py:25 | as written, the query `R&D` is searched for as `R` and the query `C#` as `C` |
| QueryEncoding.EncodedQueryIsRead | prog.py:25 | with the query percent-encoded, the engine reads back exactly the query typed, for every query |

## Left out

- The Tk window, its entry fields, the folder browser and `scrape_articles`, the glue that reads the fields, are left out. The message boxes are modelled only as the `Stop` reason of a run and the `None` result of a save.
- The creation of the default output directory is left out: it is a filesystem side effect unrelated to the results.
- `requests.get`, the User-Agent header and BeautifulSoup's HTML parsing are left out. They are abstracted into the `Server` function and the `Block` datatype.
- `time.sleep(2)` between pages and the `print` progress lines are left out: they change no result.
- pandas' `DataFrame.to_excel` is left out. It is the flag `writeSucceeds`; the spreadsheet's contents are not modelled.
- `os.path.splitext` is left out. It is the caller's split `base + ext == filename`; the rule that picks the last dot is not modelled.
- Export.SaveToExcel: a failure before the write (for example `os.path.exists` raising) is not modelled separately. It ends the same way as a failed write, with `None`.
- QueryEncoding.ReadQueryOf: the engine is modelled as reading only the `q` parameter. A `%XX` escape is read as the character with that code, so multi-byte UTF-8 escapes are not modelled. The HTTP client's own re-quoting of characters that are illegal in a URL is not modelled either. Neither changes where the query is cut.
- The retry with back-off, User-Agent rotation, randomized delays, duplicate removal, run statistics and input validation are left out: `prog.py` has none of them.

## Findings

| source | as written | input that shows it | evidently intended | confidence | as-written member | corrected member |
|---|---|---|---|---|---|---|
| prog.py:25 | the query is put into the URL as typed; the HTTP client drops everything from a `#` on, and the engine splits the query string at `&`, so everything from the first `&` or `#` on is lost | the query `R&D` is searched for as `R`; `C#` as `C` | the query percent-encoded before interpolation, as the design description of the search URL states | high, not executed | QueryEncoding.RawQueryIsCut | QueryEncoding.EncodedQueryIsRead |

`QueryEncoding.QueriesAreMisread` gives concrete instances of the as-written behaviour. `QueryEncoding.EncodedUrl` is the corrected URL. The pagination model does not depend on the choice: its `Server` is any function of the request, so it covers the program as written and the corrected program alike. It does not model what the engine returns for a query it misread.
