# Price scraper job pipeline, modelled in Dafny

The service takes an uploaded spreadsheet of OEM product codes and looks up
each code on two retail sites, InkStation and HotToner. It writes one price
table and e-mails it back.

The model covers the decision logic of the service with every web page,
HTTP reply, browser action, file and clock abstracted into an input value:

- `app.py`: the upload check (`allowed_file`) and the validation order of
  `start_scrape`; the job record and `get_status`; splitting the codes into
  four chunks; the per-worker loop of `worker_process`; the merge in chunk
  order; and the status lifecycle of `run_scraper_job`.
- `utils/request_utils.py`: `clean_price` over the pattern
  `\$[\d,]+\.?\d*`; the retry policy of `make_request` over a feed of attempt
  outcomes; `safe_extract_text`.
- `scrapers/selenium_scraper.py`: the browser session state (`driver`,
  `cloudflare_solved`, `request_count`); the bounded challenge poll; the card
  selection, title, price and status rules; `close`.
- `scrapers/hottoner_scraper.py` and `scrapers/inkstation_scraper.py`: the
  adapters as decision tables over what the page showed.
- `utils/excel_handler.py`: reading codes (error order, null dropping,
  first-appearance deduplication), the empty-input rule and the per-website
  summary sheet.

Modules follow the source files: `Wrappers` (Option, Result, `Feed` and
sequence helpers), `Text` (strip, lower, `in`), `RequestUtils`, `Records`,
`HotTonerScraper`, `InkStationScraper`, `SeleniumScraper`, `ExcelHandler` and
`App`.

A `Feed<T>` is a finite prefix followed by a value repeated forever. It
stands for whatever the outside world returns at each step, such as GET
outcomes or page sources during the challenge wait. No operation therefore
needs a precondition on how many observations were supplied.

Four behaviours of the code that are easy to get wrong when reading it
quickly, and which the model keeps:

- The output table has one row per code, with one price column per site.
  There is no row per (code, site) pair.
- The parent process's `progress.current` stays 0, because the pool workers
  increment their own copies of `jobs` (see `App.ParentProgressStaysAtZero`).
- `completed` is set before the e-mail is sent, so an e-mail failure turns a
  completed job into an errored one (see `App.CompletedThenErrored`).
- The code list keeps the column's order of first appearance (see
  `ExcelHandler.ReadOemCodesKeepsOrder`).

## Model

| member | source | states |
|---|---|---|
| App.AllowedFileIff | app.py:27-33 | A name is accepted exactly when it has a last dot and the text after it, lower-cased, is "xlsx" or "xls". |
| App.AllowedFileExamples | app.py:32-33 | "a.XLSX" and "report.xls" are accepted. "xlsx", "a.xlsx.txt" and "" are rejected. |
| App.NewJob | app.py:236-241 | A new job is pending with progress 0 of 0. |
| App.StartScrape | app.py:203-257 | The four 400 answers come in source order: no file, no e-mail (missing or empty), empty file name, bad extension. A 400 is returned exactly when the request is not acceptable. A save failure gives 500 with the exception text and stores nothing. Once the upload is saved, the new job is stored under the fresh id; a failure to start the thread then gives 500 with its text but leaves the job stored. A 200 happens exactly when nothing raised. Every other job is kept unchanged on every path. |
| App.GetStatus | app.py:260-266 | 404 "Job not found" exactly for an unknown id; otherwise 200 with the stored record. |
| App.StatusAfterStart | app.py:236-266 | Once the job is stored, even when the thread did not start, polling the new id reports the queued job. Every other id reports what it did before. |
| App.SplitChunks | app.py:105-115 | Exactly four chunks. The first three hold floor(n/4) codes and the last holds n - 3*floor(n/4). Concatenated, they give back the code list. |
| App.FewCodesGoToLastWorker | app.py:106-115 | With fewer than four codes, the first three chunks are empty and the last holds every code. |
| App.SplitChunksLoop | app.py:106-115 | The index-arithmetic loop builds the same four chunks as `SplitChunks`. |
| App.Worker | app.py:36-84 | One row per code, in chunk order, carrying its code. An Ink Station cell is present exactly when the browser is used. The counter is bumped once per code when the job is known, else never. A browser exists exactly when it is used, and it is closed at the end. |
| App.WorkerCellsArePrices | app.py:50-74 | An Ink Station cell is present exactly when the browser is used, and it is then the price the browser lookup of that row's code returned: "N/A" or a dollar amount. Every Hot Tonner cell is the price HotToner's adapter returned for that row's code, and it has the shape of a `clean_price` result. |
| App.WorkerWaitsAtMostOnce | app.py:45-56 | A worker's scraper object waits for the challenge at most once. It starts at most one page load per code. |
| App.MergeKeepsCodeOrder | app.py:117-124 | Merging the four workers' rows in chunk order gives exactly the code list as the OEM_CODE column. |
| App.IncrementsCoverCodes | app.py:76-78 | When every worker sees the job, the four workers' counter bumps add up to the number of codes. |
| App.MergedRows | app.py:106-124 | The merged table's OEM_CODE column is the code list. |
| App.RunScraperJob | app.py:87-141 | A table is written exactly when reading the codes and writing succeed. Its OEM_CODE column is the list of codes read. |
| App.JobHistory | app.py:95-103 | The first assignment sets "running" and the second sets the reading message. |
| App.StatusMovesForward | app.py:95-140 | The status never moves backwards along pending, running, completed, error. |
| App.JobOutcome | app.py:95-140 | The final status is "completed" exactly when nothing raised, with the e-mail-sent message. Otherwise it is "error", with "Error: " followed by the first exception's text. |
| App.CompletedThenErrored | app.py:130-140 | A job that was "completed" ends "error" exactly when the codes were read and written but the e-mail failed. |
| App.JobLifecycle | app.py:87-140 | For a queued job, the first step leaves pending and the status only moves forward from there. The job ends completed exactly when reading, writing and mailing succeeded, and in error otherwise. |
| App.ParentProgressStaysAtZero | app.py:76-103 | The parent's `current` stays 0 in every state of the job. After a successful read, `total` is the number of codes. |
| RequestUtils.PriceSearch | utils/request_utils.py:141-143 | `re.search` finds a match exactly when some index can start one. The match is a token of the pattern that begins at the leftmost such index, and no token beginning there is longer (the greedy match). |
| RequestUtils.AnchoredMatchIsLongest | utils/request_utils.py:141 | No token of the pattern at a match start is longer than the greedy match there. |
| RequestUtils.CleanPrice | utils/request_utils.py:123-145 | "N/A" for "" and "N/A". Otherwise the leftmost longest price match in the stripped text, or the stripped text when there is none. |
| RequestUtils.CleanPriceShape | utils/request_utils.py:133-145 | Every result is "N/A", a token of the pattern, or stripped text in which no price can start. |
| RequestUtils.CleanPriceOfWhitespace | utils/request_utils.py:133-145 | Whitespace-only text gives "", not "N/A". |
| RequestUtils.CleanPriceIdempotent | utils/request_utils.py:123-145 | Cleaning a cleaned price changes nothing, unless the input strips to empty. |
| RequestUtils.SafeExtractText | utils/request_utils.py:104-120 | The default for a missing or unreadable element; otherwise its stripped text. |
| RequestUtils.RetryFromSpec | utils/request_utils.py:56-89 | From attempt k on, the loop stops early only at a 200 or 404 and returns a body only for a 200. A 429 on attempt a sleeps (a+1)*5 s. The back-off follows every non-final attempt but the last. |
| RequestUtils.MakeRequest | utils/request_utils.py:44-89 | With a budget of 0 or less, no attempt is made. Otherwise 1 to `max_retries` attempts are made, and only the last can be a 200 or 404. The body comes back exactly for a final 200, with the 429 waits and back-offs as above. |
| RequestUtils.MakeRequestSucceedsIff | utils/request_utils.py:56-69 | A response is returned exactly when some attempt within the budget answered 200 and no earlier one answered 200 or 404. |
| RequestUtils.MakeRequestLoop | utils/request_utils.py:56-89 | The statement-level loop returns the same response and the same sleeps as `MakeRequest`. |
| Records.SearchUrlInjective | scrapers/hottoner_scraper.py:25 | A record's search URL determines the code that was looked up. |
| SeleniumScraper.Fresh | scrapers/selenium_scraper.py:19-30 | A new scraper object has no driver, no solved challenge and a request count of 0. |
| SeleniumScraper.WaitForCloudflare | scrapers/selenium_scraper.py:72-106 | The wait returns True exactly when one of the first `timeout` polls shows a content indicator, stopping at the first such poll. It returns False after exactly `timeout` polls otherwise, and a raising poll counts as a poll. |
| SeleniumScraper.WaitForCloudflareLoop | scrapers/selenium_scraper.py:87-106 | The polling loop gives the same outcome and poll count as `WaitForCloudflare`. |
| SeleniumScraper.ScanSelectorsIsFirstPriced | scrapers/selenium_scraper.py:174-189 | The nested selector loop with its two breaks picks the first priced card among all selectors' candidates, laid end to end. |
| SeleniumScraper.FindProduct | scrapers/selenium_scraper.py:161-206 | The product is the first priced card among all selectors' candidates, laid end to end. When none is priced, it is the first container with both a "$" text and a link. None is found exactly when there is neither. |
| SeleniumScraper.CardTitle | scrapers/selenium_scraper.py:219-235 | The heading text unless it is missing or "N/A". Otherwise the first link text longer than 10 characters without "$", and "N/A" exactly when there is none. |
| SeleniumScraper.CardPrice | scrapers/selenium_scraper.py:237-258 | The result is "N/A" or a pattern token. When the first "$" text has a match, it is that text's leftmost longest match. Otherwise it is the leftmost longest match in the first price-class text that has one. It is "N/A" exactly when neither exists. |
| SeleniumScraper.PageStatus | scrapers/selenium_scraper.py:260-264 | Out of Stock exactly when "out of stock" or "not available" occurs in the page, in any case; Available otherwise. |
| SeleniumScraper.Scrape | scrapers/selenium_scraper.py:108-295 | The record always carries the code, the site and the search URL. A driver is started only when none exists, and the count goes up exactly when a driver is available. The challenge wait runs exactly on the first loaded page of an unsolved session, and the flag is then set whatever the outcome. Error, Not Found and found records appear under exactly the source's conditions. The price is "N/A" or a dollar amount. |
| SeleniumScraper.ChallengeOutcomeIrrelevant | scrapers/selenium_scraper.py:128-136 | A timed-out challenge gives the same record and session as a solved one. |
| SeleniumScraper.Close | scrapers/selenium_scraper.py:297-301 | After `close` there is no driver. A driver is quit exactly when one was open. The challenge flag and the count are kept. |
| SeleniumScraper.CloseIdempotent | scrapers/selenium_scraper.py:297-301 | A second `close` changes nothing and quits nothing. |
| SeleniumScraper.RunRecords | scrapers/selenium_scraper.py:108-295 | Every record of a run of lookups describes its code on InkStation, with "N/A" or a dollar amount as its price. |
| SeleniumScraper.AtMostOneChallengeWait | scrapers/selenium_scraper.py:128-136 | Over any run on one object there is at most one challenge wait, and none once the flag is set. The flag is never cleared. |
| SeleniumScraper.RequestCountCountsDriverLookups | scrapers/selenium_scraper.py:120-124 | The request count grows by the number of lookups that had a driver. |
| HotTonerScraper.DetailStatus | scrapers/hottoner_scraper.py:73-88 | The OutofStock banner forces Out of Stock. Otherwise the status is In Stock exactly when the availability line contains "InStock". It is Available exactly when there is no such line, or the line mentions neither InStock nor either out-of-stock form. |
| HotTonerScraper.ListingStatus | scrapers/hottoner_scraper.py:133-139 | In Stock exactly when some text mentions InStock. Out of Stock exactly when none does and some text mentions out of stock. |
| HotTonerScraper.Scrape | scrapers/hottoner_scraper.py:15-162 | The record always carries the code, the site and the search URL. An exception gives the Error record and a non-200 gives Not Found. A missing list or first item gives Not Found, and Not Available occurs only then. Otherwise the status comes from the page kind's rule. |
| HotTonerScraper.ScrapedFields | scrapers/hottoner_scraper.py:58-131 | On a 200 reply, a missing title or price element gives "N/A". A found title is its stripped text, and a found price is `clean_price` of it. |
| HotTonerScraper.PriceIsCleaned | scrapers/hottoner_scraper.py:64-131 | Every HotToner price has the shape of a `clean_price` result. |
| InkStationScraper.ChooseProduct | scrapers/inkstation_scraper.py:42-58 | The first of the four selectors that hits wins. The catch-all div is used only when all four miss, and nothing is found exactly when all five miss. |
| InkStationScraper.FirstUsable | scrapers/inkstation_scraper.py:79-97 | The cascade gives nothing when no element was found. Otherwise it gives the first value other than "N/A", and "N/A" only when every found value is "N/A". |
| InkStationScraper.FirstUsableLoop | scrapers/inkstation_scraper.py:79-83 | The loop with `break` computes the same value as `FirstUsable`. |
| InkStationScraper.OrNA | scrapers/inkstation_scraper.py:108-109 | A missing or empty value becomes "N/A"; any other value is kept. |
| InkStationScraper.StockStatus | scrapers/inkstation_scraper.py:99-101 | Out of Stock exactly when the first text mentioning stock or availability contains "out", in any case. |
| InkStationScraper.Scrape | scrapers/inkstation_scraper.py:15-124 | The record always carries the code, the site and the search URL. No response gives Not Found, and a garbled page gives Error. A page without a product gives Not Available. Otherwise the title, price and status come from the chosen product. |
| InkStationScraper.NotFoundWhenNoResponse | scrapers/inkstation_scraper.py:28-38 | Without a 200 inside the budget of three attempts before any 404, the record is Not Found, never Error. |
| InkStationScraper.TitleIsNAOnlyWithoutText | scrapers/inkstation_scraper.py:70-83 | The title is "N/A" while a later candidate has real text only when an earlier candidate yielded empty text. |
| InkStationScraper.PriceIsCleaned | scrapers/inkstation_scraper.py:85-97 | Every InkStation price has the shape of a `clean_price` result. |
| ExcelHandler.UniqSpec | utils/excel_handler.py:34 | `unique()` has no repeats and the same members as its input. Its elements appear in order of first appearance. |
| ExcelHandler.DropNulls | utils/excel_handler.py:34 | A value survives `dropna()` exactly when some cell of the column holds it. |
| ExcelHandler.DropNullsCounts | utils/excel_handler.py:34 | `dropna()` keeps every value exactly as many times as the column's cells hold it. |
| ExcelHandler.DropNullsKeepsOrder | utils/excel_handler.py:34 | A value that comes before another after `dropna()` comes before it in the column. |
| ExcelHandler.ReadOemCodes | utils/excel_handler.py:8-37 | A missing file gives FileNotFoundError, checked before parsing. An unreadable file or a missing OEM_CODE column gives ValueError. Otherwise the result holds every non-null code exactly once. |
| ExcelHandler.ReadOemCodesKeepsOrder | utils/excel_handler.py:34 | Of two codes, the earlier one occurs in the column's cells before the later one first occurs. |
| ExcelHandler.SaveResults | utils/excel_handler.py:40-77 | True exactly for a non-empty list whose write succeeded, and then every row is written. An empty list writes nothing. |
| ExcelHandler.Websites | utils/excel_handler.py:101-104 | The Website column holds each row's Website value, and null where the row has none. |
| ExcelHandler.SummaryEntries | utils/excel_handler.py:101-105 | Line i pairs `sites[i]` with the number of rows whose Website equals it. A null site (pandas NaN) gets 0, because NaN never equals itself. |
| ExcelHandler.SummaryTotalCountsRows | utils/excel_handler.py:101-107 | The summary counts plus the rows without a Website add up to the row count. |
| ExcelHandler.SummaryCountsEveryRow | utils/excel_handler.py:101-107 | The summary lists each website once and lists every row's website. Its counts cover every row that has one. |
| ExcelHandler.SaveResultsAgree | utils/excel_handler.py:40-114 | `save_results` and `save_results_with_summary` return the same flag for every input, sharing the empty-input rule of lines 51-53 and 88-90. On success, both write the same rows to the main sheet. |
| ExcelHandler.SaveResultsWithSummary | utils/excel_handler.py:80-114 | An empty list or a failed write gives False. Otherwise all rows are written, and the summary sheet is written exactly when both Website and Price columns exist. |
| Text.Strip | utils/request_utils.py:117 | Strip removes the ASCII characters of `str.isspace()` (space, \t, \n, \x0b, \x0c, \r and \x1c to \x1f), and only those, from both ends, and leaves none of them at either end. |
| Text.StripIdempotent | utils/request_utils.py:137 | Stripping twice is stripping once. |
| Text.ContainsLowerIff | scrapers/selenium_scraper.py:261-263 | `pat in s.lower()` holds exactly when `pat` matches somewhere in `s`, with the characters of `s` lower-cased. |

## Left out

- Network, browser and file I/O are inputs: GET outcomes, page sources, rendered pages, the uploaded file and spreadsheet contents are values passed in. Every `time.sleep` and random delay is left out, except that the retry model records which sleeps happen.
- BeautifulSoup and Selenium DOM queries are abstracted: a page is described by what each `find`/`find_all` call returns (an element, its text, or nothing).
- Text.Lower: models `str.lower()` and the regex `\d` on ASCII only. Unicode case mapping and Unicode digits are not modelled.
- Text.Strip: removes ASCII whitespace only. Unicode whitespace (\x85, \xa0, U+2000 to U+200A, U+3000 and the rest) is not removed, although Python's `strip()` removes it.
- A `None` argument to `clean_price` and `safe_extract_text` with a non-element argument are not modelled. Every caller passes a string or a found element.
- App.Worker: the "N/A" branch for a falsy adapter result and the "Error" branch for a raising adapter are not modelled. The adapters always return a non-empty record and never raise, so both branches are dead.
- App.Worker: the per-code loop is not modelled as a separate method. `Worker` states the result of the whole loop, and the browser lookups are a run on one scraper object.
- `send_email_with_attachment` (SMTP, MIME) is an input that either raises with a message or succeeds.
- The process pool and the background thread are not modelled. `pool.map` is modelled by its order-preserving result. Each worker's copy of `jobs` is a flag saying whether the job id is in it.
- `created_at`, `uuid`, `secure_filename` and temporary paths are left out: the new job id is a parameter and the saved upload path is not modelled.
- The driver setup (headless flag, Chrome options, driver path search) is modelled only as "setup succeeded or raised".
- An exception from `driver.quit()` inside `close` is not modelled.
- pandas' console printing in `save_results` and its output-directory creation are left out.
- `scrapers/__init__.py` only re-exports names and is not part of this model.
- The `/api/health` endpoint and the server start-up block are not part of this model.
