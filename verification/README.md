# Trivia-game archive scraper and read API: a Dafny model

This project models the pure logic inside a scraper that collects historical
trivia-game pages from a public archive, and inside the small HTTP API that
serves the resulting JSON file. The four modelled pieces are:

- **Page extraction** (`scrapeGame` in `webscraper.py`). It handles the
  "no such game" error marker and the sentinel texts for missing elements.
  It scans the 6 × 5 clue grid of each round in row-major order and splits
  the page's correct responses by position into round one, round two and
  the final response.
- **The retry loop** of `scrapeGame`. It makes at most `retries` attempts
  and sleeps `2 ** attempt` after every failed attempt but the last. After
  the last failure it returns `{game_id, error: 'Failed after multiple retries'}`.
- **Result ordering** in `update_json_file`. This is `sort_key` plus
  `sorted(..., reverse=True)`, a stable sort on the key
  `(date, 0)` / `(datetime.min, game_id)`, newest first.
- **The read API's query logic** in `app.py`. It covers pagination
  arithmetic, first-match lookup by id, and the `game_date` prefix filter.

Modules follow the program: `GameParser` (extraction), `Fetcher` (retry loop
and batch), `Aggregator` (sort), `ReadApi` (`app.py`). The modules `Games`
(the result record), `Dates` (`datetime` values and `isoformat`), `Strings`
(`str(int)`, zero padding, `split`, `startswith`) and `Wrappers` (`Option`)
support them.

Modelling choices:

- The HTML document is a `Page`. It holds a map from element id to stripped
  text (an id that is not a key is an absent element), the category names,
  category comments and correct responses in document order, and a flag for
  the error marker. A BeautifulSoup tag is always truthy, so "present" means
  "found".
- `datetime.strptime` is a library call. It appears as two function
  parameters: `parseLongDate` for `'%B %d, %Y'` on titles, and
  `parseIsoDate` for `'%Y-%m-%d'` in `sort_key`. Both return
  `Option<Date>`. `split("day, ")[-1]`, `split("T")[0]` and `isoformat()`
  are modelled concretely.
- The network is a sequence of per-attempt outcomes (`Fetched(page)` or
  `ClientError`). Sleeps are recorded in the run, not performed.
- The source scans both rounds in one interleaved loop. The two rounds write
  to disjoint lists, so each round is modelled as its own scan.
- Behaviour of the code that is easy to misread:
  - The final response is the **last** surplus response, because each later
    one overwrites the earlier ones (webscraper.py:82-83).
  - The grid loop is `y` (row) outer and `x` (column) inner.
  - With `retries <= 0` the loop body never runs, so `scrapeGame` returns
    `None`. `Run.result` is therefore an `Option`.
  - The semaphore is held for the whole body, including sleeps and parsing
    (webscraper.py:30). Concurrency is not modelled either way.

## Model

| member | source | states |
|---|---|---|
| `Strings.PieceStart` | webscraper.py:21 | Python's left-to-right separator scan ends at a position with no separator at or after it, which is either 0 or right after a separator |
| `Strings.LastPiece` | webscraper.py:21 | `split(sep)[-1]` is a suffix with no separator starting inside it; it is the whole string when there is no separator, and otherwise directly follows one |
| `Strings.FirstPiece` | webscraper.py:128 | `split("T")[0]` is a prefix free of `T` that is the whole string or is followed by `T` |
| `Strings.FirstPieceOfSeparated` | webscraper.py:128 | a `T`-free head is recovered intact whatever follows the first `T` |
| `Dates.IsoDatePart` | webscraper.py:128 | reading `isoformat().split("T")[0]` gives exactly the `YYYY-MM-DD` text of the date, which is also a prefix of the stored string |
| `Dates.MinDateIsEarliest` | webscraper.py:131 | `datetime.min` is not after any valid date |
| `GameParser.PresentPositions` | webscraper.py:60-63 | the scanned positions whose element the page has: strictly increasing, each one present, and no present one missing |
| `GameParser.ScanRound` | webscraper.py:60-70 | cells and clues grow together, so a round always has as many cells as clues, and at most one per scanned position |
| `GameParser.ScanFollowsPresentPositions` | webscraper.py:60-70 | entry `i` of the cells and entry `i` of the clues both come from the `i`-th present position: its label and its element's text |
| `GameParser.ScanLabelIffPresent` | webscraper.py:62-65 | when labels are distinct, a position's label is collected if and only if its element is present |
| `GameParser.ScanCellsDistinct` | webscraper.py:60-65 | when labels are distinct, no label is collected twice |
| `GameParser.GridLabelsDistinct` | webscraper.py:60-65 | the 30 positions of a round carry 30 different labels |
| `GameParser.ScanGrid` | webscraper.py:60-70 | the 6 × 5 scan of a round collects as many cells as clues, at most 30; `ScanGridPositions` pins down each entry |
| `GameParser.ScanGridPositions` | webscraper.py:60-70 | the full scan of a round pairs each collected cell with the label and clue text of a present grid position, in scan order |
| `GameParser.CellLabelInjective` | webscraper.py:65-70 | two cell labels are equal only for the same round, column and row |
| `GameParser.RoundCellsMatchClues` | webscraper.py:62-70 | a round has as many cells as clues, at most 30, and `cells[i]` labels a present element whose text is `clues[i]` |
| `GameParser.CellIncludedIffPresent` | webscraper.py:62-65 | a cell's label is collected if and only if the page has its clue element |
| `GameParser.RoundCellsDistinct` | webscraper.py:60-70 | a round has at most 30 cells and no label twice |
| `GameParser.RoundCellsInScanOrder` | webscraper.py:60-61 | cells appear row by row, left to right within a row |
| `GameParser.Redistribute` | webscraper.py:75-83 | round one gets the first `min(n, J)` responses and round two the next ones up to `min(n, J + DJ)`; the final response is the last surplus response, or the sentinel when there is none |
| `GameParser.RoundResponsesBounded` | webscraper.py:77-81 | round one gets `min(n, J)` responses and round two gets `min(max(n - J, 0), DJ)`; neither gets more than its clue count |
| `GameParser.RoundResponsesArePrefix` | webscraper.py:76-81 | the two rounds' responses joined are the first `min(n, J + DJ)` responses in order |
| `GameParser.FewerResponsesThanClues` | webscraper.py:77-79 | with 30 first-round clues and 28 responses, round one holds all 28, round two none, and the final response stays the sentinel |
| `GameParser.ExtractDateFromTitle` | webscraper.py:19-26 | the parsed text is a suffix of the title that contains no `"day, "` and is either the whole title or directly follows a `"day, "` |
| `GameParser.DaySeparatorDoesNotOverlap` | webscraper.py:21 | two occurrences of `"day, "` in a title are at least five characters apart |
| `GameParser.LastPieceAfterFinalSeparator` | webscraper.py:21 | when `k` is the last `"day, "`, the date text is everything after it |
| `GameParser.DateTextFollowsLastDaySeparator` | webscraper.py:19-23 | for a title `prefix + "day, " + rest` with no later `"day, "`, the parsed text is `rest`; a title without `"day, "` is parsed whole |
| `GameParser.ParseGame` | webscraper.py:37-107 | the result is an error exactly when the page has the marker, and then carries only the id and `No game {id} in database`; otherwise the title, comments and final clue are the elements' texts when present and the sentinels when absent, the date is the title date's `isoformat()` or `None`, each round's cells and clues are that round's grid scan, and the responses are split by position over the two rounds' clue counts |
| `Games.NoGameMessage` | webscraper.py:40 | the message reads `No game `, the identifier, then ` in database` |
| `Games.NoGameMessageInjective` | webscraper.py:40 | different identifiers give different messages |
| `Strings.IntToDecimalInjective` | webscraper.py:40 | `str(n)` of different integers differ, for either sign |
| `Games.MissingIdMessage` | webscraper.py:40 | the message for identifier 9999999 is `No game 9999999 in database` |
| `GameParser.MissingGameScenario` | webscraper.py:37-40 | identifier 9999999 with the error marker gives `{game_id: 9999999, error: 'No game 9999999 in database'}` |
| `Fetcher.RetryFrom` | webscraper.py:31-114 | attempts are bounded by the iterations left; every attempt but the last failed; the `k`-th sleep is `2^k`; the run ends with the parsed first fetched page or, on the last iteration, with the failure record |
| `Fetcher.ScrapeGame` | webscraper.py:28-31 | no attempt and no result when `retries <= 0`; otherwise a result carrying the requested id after at most `retries` attempts |
| `Fetcher.AllAttemptsFail` | webscraper.py:109-114 | after `retries` client errors: exactly `retries` attempts, sleeps `1, 2, 4, ...` between them, and the `Failed after multiple retries` record |
| `Fetcher.FirstFetchEndsLoop` | webscraper.py:31-40 | the first fetched page ends the loop after `k + 1` attempts and `k` sleeps, and its parse is the result |
| `Fetcher.DefaultBackoffSchedule` | webscraper.py:111-112 | with the default three attempts all failing, the sleeps are exactly 1 then 2 |
| `Fetcher.DoublingDelaysTotal` | webscraper.py:112 | delays `1, 2, ..., 2^(m-1)` add up to `2^m - 1` |
| `Fetcher.TotalBackoff` | webscraper.py:109-114 | a run of `n` attempts sleeps `2^(n-1) - 1` in total |
| `Fetcher.ScrapeGames` | webscraper.py:117-122 | one result per identifier, in identifier order, each the outcome of that identifier's own `scrapeGame` call and carrying its id |
| `Aggregator.ParsedDate` | webscraper.py:124-129 | an error record, a null date and an empty date give no date; otherwise the result is the ISO parse of the stored date's text before its first `T` |
| `Aggregator.KeyOf` | webscraper.py:124-131 | error, null-dated and empty-dated entries get `(datetime.min, game_id)`; an entry stored as `isoformat()` of `d` gets `(d, 0)` when its text parses back to `d` and falls back to `(datetime.min, game_id)` when the parse fails; a non-zero tie only occurs with `datetime.min` |
| `Aggregator.KeyBelowIsStrictTotalOrder` | webscraper.py:165 | comparing `(date, tie)` keys as Python compares tuples is a strict total order |
| `Aggregator.Insert` | webscraper.py:165 | insertion adds exactly one entry and keeps a non-increasing key order |
| `Aggregator.SortDescending` | webscraper.py:165 | the sorted list is a permutation of the input with keys never increasing |
| `Aggregator.InsertKeepsKeyOrder` | webscraper.py:165 | the inserted entry goes ahead of every entry with an equal key, and other keys' entries keep their order |
| `Aggregator.SortIsStable` | webscraper.py:165 | for every key, the entries carrying it appear in their input order |
| `Aggregator.DatedEntriesNewestFirst` | webscraper.py:124-128 | entries whose date parses appear in non-increasing date order |
| `Aggregator.DatedEntriesBeforeUndated` | webscraper.py:124-131 | no undated or error entry comes before a dated one, unless that date is `datetime.min` |
| `Aggregator.UndatedEntriesByIdDescending` | webscraper.py:131 | undated and error entries come in non-increasing `game_id` order |
| `Aggregator.ScrapedRecordKey` | webscraper.py:124-131 | a scraped record sorts under its title date `(d, 0)` when the ISO parse reads `YYYY-MM-DD` back, and under `(datetime.min, game_id)` when the title gave no date |
| `Aggregator.SortKeepsIdentifiers` | webscraper.py:164-165 | sorting the gathered results keeps their number and exactly the requested identifiers |
| `Aggregator.UpdateJsonFile` | webscraper.py:162-165 | the output is a permutation of the scraped results, sorted newest first, with entries of equal key in their gathered order; it has one entry per request, an entry for every requested id and no other id |
| `ReadApi.Slice` | app.py:50 | `s[start:end]` with non-negative bounds is `s[start..min(end, len)]`, or empty when `start` is past the end |
| `ReadApi.GetAllGames` | app.py:46-58 | a failed load gives 500 and `size == 0` raises; otherwise `total_games` is the full length, `total_pages` is the ceiling of `total / size`, and the page is `data[(page-1)*size .. min(page*size, total)]`, empty past the end, at most `size` long |
| `ReadApi.CeilingDivision` | app.py:56 | `(n + size - 1) // size` pages of `size` hold `n` items and one page fewer does not |
| `ReadApi.PageGames` | app.py:46-50 | page `page` is the slice from `(page - 1) * size` to `min(page * size, n)`, empty past the end and at most `size` long |
| `ReadApi.PagesUpToArePrefix` | app.py:46-50 | pages `1..m` joined are the first `min(m * size, n)` entries |
| `ReadApi.PagesCoverDataset` | app.py:46-56 | pages `1..total_pages` joined reproduce the stored list exactly |
| `ReadApi.FirstMatch` | app.py:68-70 | the loop stops at the first non-error entry with the id, and no earlier entry matches; with no stop, nothing matches |
| `ReadApi.GetGameById` | app.py:68-71 | the answer is the first non-error entry with the id, or 404 `Game {id} not found` exactly when none exists |
| `ReadApi.FilterByDatePrefix` | app.py:79 | the comprehension keeps only entries whose date starts with the query, never more entries than it reads, and every entry when all of them match |
| `ReadApi.FilterSelectsMatching` | app.py:79 | each entry whose date starts with the query is kept as often as it occurs; no other entry is kept |
| `ReadApi.FilterKeepsOrder` | app.py:79 | the filter distributes over concatenation, so the original order is kept |
| `ReadApi.ErrorEntriesMatchOnlyEmptyQuery` | app.py:79 | an error entry's date defaults to `""`, so it matches only the empty query |
| `ReadApi.GetGamesByDate` | app.py:79-84 | a failed load gives 500; `AttributeError` is raised exactly when some stored date is null; otherwise the answer is 200 with the filter result when it is non-empty and 404 `No games found for date {query}` when it is empty |
| `ReadApi.GetGamesByDateSkippingNull` | app.py:79-84 | the corrected query never raises; it answers 200 exactly when some entry matches, with the matching entries in their stored order, and otherwise 404 `No games found for date {query}` |
| `ReadApi.NullDateBreaksDateQuery` | app.py:79 | one matching dated record next to one null-dated record: the handler as written raises, the corrected one returns the dated record |

## Left out

- Networking and concurrency: the `aiohttp` session and `fetch`, the semaphore of 10, and `asyncio.gather` (webscraper.py:15-17, 30, 117-122). `Fetcher.ScrapeGames` keeps only the result list, in identifier order.
- Exceptions other than `aiohttp.ClientError`. They escape the retry loop and abort the gather.
- HTML parsing with BeautifulSoup (`find`, `findAll`, `get_text(strip=True)`). It is replaced by the `Page` abstraction. The id map holds the elements found by id (`game_title`, `game_comments`, `clue_J_x_y`, `clue_DJ_x_y`, `clue_FJ`). The elements found by class become the rest of `Page`: `p.error` is the `hasErrorMarker` flag, `td.category_name` and `td.category_comments` are the two category lists, and `em.correct_response` is `correctResponses`. Tag names are not modelled.
- `datetime.strptime` in both formats. It is represented by the function parameters described above, so its own leniency and errors are not modelled.
- Storage and process plumbing: S3 upload and download (the duplicated `upload_to_s3`, whose second definition wins), JSON dump and load, files, logging, `print`, environment variables, the `__main__` blocks, Flask routing and request-argument parsing (defaults `page=1`, `size=10`).
- `ReadApi.GetAllGames`: requires `page >= 1` and `size >= 0`, because Python's negative-index slicing for `page <= 0` or `size < 0` is not modelled.
- `Fetcher.RetryFrom`: requires at least `retries` outcomes. The environment gives one outcome per attempt; it does not model running out of them.

## Findings

| source | as written | input that shows it | evidently intended | confidence | as-written member | corrected member |
|---|---|---|---|---|---|---|
| app.py:79 | `game.get('game_date', '').startswith(game_date)` calls `.startswith` on `None` for any record stored with a null date. The scraper writes such a record for every title whose date does not parse (webscraper.py:89). One such record makes every date query fail with `AttributeError`. | a stored list with a record dated `2020-01-02T00:00:00` and a record with a null date, queried with `2020` | a record with a null date does not match, and the dated record is returned | medium; not executed | `ReadApi.GetGamesByDate`, `ReadApi.NullDateBreaksDateQuery` | `ReadApi.GetGamesByDateSkippingNull` |
