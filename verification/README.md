# rpde-scripts in Dafny

A model of the core of the RPDE ("Realtime Paged Data Exchange") feed scripts.
It covers three pieces:

- `doContinueIterating`, the shared stop predicate (`utils/doContinueIterating.js`). It decides before
  each request whether the walk goes on. It checks three rules in order: the end URL was reached, the
  feed repeated its `next` link, the page cap was hit.
- `walkRpde` (`walkRpde.js`), the walker. It GETs the current URL and writes the page body to
  `rpde-<page>.json`. It then moves `prevNextUrl` to the URL just fetched and `nextUrl` to the page's
  `next`, and repeats while its own copy of the predicate allows it. That copy has no page cap.
- The row-building part of `uploadToDb` (`uploadToDb.js`), the loader. It empties the `rpde_items`
  table and sorts the directory listing with JavaScript's default string order. It skips names not
  matching `/rpde-(\d+)\.json$/` and files whose `items` are missing or empty. Every other item becomes
  a row `(page, kind, state, id, modified, data)`.

Files:

| file | module | contents |
|---|---|---|
| `js_values.dfy` | `JsValues`, `Rpde` | `Option`; `Link` (a URL-valued JS variable: `undefined`, `null` or a string, so `===` is modelled exactly); truthiness; `>=` on possibly-undefined numbers; feed items, pages, the feed as a URL-to-page map, directory files |
| `termination.dfy` | `Termination` | the shared predicate, its stop reasons and their order |
| `file_names.dfy` | `FileNames` | `${page}` printing, `Number` on digit strings, the file-name pattern as a suffix check, the name round trip |
| `walk.dfy` | `Walk` | the walker as a step function, a fuel-bounded run, the loop as a method, and the trace invariant |
| `string_order.dfy` | `StringOrder` | the default `Array.prototype.sort` order on strings, with its order laws |
| `upload.dfy` | `Upload` | sorting, per-file rows, the insertion loop, the loader |
| `harvest.dfy` | `Harvest` | walker and loader composed: what a walk writes, the loader reads back |

The model follows the code:

- The code has no retry or backoff, no resume from disk, no polling, no authentication and no
  `maxPages` in the walker.
- A page without a `next` is not a stop signal. The next iteration GETs `undefined`, which fails.
- A page without `items` is not rejected before it is persisted. `walkRpde.js:35` reads
  `pageJson.items.length` after the file was written and after both links advanced, so the walk throws
  with that page already on disk and `page` not yet incremented (`Walk.Failure.ItemsMissing`).
- The loader also skips names the pattern rejects, not only files whose items are empty.

## Model

| member | source | states |
|---|---|---|
| Termination.StopReasonOf | utils/doContinueIterating.js:13-24 | the reported rule applies, and no rule consulted before it applies; no reason is reported exactly when no rule applies |
| Termination.DoContinueIterating | utils/doContinueIterating.js:12-25 | true exactly when none of the three rules applies; a truthy `endUrl` equal to `nextUrl` stops whatever else holds; `nextUrl === prevNextUrl` stops, including two absent links; both numbers present with `page >= maxPages` stops; with `page` or `maxPages` absent the cap never fires |
| Termination.EmptyEndUrlIsIgnored | utils/doContinueIterating.js:13 | an empty-string `endUrl` is falsy: it never causes a stop and decides as if no `endUrl` were given |
| Termination.ZeroMaxPagesStopsAtOnce | utils/doContinueIterating.js:21-24 | `maxPages = 0` stops before the first page |
| Termination.MissingNextDoesNotStop | utils/doContinueIterating.js:13-25 | an absent `nextUrl` after a fetched URL is not a stop signal; only the page cap can stop it |
| Walk.LocalPredicateAgrees | walkRpde.js:8-18 | the walker's own predicate decides exactly as the shared one called without `maxPages` and `page` |
| Walk.Step | walkRpde.js:29-37 | the loop stops exactly when the predicate is false; the GET fails exactly when the predicate allows a request for a link that is not a URL the feed serves |
| Walk.StartIsRunning | walkRpde.js:26-28 | the initial state (`nextUrl = startUrl`, `prevNextUrl` undefined, page 0, nothing fetched) satisfies the walk invariant |
| Walk.AdvanceKeepsTrace | walkRpde.js:29-34 | a permitted request from a running state extends the trace: the request is for the previous page's `next` (or `startUrl`), and the page it fetched is written unchanged to `rpde-<n>.json` for the next index `n` |
| Walk.StepKeepsRunning | walkRpde.js:29-37 | one iteration from a running state leads to a running state with `page` one higher; or, when the predicate allows the request, a failed GET that leaves the state unchanged; or one more request and write of a page that has no `items`, with `page` unchanged and every earlier page having its `items` |
| Walk.RunIsSound | walkRpde.js:25-39 | every walk from a running state ends in a running state with the predicate false (stopped), in a running state whose predicate allowed a GET that failed, in a running state after as many pages as iterations (out of fuel), or right after writing the first fetched page that has no `items`; a walk that stops or aborts ends with `page` below its start plus `fuel` |
| Walk.WalkLoop | walkRpde.js:29-38 | the imperative loop, with its variables updated in place, has the same outcome as the step-by-step run |
| Walk.WalkRpde | walkRpde.js:25-39 | from `startUrl`, the k-th request is for `startUrl` (k = 0) or the `next` of page k-1, each allowed by the predicate, and page k is written unchanged to `rpde-k.json`; a stopped walk has the predicate false; a failed GET was one the predicate allowed; an abort for missing `items` happens at the first page without them; requests equal writes; both equal `page`, or `page + 1` after an abort for missing `items`; a walk that stops or aborts before its fuel runs out has `page < fuel` |
| Walk.WrittenNamesDistinct | walkRpde.js:28-37 | the k-th write goes to `rpde-k.json`; no two writes share a file name |
| Walk.StartAtEndFetchesNothing | walkRpde.js:29 | when `startUrl` is the (non-empty) `endUrl`, nothing is fetched or written |
| Walk.SelfLinkStops | walkRpde.js:29-37 | right after a page whose `next` is the URL it was fetched from, the walk stops |
| Walk.TwoPageFeed | walkRpde.js:25-39 | feed A → {next: B}, B → {next: B}: exactly `rpde-0.json` (page A) and `rpde-1.json` (page B) are written, then the repeat rule stops the walk |
| FileNames.Decimal | walkRpde.js:31 | `${page}` is a non-empty run of digits without a leading zero (`${0}` is the single digit `0`), which `Number` reads back as `page` |
| FileNames.LeadingZeroIgnored | uploadToDb.js:54 | a leading zero does not change the number the digits are read as |
| FileNames.TrailingDigitsSpec | uploadToDb.js:10 | the digit run the pattern captures is the longest all-digit suffix before `.json` |
| FileNames.ParseFileNameMatchesPattern | uploadToDb.js:49-54 | a name is accepted exactly when it ends with `rpde-`, one or more digits and `.json`; the page is the decimal value of those digits |
| FileNames.MatchIsAccepted | uploadToDb.js:49-54 | every name matching the pattern is accepted, with the value of its captured digits |
| FileNames.AcceptedMatches | uploadToDb.js:49-54 | every accepted name matches the pattern |
| FileNames.FileNameRoundTrip | uploadToDb.js:54 | the name the walker writes for page k is accepted by the loader with page k |
| FileNames.FileNameInjective | walkRpde.js:31 | different page indices get different file names |
| FileNames.PrefixedNameAccepted | uploadToDb.js:10 | the pattern is not anchored at the start: `backup-rpde-3.json` is accepted as page 3 |
| FileNames.LeadingZerosInNameIgnored | uploadToDb.js:54 | `rpde-007.json` is accepted as page 7 |
| FileNames.NameWithoutDigitsSkipped | uploadToDb.js:49-53 | `rpde-.json` is skipped: the digit run must not be empty |
| FileNames.NameWithTrailingExtensionSkipped | uploadToDb.js:49-53 | `rpde-3.json.bak` is skipped: the pattern is anchored at the end |
| FileNames.NameWithLetterSkipped | uploadToDb.js:49-53 | `rpde-3a.json` is skipped |
| StringOrder.LeReflexive | uploadToDb.js:47 | every name is ordered no later than itself |
| StringOrder.LeTotal | uploadToDb.js:47 | any two names are comparable |
| StringOrder.LeTransitive | uploadToDb.js:47 | the name order is transitive |
| StringOrder.LeAntisymmetric | uploadToDb.js:47 | names ordered both ways are equal |
| StringOrder.TenBeforeTwo | uploadToDb.js:47 | `rpde-10.json` sorts strictly before `rpde-2.json` |
| Upload.Insert | uploadToDb.js:47 | inserting a file into a name-sorted listing keeps it sorted and adds exactly that file |
| Upload.SortByName | uploadToDb.js:46-47 | the sorted listing is in ascending name order and is a permutation of the directory |
| Upload.RowsCount | uploadToDb.js:48-77 | the rows of a listing number exactly the items of its accepted files that have `items`: no item is dropped or inserted twice |
| Upload.InsertCount | uploadToDb.js:47 | inserting a file into a sorted listing adds that file's items to the count |
| Upload.SortCount | uploadToDb.js:46-47 | sorting the listing does not change how many items it contributes |
| Upload.FileRowsMembership | uploadToDb.js:49-74 | a row comes from a file exactly when the name carries the row's page and the row's item is among the file's items |
| Upload.RowsMembership | uploadToDb.js:48-77 | a row is inserted exactly when some file of the listing contributes it |
| Upload.RowsSnoc | uploadToDb.js:48-77 | the rows of one more file come after those of the files before it |
| Upload.SortedRowsMembership | uploadToDb.js:46-77 | sorting changes the order of the rows, not which rows there are |
| Upload.InsertFiles | uploadToDb.js:48-77 | the loop appends each file's rows to what the table holds, in listing order |
| Upload.UploadToDb | uploadToDb.js:44-77 | the table ends up as the rows of the files in name order, with nothing left from before the truncate; a row is in the table exactly when some file of the directory contributes it; the table has exactly as many rows as the accepted files have items |
| Upload.TenSortedBeforeTwo | uploadToDb.js:46-47 | the listing `[rpde-2.json, rpde-10.json]` is processed as `[rpde-10.json, rpde-2.json]` |
| Upload.TenLoadedBeforeTwo | uploadToDb.js:46-77 | rows follow string order, not page order: the rows of page 10 are inserted before those of page 2 |
| Harvest.LoadedRowFromFetchedPage | uploadToDb.js:54-74 | every row loaded from a walk's files is an item of the page fetched at the index the row carries |
| Harvest.FetchedItemLoaded | uploadToDb.js:54-74 | every item of every page a walk fetched is loaded from that page's file with that page's index |
| Harvest.FilesCountFetchedItems | uploadToDb.js:58-74 | files with accepted names holding the items of the fetched pages, one file per page, contribute exactly as many items as those pages hold |
| Harvest.LoadedRowCount | uploadToDb.js:48-77 | loading what a walk wrote inserts exactly as many rows as the fetched pages hold items: no item is lost and none is loaded twice |
| Harvest.LoadedRowsMatchFetchedPages | walkRpde.js:28-37 | a row is loaded exactly when its item is on the fetched page whose index the row carries; there are as many rows as the fetched pages hold items |

## Left out

- HTTP: `axios.get` becomes a lookup in a fixed URL-to-page map. A link that is not a string, or a URL
  the map does not hold, is a failed request (`Walk.Failure.FetchFailed`). The feed does not change
  during a walk; HTTP errors, timeouts and response headers are not modelled.
- Walk.WalkRpde: the walk need not terminate (a feed can cycle through distinct URLs), so the model runs
  at most `fuel` iterations. What happens after `fuel` iterations is not modelled; the outcome
  `OutOfFuel` stands for it.
- File I/O: `writeFile`, `readdir`, `readFile`, `path.join` and `__dirname`. Writes become a sequence
  of (file name, page) pairs and the directory a sequence of (name, items) files. A failed write, a
  directory holding files the walker did not write, and the directory path are not modelled.
- `JSON.stringify` and `JSON.parse`: a page body is kept as a value. Malformed JSON, `items` that is not
  an array, items lacking fields (which Postgres stores as NULL) and fields other than `next` and
  `items` are not modelled. A `null` and a missing `items` are one case (`None`); both give no rows.
- `data` is an opaque string (`Rpde.Json`); `pg-format` escaping and JSONB conversion are not modelled.
- Postgres: the connection pool, CREATE TABLE and CREATE INDEX (uploadToDb.js:20-43), the
  `internal_id` serial column, failed queries and `pgPool.end()`. The table is a sequence of rows and
  TRUNCATE is the empty sequence. Column widths are not modelled: an `INTEGER` page above 2^31-1 or a
  `modified` outside `BIGINT` would be a database error.
- Termination.DoContinueIterating: only integer `page` and `maxPages` are modelled, or their absence; a JS number that is NaN, infinite or fractional (`page >= 2.5`) is not. No caller in the code passes either.
- FileNames.ParseFileNameMatchesPattern: `Number()` on a long digit run loses precision above 2^53;
  the model reads the digits as an exact natural number.
- Walk.WalkRpde: the JavaScript `page` counter is a double; the model uses an unbounded natural.
- StringOrder.Le: JavaScript compares UTF-16 code units; the model compares characters. The two orders
  differ only for names with characters outside the Basic Multilingual Plane.
- Console logging and the `require.main` entry points (walkRpde.js:41-48, uploadToDb.js:84-92).
- perfTestRpde.js, a timing variant of the walk loop that does not persist pages. Its timing
  statistics use floating point.
- The code has no retry with backoff, no resume from disk, no live-tail polling, no authentication and
  no page cap in the walker.
