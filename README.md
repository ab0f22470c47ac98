# frilanse, modelled in Dafny

frilanse is a small aggregator of Danish freelance job postings. Goroutines
poll job boards and feeds, and their jobs go down a channel into one in-memory
list. An HTTP handler renders that list newest first, each job with its
site's favicon. This project models the sequential core under that plumbing
and proves what it promises:

- **The job registry** (`registry.dfy`). The global `jobs` slice is a class
  over a sequence. Receiving appends, with no check for a duplicate link.
  `removeJob` splices out the first job whose link string matches.
- **One tick of each scraper** (`dedup.dfy`, `sources.dfy`). This covers the
  callbacks of Ahoc, RightPeople, SCR and Flexer:
  - Each callback keeps a `seen` map of hrefs and, except Flexer, a
    `firstRun` flag.
  - A tick walks the candidates of one fetched page in order. Each candidate
    is skipped, marked seen and sent, or makes the tick fail.
  - One generic fold (`Dedup.ScanSpec`) and its loop (`Dedup.RunScan`) carry
    each adapter's per-candidate decision.
  - The decisions keep the source's orderings:
    - SCR marks an href before resolving it.
    - RightPeople marks before parsing the title's date.
    - Ahoc and Flexer mark only after every check passed.
    - Flexer reads the date before its seen check.
    - `firstRun` is cleared only when the callback reaches its end.
  - Classes hold the captured state across ticks, with a ghost history of
    every key sent. This gives "at most once over the adapter's lifetime".
- **The RSS reader's dedup loop** (`feed.dfy`). This is NewFeedReader's
  `seen` map keyed by `<guid>`.
- **Dates and the validity checks** (`calendar.dfy`, `validity.dfy`):
  - Go's `time.Parse` for the three layouts the core uses: "02-01-2006",
    "2-1-2006" and "2006-01-02".
  - The instant of a parsed day.
  - The field-by-field deadline comparisons of AminoIsValid and FlexerIsValid,
    over the page texts their selectors pick out.
- **The watchdogs** (`watchdog.dfy`). The first check decides whether a job is
  ever sent. The hourly re-check loop decides after which re-check the job is
  removed.
- **The index page** (`web.dfy`):
  - The copy of the registry, sorted in reverse `Date.Before` order by
    sort.Sort's insertion sort over an array.
  - The favicon chain, with its regular expressions written out as string
    predicates. The `.` in `ahoc.dk`, `rightpeople.dk` and `scr.dk` matches
    any character but a newline.
  - The `<li>` opening tag.

Time is an integer number of seconds since Go's zero time, 0001-01-01 00:00:00
UTC. So the zero `time.Time` is 0, and a parsed date is midnight UTC of its
day. `time.Now()` is a parameter. These are parameters too:
- URL resolution (`url.Parse`, `ref.Parse`), as opaque functions that may
  fail.
- HTML and XML extraction, as the lists of texts they produce.

Three behaviours of the code that are easy to misread, each proved in the model:
- An unparsable date does not skip one candidate: it ends the whole tick.
  A bad date in Flexer's task list (frilanse.go:268-270) or in a RightPeople
  title (frilanse.go:213-215) returns an error from the callback. See
  `Sources.FlexerBadDateBlocksLaterRows` and
  `Sources.RightPeopleBadTitleDateLost`.
- Ahoc, RightPeople and Flexer mark an href seen only after resolving it; SCR
  marks it first (frilanse.go:421-432), so an SCR href that fails to resolve is
  never tried again.
- Receiving never rejects a duplicate link (frilanse.go:38-40), so the
  registry and its sorted view can hold one. `Registry.RemoveAfterReceive`
  shows what removal then does.

## Model

| member | source | states |
|---|---|---|
| Registry.JobRegistry.Receive | frilanse.go:38-40 | Receiving a job appends it at the end; earlier entries are unchanged and a duplicate link is not rejected |
| Registry.JobRegistry.Consume | frilanse.go:38-47 | The receive loop leaves the registry as the old list followed by the arrivals in arrival order |
| Registry.JobRegistry.RemoveJob | frilanse.go:50-61 | The in-place scan-and-splice leaves exactly RemoveFirst of the old list for the job's link string |
| Registry.FirstWithLink | frilanse.go:56-57 | The found position holds the link and no earlier position does; None means no job has the link |
| Registry.RemoveAbsent | frilanse.go:56-61 | Removing a link no job carries leaves the registry unchanged |
| Registry.RemovePresent | frilanse.go:56-61 | Removing a present link shrinks the list by exactly one, deleting the first job with that link and keeping all others in order |
| Registry.RemoveFirstMultiset | frilanse.go:58 | Removal only takes jobs away, and at most one |
| Registry.RemoveAfterReceive | frilanse.go:38-40 | Removing a just-received job's link deletes that job when no earlier job shares the link; otherwise the earlier job goes and the new one stays last |
| Dedup.RunScan | frilanse.go:187-223 | The per-candidate loop with early return on error computes exactly the fold ScanSpec |
| Dedup.StopsAtFailure | frilanse.go:198-199 | Once a candidate has returned an error, no later candidate is looked at |
| Dedup.ScanFresh | frilanse.go:355-362 | A tick whose decisions check seen sends distinct keys, none seen before; seen grows by exactly those keys and a failure's marked key, which was neither seen nor sent |
| Dedup.BlockedAt | frilanse.go:264-270 | A candidate that errors whatever seen holds ends the tick: only what came before it is sent |
| Dedup.ScanEmitsFrom | frilanse.go:201-221 | Every value a tick sends, with the key it is sent under, is what an emitting decision gives for one of the tick's own candidates |
| Dedup.ScanFailureFrom | frilanse.go:198-199 | A failed tick failed on one of its own candidates, with the mark that candidate's decision put in seen |
| Dedup.ScanCovers | frilanse.go:186-224 | A tick that returns nil has looked at every candidate: each candidate's key is in seen afterwards |
| Dedup.HistoryStaysDistinct | frilanse.go:421-425 | Appending a tick's fresh keys to the lifetime history keeps it free of repeats and inside seen |
| Sources.AhocVisit | frilanse.go:355-369 | A seen href is skipped; a new one that fails to resolve ends the tick without being marked; otherwise it is sent under its own href as a job with the link's text, the resolved URL and the first-run date |
| Sources.AhocSendsOnce | frilanse.go:346-373 | An Ahoc tick sends each href at most once and none seen before, each as the job one of the page's links gives, dated zero on the first run and now afterwards; seen grows by exactly the sent hrefs; a failure is a link that did not resolve and marks nothing; a tick returning nil has every link's href in seen |
| Sources.RightPeopleVisit | frilanse.go:194-221 | Links without the article prefix and seen hrefs are skipped; a new href that does not parse ends the tick unmarked; one whose title date does not parse ends it marked; otherwise it is sent under its href, dated by its title's day or the first-run rule |
| Sources.RightPeopleSendsOnce | frilanse.go:186-224 | A RightPeople tick sends each href once and none seen before; seen grows by the sent hrefs and the failure's mark; a failure is an article link whose href does not parse (nothing marked) or whose title date does not (its href marked); a tick returning nil has every article link's href in seen |
| Sources.RightPeopleJobsFromLinks | frilanse.go:194-219 | Each job sent comes from one article link on the page: sent under its href, titled by its text, linked to its parsed href, and dated by the midnight of the day its title names or else zero on the first run and now afterwards |
| Sources.RightPeopleBadTitleDateLost | frilanse.go:196-215 | A new article link, reached without an earlier error, whose title date does not parse as "2-1-2006" ends the tick with its href marked seen and not sent; only the links before it are sent |
| Sources.ScrVisit | frilanse.go:421-439 | A seen href is skipped; a new one is marked before it is resolved, so a failed resolution ends the tick with that href marked; otherwise it is sent under its href with the first-run date |
| Sources.ScrSendsOnce | frilanse.go:415-442 | An SCR tick sends each href once and none seen before, each as the job one match gives; a failure is a match whose href did not resolve, and that href stays in seen, unsent, for good; a tick returning nil has every match's href in seen |
| Sources.FlexerDateAsWritten | frilanse.go:264-272 | "I dag" is now, the literal as written one day earlier, and any other text exactly when it parses as "02-01-2006", giving that day's midnight |
| Sources.FlexerVisit | frilanse.go:239-299 | A row fails the tick exactly when its anchor, the anchor's resolution, its date cell or its date cannot be read, whether or not its href was seen, and marks nothing; a readable row with a seen href is skipped, a new one handed on as its job |
| Sources.FlexerHandsOnce | frilanse.go:238-302 | A Flexer tick hands each href to a watchdog at most once, none seen before, each as the job one readable row gives; it marks nothing it does not hand on; a failure is an unreadable row; a tick returning nil has every row's href in seen |
| Sources.FlexerBadDateBlocksLaterRows | frilanse.go:264-270 | A task row whose date text is neither a known word nor "02-01-2006" fails every tick at that row, before the seen check, so later rows are never handed on |
| Sources.FlexerYesterdayBlocksTick | frilanse.go:264-270 | As written, a task row dated "I går" fails every tick at that row, so neither it nor any row after it is ever handed on |
| Sources.FlexerDateMeaning | frilanse.go:264-272 | "I dag" dates a job now, "I går" one day earlier, and a DD-MM-YYYY text the midnight of that day |
| Sources.FlexerYesterdayAsWrittenFails | frilanse.go:266 | With the literal as written, the text "I går" is not recognised and fails to parse |
| Sources.DatedSource.AhocTick | frilanse.go:345-374 | One Ahoc callback: sends the fold's jobs, updates seen, extends the history, and clears firstRun exactly when it returns nil |
| Sources.DatedSource.RightPeopleTick | frilanse.go:186-226 | One RightPeople callback, with the same state update; a failed title-date parse adds the href to the lost keys |
| Sources.DatedSource.ScrTick | frilanse.go:409-445 | One SCR callback; a body-read failure changes nothing, otherwise the fold's result, lost keys included |
| Sources.DatedSource.Finish | frilanse.go:224 | firstRun becomes false only when the tick ended without error; the no-repeat and lost-never-sent invariant is kept |
| Sources.FlexerSource.Tick | frilanse.go:241-303 | One Flexer callback with the date rule as written: hands on the fold's jobs, updates seen, and keeps the no-repeat invariant on its history |
| Feed.FeedVisit | rss.go:42-46 | An item never fails the loop: a seen guid is skipped and an unseen one sends the item under its guid |
| Feed.FeedScanIsFirstUnseen | rss.go:41-47 | A tick sends exactly the document's items whose guid was neither seen before nor used by an earlier item, in document order; every guid of the document ends up in seen |
| Feed.FirstUnseenDistinct | rss.go:42-46 | Within one document no guid is sent twice, and nothing seen before the tick is sent |
| Feed.FeedReader.Tick | rss.go:33-49 | A read or unmarshal failure sends nothing and leaves seen alone; otherwise the items sent are exactly the first unseen ones and seen gains the document's guids; the history keeps its old entries and gains exactly the sent guids, so no guid is sent twice over the reader's life and at most one guid-less item is ever sent |
| Calendar.ParseDayMonthYear | frilanse.go:169 | time.Parse with "02-01-2006" or "2-1-2006" yields only existing calendar days |
| Calendar.ParseYearMonthDay | frilanse.go:330 | time.Parse with "2006-01-02" yields only existing calendar days |
| Calendar.DayMonthYearRoundTrip | frilanse.go:268 | Every day of years 0 to 9999 reads back from its DD-MM-YYYY text, under both the padded and unpadded layouts |
| Calendar.YearMonthDayRoundTrip | frilanse.go:330 | Every day of years 0 to 9999 reads back from its YYYY-MM-DD text |
| Calendar.OnOrAfterIsNotBefore | frilanse.go:169 | Flexer's "on or after today" test is the exact complement of Amino's "before today" test |
| Calendar.DateBeforeIsChronological | frilanse.go:169 | On real dates, Amino's field-by-field test holds exactly when the day's midnight is earlier than today's |
| Validity.AminoIsValid | frilanse.go:148-179 | Only an unreachable page is an error; valid exactly when the job is not marked gone, there are three detail paragraphs and the third parses as a day on or after today |
| Validity.FlexerIsValid | frilanse.go:306-338 | Unless the page says the job does not exist: valid exactly when the first deadline row that parses-and-is-current or fails to parse is current; an error exactly when that row fails to parse or the page is unreachable |
| Validity.DeadlineTestsAreChronological | frilanse.go:332 | On real dates, both deadline tests are the chronological order of the days' midnights |
| Watchdog.FirstInvalidating | frilanse.go:133-138 | The re-check that ends the loop is an error-free "not valid" and every earlier one was not |
| Watchdog.Recheck | frilanse.go:288-293 | The hourly loop stops at exactly the first error-free "not valid" re-check |
| Watchdog.LaterChecksIgnored | frilanse.go:136-137 | After the loop breaks, later re-check results make no difference |
| Watchdog.ErrorsNeverRemove | frilanse.go:290-291 | Re-checks that all return errors never remove the job |
| Watchdog.AminoWatch | frilanse.go:125-142 | An Amino job is listed exactly when the first check returns no error and valid, and is then removed after the first invalidating re-check |
| Watchdog.FlexerWatch | frilanse.go:280-298 | A Flexer job is dropped exactly when the first check returns no error and not valid, and a listed one is removed after the first invalidating re-check |
| Watchdog.FirstCheckPolicies | frilanse.go:128-130 | An error on the first check drops an Amino job but lists a Flexer job; otherwise both list exactly the jobs found valid |
| Watchdog.RemovedOnlyWhenInvalid | frilanse.go:283-295 | A listed job is removed only after an error-free "not valid" re-check, with every earlier re-check keeping it |
| Watchdog.Watch | frilanse.go:128-142 | A watched job is appended when admitted and, after the invalidating re-check, removeJob leaves the registry as it was when no earlier job shared its link |
| Web.SortNewestFirst | web.go:20-22 | Insertion sort with the reversed Less leaves the array a permutation of its old contents in which no date is before a later one |
| Web.InsertNewest | web.go:21-22 | One insertion round extends the newest-first prefix by one element, leaves the elements after it in place, and keeps the array a permutation |
| Web.Swap | web.go:22 | Swap exchanges exactly the two positions and keeps the multiset of jobs |
| Web.SortedView | web.go:32-35 | The view is a permutation of the registry's jobs with no date before a later one; the registry itself is not touched |
| Web.ZeroDatesLast | web.go:21 | In the sorted view, once a zero-dated job appears only jobs not later than zero time follow |
| Web.HostRun | web.go:46 | The leading run of non-`/` characters ends at the end of the text or at a `/` |
| Web.AfterScheme | web.go:40 | The text after `http://` or `https://`, and None for a link with neither |
| Web.SiteAfterHostRunMeaning | web.go:40-44 | The backtracking match holds exactly when some `/`-free run is followed by the site name, a non-newline character and "dk/" |
| Web.OriginMeaning | web.go:46 | FindString gives the scheme plus the whole host up to the next `/`; no match exactly when no http(s) scheme or no non-`/` character after it |
| Web.SiteMatchHasOrigin | web.go:42-46 | A link matching a site pattern always has an origin |
| Web.Favicon | web.go:39-48 | A link on ahoc.dk never gets a favicon; any favicon is one of the two fixed icons or "/favicon.ico" under the link's origin |
| Web.FaviconChoice | web.go:39-48 | ahoc gets no favicon before anything else; then rightpeople's, then scr's fixed icon; otherwise origin plus "/favicon.ico"; empty exactly when ahoc matches or there is no origin |
| Web.ItemOpening | web.go:50-54 | A list item carries the background style exactly when the favicon is non-empty, and the style names that favicon |

## Left out

- Polling (WithGet, WithDoc, `time.Sleep`, tickers, the throttle) is an infinite loop of network I/O. One tick is modelled; the watchdog's sleeps are modelled as a sequence of check results.
- HTML parsing, CSS selectors, charset detection and `xml.Unmarshal` are foreign libraries. Their results are inputs.
- The extraction regular expressions: SCR's NewsItem pattern (frilanse.go:407, 415) and RightPeople's title date (frilanse.go:212). They run on Go's regexp engine, so the captured text is an input. SCR's check that a match has three groups (frilanse.go:416-418) can never fail for that pattern, so it is not modelled.
- `url.Parse` and `ref.Parse` (section 5.2 of RFC 3986) are modelled as an opaque function that may fail. A job's link is the string it yields.
- Amino and KonsulenterDK turn feed items into jobs with RFC 3339 and RFC 1123 parsing and skip bad items with `continue`. Only the first check and the watchdog of Amino are in the model.
- Goroutines, channels and `jobsMu` are concurrency. So is the unguarded read of `jobs` in indexHandler. Each registry method is one critical section, and `Watchdog.Watch` covers the case where nothing else touches the registry meanwhile.
- The "NEW" log line in Start only logs. The HTML text (apart from the list item's opening tag), AnalyticsCode, serveHTTP and frilansed/main.go are presentation and process wiring.
- Sources.FlexerDateAsWritten, Sources.FlexerDate: "yesterday" is `time.Now().AddDate(0, 0, -1)` in local time. The model subtracts 86400 seconds, which differs across a daylight-saving change.
- Sources.Dated, Sources.AhocSendsOnce, Sources.ScrSendsOnce, Sources.RightPeopleJobsFromLinks, Sources.DatedSource.AhocTick, Sources.DatedSource.ScrTick, Sources.FlexerDateAsWritten: one clock reading `now` per tick stands in for the source's one `time.Now()` per job (frilanse.go:207, 265, 267, 366, 436). Each of those readings follows the blocking send of the previous job on the unbuffered channel (frilanse.go:23). So in the source the later jobs of a tick carry later or equal times and sort ahead of earlier ones on the index page; the model gives every job of a tick the same time. `Instant` also counts whole seconds, where `Date.Before` compares nanoseconds, so jobs whose times differ by less than a second are tied in the model.
- Calendar.ParseDayMonthYear, Calendar.ParseYearMonthDay: time.Parse's error texts are not modelled. A parse that fails is None.
- Calendar.Midnight: a parsed date is midnight UTC, as time.Parse returns it. The comparisons against `time.Now()` use the local calendar date, which the model takes as the `today` parameter.
- Web.SortNewestFirst: Go's sort.Sort uses insertion sort only for short slices; longer slices go through other algorithms. Every one of them yields a sorted permutation, which is all the model states. No order among equal dates is promised, as sort.Sort is not stable.
- Web.ZeroDatesLast: time.Parse accepts year 0000, which lies before Go's zero time. So zero-dated jobs come last only among jobs dated at or after the zero time.
- Nil-pointer panics in the source are not modelled; the model's inputs always have the texts. They come from `a.FirstChild.Data` on a link without a child node in RightPeople (frilanse.go:210, 212) and Ahoc (frilanse.go:369), from `ps[2].FirstChild.Data` in AminoIsValid (frilanse.go:169), and from the sibling chains of a listing row with too few cells in FlexerIsValid (frilanse.go:325, 330).

## Findings

The Flexer tick is modelled with the rule as written (`Sources.FlexerDateAsWritten`); `Sources.FlexerDate` is the rule with the intended literal.

| source | as written | input that shows it | evidently intended | confidence | as-written member | corrected member |
|---|---|---|---|---|---|---|
| frilanse.go:266 | The "yesterday" literal holds the bytes of "I g" + U+221A + U+2022 + "r", the Mac Roman mis-decoding of "I går" | A Flexer task row dated "I går": it matches neither literal, fails "02-01-2006" and ends the whole tick with an error | "I går" gives now minus one day | medium; not executed | Sources.FlexerYesterdayBlocksTick | Sources.FlexerDateMeaning |
