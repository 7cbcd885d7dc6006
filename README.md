# twarc: quota, retry, pagination, hydration and resume, in Dafny

twarc archives tweets from the Twitter REST API. This project models the part of
`twarc.py` that decides when and what to request:

- the `TwitterClient` quota tracker, with its fields `remaining` and `reset`: `ping` refreshes them, and `check` blocks until a call is allowed and then takes one unit;
- the retrying `fetch`, including its nested retries;
- the search paginator (`search_result`, `search`) and the hand-over to the web scraper;
- the scraper's id loop (`scrape_tweet_ids`);
- the hydration batcher (`hydrate` and `TwitterClient.hydrate`);
- the resume planner (`last_archive`, `most_recent_id`), which finds the newest archive of a query and reads the id to continue from.

Everything the program gets from outside is an input of the model:

- the clock and the rate-limit status answers are a sequence of `Probe`s;
- the API answers are `net(k)` for the k-th GET, and `pages` for search and scraping;
- the lookup result is `lookup(body)`;
- the directory listing is a sequence of `Entry`s.

Sleeps are recorded, not performed: as the `waits` of `check` and as `Backoff` events in a `fetch` trace.

The modules are:

- `Quota`: `ping`, the wait rule and `check`, as functions of the two fields.
- `Retry`: `fetch` as a function of its attempt budget and the network.
- `Client`: the class `TwitterClient`. Its methods update `remaining` and `reset` in place and are proved against `Quota` and `Retry`.
- `Text`: `str.strip` with Python 3's whitespace set, `','.join`, and `split(',')`.
- `Hydration`: the batching loop of `hydrate`.
- `Search`: `search_result` and the `search` loop.
- `Scrape`: the id loop of `scrape_tweet_ids`.
- `Quoting`: `urllib.parse.quote(q, safe='')`.
- `Resume`: `last_archive` and `most_recent_id`.
- `Wrappers`: `Option` and `Result`.

In these places the model follows what the code does, which differs from what a reader of the function names might expect:

- **Retry budget.** `fetch(url, tries=5)` is not a five-attempt budget. The recursive call after a non-200 sits inside the `try` (twarc.py:74). A deeper "too many tries" is therefore caught (twarc.py:76) and retried once more. When every answer is a non-200 status and t ≤ 6, `fetch` makes 2^t − 1 GETs: 31 for the default of five tries. From t = 7 up the backoff (6 − t) · 2 is negative, so `time.sleep` raises inside the `try` (twarc.py:72). Its retry at twarc.py:78 is outside the `try`, so each further try adds one GET: 63 + (t − 6) GETs. When every GET raises instead, the retry at twarc.py:78 is outside the `try`, so `fetch` makes t GETs.
- **Transport errors.** An exception from the GET is retried at once, without the backoff sleep (twarc.py:76-78).
- **Lookup requests.** `TwitterClient.hydrate` does not go through `fetch`. It makes one `check` and one POST, with no status test and no retry (twarc.py:80-87).
- **Ping failures.** `check` does not retry a failing ping: the `KeyError` escapes `check` (twarc.py:108, twarc.py:126-127). It also escapes the `fetch` whose first `check` it is, since that `check` runs before the `try` (twarc.py:63). The `check` of a nested `fetch` after a non-200 runs inside the caller's `try` (twarc.py:74), so its `KeyError` is caught there and `fetch(url, tries - 1)` runs again (twarc.py:76-78).
- **Archive names.** The archive pattern is matched against the raw query, while archives are written under the percent-encoded query; see Findings.

## Model

| member | source | states |
|---|---|---|
| Quota.Ping | twarc.py:111-130 | The fields after one `ping` and whether it raised. With `resources` in the body, both fields come from `resources.search["/search/tweets"]`. Otherwise `reset` is taken from its header and then `remaining` from its header; a missing header raises and leaves what was not yet assigned. |
| Quota.PingOverwrites | twarc.py:111-130 | A ping that does not raise overwrites both fields, whatever they were before. The values come from `resources.search["/search/tweets"]` when the body has `resources`, and from the `x-rate-limit-*` headers only otherwise. |
| Quota.PingRaises | twarc.py:122-127 | A ping raises exactly when the body has no `resources` and a rate-limit header is missing. `remaining` is then left as it was, because `reset` is assigned first. |
| Quota.Wait | twarc.py:99-106 | A pass of `check` sleeps until 5 seconds past `reset` exactly when `reset` is truthy and still in the future. Otherwise it sleeps exactly 1 second. It never sleeps less than 1 second. |
| Quota.CheckSpec | twarc.py:89-109 | An admitted call leaves `remaining >= 1`. No pass is made exactly when `remaining > 1` or no probe is available. There is at most one pass per probe, and every pass sleeps at least 1 second. |
| Quota.CheckTakesOneUnit | twarc.py:95-109 | After `check` admits, `remaining` is one less than the last count it saw, and that count was above 1. Every earlier count it saw was at most 1. Each pass made exactly one ping. |
| Quota.CheckWaitsFollowReset | twarc.py:95-108 | Pass n sleeps according to the `reset` in force at its start: the original one for the first pass, the one the previous ping reported for each later pass. |
| Retry.Fetch | twarc.py:55-78 | The result of `fetch(url, tries)` when every `check` admits, and the index of the next GET. No tries left is "too many tries". A 200 returns its body. After a transport error or a negative backoff, the result is that of one more `fetch(tries - 1)`. After a non-200, the nested `fetch(tries - 1)` result is kept when it is a body; when it is "too many tries", it is caught and one more `fetch(tries - 1)` follows. |
| Retry.Trace | twarc.py:55-78 | The events of that `fetch` in order. Every attempt is the one-second pause, the `check` and the GET. After a non-200, the backoff sleep of (6 − tries) · 2 seconds follows when it is not negative, and then the nested calls' events. |
| Retry.FetchBounded | twarc.py:55-78 | `fetch` with `tries` left makes at most 2^tries − 1 GETs (none when `tries == 0`). A body it returns is that of a 200 answer to its last GET. |
| Retry.FetchTraceCountsGets | twarc.py:62-78 | The events of a `fetch` hold one GET event per request it made: their number is the number of GETs issued, including those of nested retries. |
| Retry.FetchEarlierAttemptsFailed | twarc.py:65-78 | `fetch` returns the body of the first 200 it gets: every earlier GET, and every GET of a `fetch` that raises, was non-200 or raised. |
| Retry.FetchAllFailing | twarc.py:65-78 | When every answer is non-200 (tries <= 6), `fetch` raises "too many tries" after exactly 2^tries − 1 GETs. |
| Retry.FetchAllFailingPastSix | twarc.py:65-78 | When every answer is non-200 and tries > 6, the negative backoff makes the sleep raise inside the `try`, and the single retry is not caught again: `fetch` raises "too many tries" after exactly 63 + (tries − 6) GETs. |
| Retry.FetchDefaultBudget | twarc.py:55 | With the default of five tries and every answer failing, `fetch` makes 31 GETs before it raises. |
| Retry.FetchFourFailuresThenSuccess | twarc.py:67-74 | Four failures and then a 200 return the 200's body after five GETs, with backoffs of 2, 4, 6 and 8 seconds. |
| Client.TwitterClient.Fresh | twarc.py:51-52 | A new client starts with `remaining = 0` and no `reset`. |
| Client.TwitterClient.Connect | twarc.py:51-53 | Creating a client fails exactly when its first ping raises. Otherwise the new client's fields are what that ping reported. |
| Client.TwitterClient.Ping | twarc.py:111-130 | The fields after `ping`, and whether it raised, are those of `Quota.Ping` applied to the fields before. |
| Client.TwitterClient.Check | twarc.py:89-109 | The loop ends as `Quota.CheckSpec` says: same outcome, same sleeps, same final fields. An admitted call leaves `remaining >= 1`. |
| Client.TwitterClient.Fetch | twarc.py:55-78 | The recursive method ends as `Client.FetchSpec` says. It returns the same body or failure, leaves the same fields, and reaches the same next attempt and next GET. A returned body leaves `remaining >= 1`. |
| Client.FetchSpec | twarc.py:55-78 | `fetch(url, tries)` of a client whose attempts each run `check` first. It gives the result, the fields after it, and the next attempt and GET. A `check` that does not admit ends the call with that failure, outside the `try`. After a non-200, a failure of the nested call is caught and one more `fetch(tries - 1)` follows; the exception is a `check` that stays blocked, which never returns. |
| Client.FetchSpecPaced | twarc.py:55-78 | A `fetch` with `tries` left makes at most 2^tries − 1 attempts, each with its own `check`. It makes at most one GET per attempt. When it fails on a `check` that did not admit, it made fewer GETs than attempts: no GET followed that `check`. |
| Client.AdmittedFetchIsRetry | twarc.py:55-78 | When every `check` admits whatever the fields, the client's `fetch` returns the same body, or "too many tries", as the retry policy `Retry.Fetch`. It also stops at the same GET: the quota only delays requests. |
| Client.NestedPingRaiseRetried | twarc.py:63-78 | Start with `remaining = 2` and two tries; a 503, a nested `check` whose ping raises, then an admitting ping and a 200. `fetch` catches the nested raise and retries. It returns the 200's body after two GETs and three checks, with the fields the last ping set less one unit. |
| Client.TwitterClient.Hydrate | twarc.py:80-87 | The POST is made exactly when `check` admits, and its body is the comma-joined ids. The fields end as `check` leaves them. |
| Text.Strip | twarc.py:298 | `tweet_id.strip()`: the id without its leading and trailing whitespace. |
| Text.Join | twarc.py:83 | `','.join(ids)`: the ids separated by single commas; no ids give the empty string, and one id gives itself. |
| Text.StripKeepsMiddle | twarc.py:298 | `strip` keeps one contiguous piece of the id. Only whitespace is removed around that piece, and the piece neither starts nor ends with whitespace. |
| Text.StripIdempotent | twarc.py:298 | Stripping an id twice gives the same result as stripping it once. |
| Text.SplitJoin | twarc.py:83 | Splitting a lookup body at its commas gives back exactly the batch of comma-free ids it was joined from. |
| Hydration.BatchedIsChunks | twarc.py:297-308 | A cut of the ids into full batches of 100, followed by one shorter non-empty batch, is unique: it is the front-to-back cut `Chunks`. |
| Hydration.FlushRest | twarc.py:306-308 | Flushing a non-empty remainder after the full batches cuts the whole input into ceil(n/100) batches. |
| Hydration.SendBatch | twarc.py:301-302 | The lookup of a batch is made exactly when its `check` admits. It then yields the statuses of the lookup of the batch's comma-join; otherwise it reports how that `check` ended. The client's fields end as that `check` leaves them. |
| Hydration.Collect | twarc.py:297-303 | The loop sends only full batches of 100 stripped ids, in input order, and collects their statuses in order. Every sent batch's `check` admitted, one after the other on the fields the previous one left. When the input ends, fewer than 100 ids are left in the buffer and the fields are those the sent checks left. Otherwise the loop stopped at a full batch whose `check` did not admit, with the fields that `check` left. |
| Hydration.Hydrate | twarc.py:288-308 | The `check`s of the sent batches all admitted, each on the fields the previous one left. If the checks of ceil(n/100) lookups would all admit, `hydrate` does not stop. When it does not stop, the batches cut the stripped input in order into ceil(n/100) batches, equal to `Chunks`. The statuses are those lookups' results, batch after batch, and the fields are those the checks left. When it stops, that is at lookup number `|batches|` < ceil(n/100), whose `check` did not admit: the batches sent before it are full and a prefix of the input, and the fields are those that `check` left. |
| Search.PageRequest | twarc.py:176-181 | `since_id` and `max_id` are each sent exactly when truthy. |
| Search.NextCursor | twarc.py:187 | The cursor a non-empty page leads to: one past the id of its last status. |
| Search.SearchResult | twarc.py:184-195 | The page is reported empty exactly when it is empty or one past its last id equals the current cursor. An empty report keeps the cursor. Otherwise the statuses are returned unchanged with the cursor one past the last id, which differs from the old cursor. |
| Search.GivenMaxIdNeverFixed | twarc.py:191 | A `max_id` given on the command line (a string) never equals the computed cursor, so a non-empty first page is always yielded. |
| Search.SearchSpec | twarc.py:140-145 | The loop of `search` over the given pages. Each page is requested with the current cursor. A fetch that raised ends the loop, and so does an empty result from `search_result`. Otherwise the page's statuses are yielded and the loop goes on from the new cursor. The run records the statuses, the requests, the final cursor and how the loop ended. |
| Search.SearchYieldsPagesInOrder | twarc.py:140-145 | `search` yields every status of every page before the one that stopped it, in the order received, and each of those pages was non-empty. The stopping page raised, was empty, or was a fixed point of the cursor. |
| Search.SearchCursorAdvances | twarc.py:140-141 | The first request carries the starting `max_id`. Each later request carries one past the previous page's last id. |
| Search.FixedPointStops | twarc.py:191-193 | A page whose last id is one below the cursor ends the search there, after one request and without yielding anything. |
| Search.ThreePagesThenEmpty | twarc.py:140-145 | Pages of 100, 100 and 37 statuses and then an empty page: four requests, and 237 statuses in order. |
| Search.Search | twarc.py:133-149 | The loop does what `SearchSpec` says. It hands over to the scraper exactly when it ended at an empty page, `scrape` is set and `since_id` is falsy, and it hands over the final cursor. |
| Scrape.Carry | twarc.py:261-262 | The cursor the next request carries: a truthy `scroll_cursor` from the page just read (twarc.py:285), and otherwise the one the query dict already holds. |
| Scrape.ScrapeSpec | twarc.py:258-285 | The loop of `scrape_tweet_ids`. Each page is requested with the carried cursor. A page without ids ends the loop. Otherwise its ids are yielded in order, the last one becomes the logged `max_id`, and the loop goes on with `Carry`. |
| Scrape.ScrapeCarriesLastCursor | twarc.py:261-262 | Each request carries the last truthy `scroll_cursor` of the pages before it. A null or empty cursor does not clear the one already sent. |
| Scrape.ScrapeYieldsIdsInOrder | twarc.py:258-277 | The scraper yields the ids of every page before the first page without ids, in page order, and stops at that page. |
| Scrape.ScrapeLogsLastId | twarc.py:275-277 | The logged `max_id` is the last id yielded, or the starting one if no id was yielded. |
| Scrape.NullCursorKeepsOld | twarc.py:261-285 | After a page with a null cursor, the next request still carries the cursor from the page before. |
| Scrape.YieldPage | twarc.py:275-277 | The ids of a page are yielded in order, and the last one becomes the logged `max_id`. |
| Scrape.ScrapeTweetIds | twarc.py:246-285 | The loop does what `ScrapeSpec` says: same ids, requests, logged `max_id` and end. |
| Resume.IsArchiveName | twarc.py:214 | `re.match("^<q>-\\d+\\.json$", name)` with the query as a literal stem: the stem, a dash, at least one digit, `.json`, then the end of the name or a final newline. |
| Resume.Matching | twarc.py:213-215 | The entries of the listing whose names match, in listing order. |
| Resume.SortByName | twarc.py:216 | `sort()` on the candidates: insertion sort by name, code point by code point. |
| Resume.SortByNameSpec | twarc.py:216 | Sorting orders the candidates by name, code point by code point, and keeps exactly the same entries. |
| Resume.MatchingSpec | twarc.py:213-215 | The collected candidates are exactly the entries whose name matches the archive pattern. |
| Resume.CollectMatching | twarc.py:212-215 | The listing loop collects exactly the matching entries. |
| Resume.ArchiveNameMatches | twarc.py:214 | `<stem>-<digits>.json` matches the pattern of its stem. |
| Resume.Newest | twarc.py:211-221 | The archive `last_archive` returns, stated without the sort: the matching non-empty entry with the greatest name, or None. |
| Resume.NewestSpec | twarc.py:211-221 | The newest archive is absent exactly when no entry is both matching and non-empty. Otherwise it is such an entry, and no such entry has a greater name. |
| Resume.NewestUnique | twarc.py:216-220 | When names are distinct, a matching non-empty entry whose name is not below any other is the newest archive. |
| Resume.PopFindsNewest | twarc.py:217-220 | Popping from the end of the sorted candidates until a non-empty file returns the newest archive. |
| Resume.PopFindsNone | twarc.py:217-221 | If every candidate is empty, there is no archive to resume from. |
| Resume.LastArchive | twarc.py:211-221 | `last_archive` returns the matching non-empty file with the greatest name, or None when there is none. |
| Resume.EmptyArchiveSkipped | twarc.py:216-220 | Of an empty `q-20200101000000.json` and a non-empty `q-20191231235900.json`, the older one is returned. |
| Resume.FirstLine | twarc.py:205 | `readline` returns a prefix of the file that has no newline before its end and ends at a newline unless it is the whole file. |
| Resume.FirstLineOfNonEmpty | twarc.py:205-207 | A non-empty file has a non-empty first line, so the `if line` test never fails on a file `last_archive` returned. |
| Resume.MostRecentId | twarc.py:198-208 | There is no resume id exactly when no matching non-empty archive exists. Otherwise the id is read from the first line of the newest one. |
| Quoting.Quote | twarc.py:225 | `quote(q, safe='')`: each always-safe character (ASCII letters, digits and `_.-~`) is kept, and each other character becomes the `%XX` escapes of its UTF-8 bytes, in upper-case hexadecimal. |
| Resume.ArchiveName | twarc.py:225-226 | The file name `archive` writes: the quoted query, a dash, the timestamp, `.json`. |
| Quoting.QuoteSafe | twarc.py:225 | A query of always-safe characters is its own quoting. A query starting with any other character is quoted to a name starting with `%`. |
| Resume.RawQueryMissesArchive | twarc.py:202-214 | As written, with the query taken as a literal pattern: for a query starting with a character `quote` escapes (other than `%`), the archive `archive` wrote for that query never matches, so it is never found. |
| Resume.HashtagArchiveNotFound | twarc.py:214-226 | As written: `#obama` is archived as `%23obama-<stamp>.json`, and `last_archive("#obama")` does not find it. |
| Resume.QuotedQueryFindsArchive | twarc.py:225-226 | Corrected: matching against the quoted query finds a non-empty archive written for any query, and returns one with a name at least as great. |
| Resume.ResumePoint | twarc.py:198-208 | Corrected `most_recent_id`: whenever a non-empty archive of `q` exists under the name `archive` gives it, there is a resume id. |

## Left out

- Time is in whole seconds. The source reads `time.time()` as a float, so the sub-second part of `reset - now + 5` is not modelled.
- Sleeps and logging are not performed. Sleeps appear as recorded waits and `Backoff` events.
- Quota.CheckSpec: when the probes run out while `check` is still blocked, the model ends with `Blocked`. The source would go on waiting forever.
- Quota.PingRaises: a ping also raises when its GET raises or its body is not JSON (twarc.py:116-117). Such a ping is given to the model as `PingResponse(None, map[])`, which raises.
- Quota.Ping: when the body has `resources`, its nested `search["/search/tweets"]` keys are assumed present. `int()` parsing of the values is not modelled: the values are integers already.
- Client.TwitterClient.Connect: the credential check, `sys.exit` and the OAuth session of `__init__` (twarc.py:32-49) are process configuration and a foreign library.
- Retry.Fetch: an answer is a status and a body, or a raise. A 200 whose body is not JSON raises inside the `try` (twarc.py:68) just as a failing GET does, so it is given to the model as a `TransportError` answer. The "too many tries" error does not carry the URL.
- Client.TwitterClient.Hydrate: decoding the lookup response is the input `lookup(body)`. Iterating an error object's keys as if they were tweets is not modelled.
- Search.Search: each page builds a new `TwitterClient` (twarc.py:175), whose first ping and `fetch` are modelled by `Client.TwitterClient.Connect` and `Client.TwitterClient.Fetch`. `Search.Search` itself takes, per page, the statuses that page's fetch returned, or None when it raised.
- Search.Search: `int(id_str)` is taken as already parsed into `Status.id`.
- Scrape.ScrapeTweetIds: the HTTP request, the user agent, the `last_note_ts` clock parameter, the random 3-8 second sleep and JSON decoding are not modelled. The id regex is the input `extract`. A page without a `scroll_cursor` key (a `KeyError`) is not modelled; a JSON null is.
- Scrape.ScrapeTweetIds: the end at a page without ids is modelled as a clean end of the generator. Under Python 3.7 and later, `raise StopIteration` inside a generator becomes a `RuntimeError` (PEP 479).
- `scrape_tweets` (twarc.py:237-243) is the composition of `Scrape.ScrapeTweetIds` and `Hydration.Hydrate`. It is not a member of its own. The composition follows Python before 3.7, where the scraper ends cleanly and `hydrate` flushes its last batch. Under Python 3.7 and later, the `RuntimeError` escapes through `hydrate`'s loop at twarc.py:297. The flush at twarc.py:306-308 then never runs, and the last scraped ids (fewer than 100) are never looked up.
- Scrape.ScrapeTweetIds: `max_id` is only written to the log and overwritten by yielded ids (twarc.py:259, twarc.py:277). The model takes it as the text the log shows, so the `Search.MaxId` that `Search.Search` hands over (a `Cursor` number, a command-line string or none) is passed as its printed form. The conversion is not a member.
- Hydration.Hydrate: the `TwitterClient` that `hydrate` creates is passed in. The statuses are gathered into one sequence instead of being yielded lazily.
- Resume.IsArchiveName: the query is taken literally. Regular-expression metacharacters in a query are not modelled. `\d` is modelled as ASCII digits; under Python 3 it matches any Unicode decimal digit.
- Resume.RawQueryMissesArchive: holds for a query taken as a literal pattern. twarc.py:214 builds a regular expression from the query, so a query with metacharacters can still match its quoted archive name: for `(.*)`, `^(.*)-\d+\.json$` matches `%28.%2A%29-<stamp>.json`. The claim is not made for such queries.
- Resume.LastArchive: directory entries are assumed to have distinct names, as a directory listing does. A file that changes between the listing and `getsize` or `open` is not modelled.
- Resume.FirstLine: the file is taken as raw text. Python 3's text mode turns `\r\n` and a lone `\r` into `\n`, which is not modelled; the archives twarc writes contain no `\r`.
- Resume.MostRecentId: `json.loads(line)["id_str"]` is the input `idOf`. A first line that is not JSON would raise; this is not modelled.
- Quoting.Quote: follows Python 3.7 and later, where `~` is always safe. Python 2 and earlier Python 3 escape `~`, and Python 2 fails on non-ASCII text.
- `stream` (twarc.py:152-169) is an endless network loop with library JSON parsing. `archive` (twarc.py:224-234) is file output with a wall-clock timestamp; only its file name is modelled, as `Resume.ArchiveName`. The command-line block (twarc.py:311-361) is argument parsing and dispatch.
- `archive.py` is a superseded prototype that does not parse. It is not part of this model.

## Findings

| source | as written | input that shows it | evidently intended | confidence | as-written member | corrected member |
|---|---|---|---|---|---|---|
| twarc.py:214 | `last_archive(q)` matches `^<q>-\d+\.json$` against the raw query, but `archive` names its files after `quote(q, safe='')` (twarc.py:225) | q = `#obama`: the archive is `%23obama-20140101120000.json`, which does not match, so `most_recent_id` returns None and the next run searches from scratch instead of resuming | look archives up under `quote(q, safe='')`, the name `archive` writes | high for queries starting with `#`, `@` or a space; not executed | Resume.RawQueryMissesArchive | Resume.QuotedQueryFindsArchive |
