# crawl: the frontier, the scope rule and the master loops, in Dafny

This project models the core of `crawl`, a concurrent web crawler written in
Rust:

- the crawl frontier `CrawlerQueue` (`src/queue.rs`);
- URL provenance (`CrawledUrl::push_new`) and the subdirectory scope rule
  (`UrlFilter` in `src/filter.rs`, `CrawlerRules` in `src/rules.rs`);
- the master loop of `Scheduler` (`src/scheduler.rs`), which takes URLs from
  the frontier, dispatches each to the first idle worker, waits for any busy
  worker's reply and feeds discovered links back in;
- the older master loop of `Crawler` (`src/crawler.rs`): a plain deque taken
  from the back with no deduplication.

Files:

| file | module | contents |
|---|---|---|
| `urls.dfy` | `Urls` | URLs as (scheme, host, port, path, rest), origins, `CrawledUrl`, root entries, the subdirectory test |
| `filter.dfy` | `Filter` | `push_new`, depth bookkeeping along a path of links, `UrlFilter::matches` |
| `rules.dfy` | `Rules` | the second copy of `push_new`, `CrawlerRules::matches` |
| `queue.dfy` | `Queue` | `CrawlerQueue` as a class over `seq`/`set`/`map` fields, proved against pure functions on `QueueState`; the source's unit tests as methods |
| `workers.dfy` | `Workers` | worker handles, first-fit search, busy flags and their count |
| `scheduler.dfy` | `Scheduler` | `Scheduler`: dispatch, reply handling, `start_master`, `start` |
| `crawler.dfy` | `Crawler` | `Crawler`: `crawl_url`, `start_master`, `start`, and the source's worker release |

How the model works:

- Each `CrawlerQueue` operation is a method that changes the object's fields in
  place. Its contract says the new state equals a pure function (`Admit`,
  `AdmitAll`, `WithRobotsStatus`, `TakeNext`) applied to the old state. The
  lemmas state what the source promises about those functions.
- Channels and tasks are not modelled. A worker handle records its
  `is_working` flag and the job sent to it whose reply is outstanding. A reply
  is a nondeterministic choice of one busy worker, together with what fetching
  its URL returned. That fetch is a function parameter (`crawl`) for
  `Scheduler` and the constant stub `CrawlUrl` for `Crawler`.
- What the callback receives is a ghost sequence of `CrawlerMessage`s
  (`events`). The URLs `Crawler` sends to its workers are the ghost sequence
  `dispatched`.
- The worker vector and `active_workers` are locals of `start_master` in the
  source. Here they are fields of the class, so that dispatch and receive can
  be methods of their own.

The depth bounds are stored but not enforced: `max_depth` and
`max_origin_depth` are fields of `CrawlerQueue`, but the `if let` that reads
`max_depth` at `src/queue.rs:59` has an empty body, so nothing is rejected for
depth. `Queue.AdmitIgnoresDepth` proves that admission ignores both depth
fields: a candidate of any depth enters an empty queue.

## Model

| member | source | states |
|---|---|---|
| Urls.OriginOf | src/filter.rs:11 | the origin of a URL is its scheme, host and port, and nothing else |
| Urls.RootEntry | src/scheduler.rs:124-128 | a root enters the crawl with depth 0 and origin depth 0 |
| Urls.Seeds | src/scheduler.rs:123-128 | the candidates built from the roots are one per root, in order, each a depth-0 root entry |
| Filter.PushNew | src/filter.rs:10-18 | the child keeps the new URL and is one hop deeper; its origin depth stays the same exactly when the origin is unchanged, otherwise grows by one; origin depth ≤ depth is preserved |
| Filter.DescendSnoc | src/filter.rs:10-18 | following one more link applies `push_new` once more to the entry reached so far |
| Filter.DescendCountsHops | src/filter.rs:10-18 | from a root, the entry reached along a path of links has the last URL, depth equal to the number of hops and origin depth equal to the number of origin changes, so origin depth never exceeds depth |
| Filter.New | src/filter.rs:32-36 | the filter keeps the given rules and roots |
| Filter.AnyRoot | src/filter.rs:41-46 | `any` over the roots is true exactly when some root has the URL under it |
| Filter.MatchesIff | src/filter.rs:39-54 | with the subdirectory rule on, a URL matches exactly when some root has the same scheme, port and host and a path that prefixes the URL's path; with it off, every URL matches |
| Filter.NoRootsMatchNothing | src/filter.rs:40-50 | with the subdirectory rule on and no roots, no URL matches |
| Filter.RootMatchesItself | src/filter.rs:41-46 | every root is in scope of its own filter |
| Filter.MatchesMonotone | src/filter.rs:41-46 | adding roots never turns a match into a non-match |
| Filter.ScopeExample | src/filter.rs:39-54 | with root `https://a.example/docs/`, `/docs/x` on the same host is kept; `/other` and another host are dropped |
| Rules.PushNew | src/rules.rs:10-18 | same promises as `Filter.PushNew`: new URL, depth + 1, origin depth + 1 exactly on an origin change |
| Rules.PushNewAgreesWithFilter | src/rules.rs:10-18 | both copies of `push_new` derive the same child from the same parent and URL |
| Rules.Find | src/rules.rs:30-39 | `find` returns the first root that has the URL under it, and returns nothing exactly when no root does |
| Rules.MatchesIff | src/rules.rs:28-47 | with the subdirectory rule on, `matches` holds exactly when some root covers the URL; with it off, always |
| Rules.NoRootsMatchNothing | src/rules.rs:29-43 | with the subdirectory rule on and no roots, nothing matches |
| Rules.MatchesAgreesWithFilter | src/rules.rs:28-47 | `CrawlerRules::matches` and `UrlFilter::matches` give the same answer for the same switch and roots |
| Queue.Remove | src/queue.rs:87 | removing index `i` keeps the entries before `i` and shifts the later ones down by one |
| Queue.AdmitEffect | src/queue.rs:46-63 | a new URL is recorded as admitted and appended at the back; otherwise nothing changes; the queue invariant (entries admitted, no duplicate URLs, cursor in range, nothing resolved before the cursor) is kept |
| Queue.AdmitRejects | src/queue.rs:49-57 | a URL admitted before is a no-op, and with robots required a URL of a disallowed origin is rejected without being recorded |
| Queue.AdmitIgnoresDepth | src/queue.rs:59 | admission depends on neither depth field: any depths give the same decision, and a candidate of any depth enters an empty queue |
| Queue.AdmitAllEffect | src/queue.rs:35-44 | batch admission keeps the invariant, only grows the admitted set, only appends candidates not admitted before, and records every candidate unless robots rejected its origin |
| Queue.QueriesAreDistinctUrls | src/queue.rs:49-62 | deduplication is on the whole URL: two URLs that differ only in their query are both admitted, in order, and a repeat of either is not |
| Queue.ReadmitAfterTakeIsNoOp | src/queue.rs:49-51 | re-admitting a URL is a no-op even after its earlier copy was taken or dropped |
| Queue.RemoveKeeps | src/queue.rs:87-92 | removing an entry at or after the cursor keeps the invariant and leaves no other entry with that URL |
| Queue.ScanKeeps | src/queue.rs:83-101 | the robots-mode scan keeps the invariant, never changes the admitted set or the verdicts, never adds entries, and what it returns is no longer queued |
| Queue.TakeKeeps | src/queue.rs:78-102 | `take` in either mode keeps the invariant, touches neither the admitted set nor the verdicts, and removes what it returns |
| Queue.TakeWithoutRobotsIsFifo | src/queue.rs:79-81 | without robots `take` is `pop_front`: the oldest entry comes out and the rest keep their order; an empty queue yields nothing |
| Queue.ScanStepDisallowed | src/queue.rs:89-93 | removing a disallowed entry at the cursor does not change what the scan promises |
| Queue.ScanStepDisallowedNone | src/queue.rs:89-93 | the same, for a scan that returns nothing |
| Queue.ScanStepDisallowedSome | src/queue.rs:89-93 | the same, for a scan that returns an entry |
| Queue.ScanStepUnknown | src/queue.rs:94-97 | stepping the cursor over an entry of unknown origin does not change what the scan promises |
| Queue.ScanStepUnknownNone | src/queue.rs:94-97 | the same, for a scan that returns nothing |
| Queue.ScanStepUnknownSome | src/queue.rs:94-97 | the same, for a scan that returns an entry |
| Queue.ScanFindsFirstAllowed | src/queue.rs:83-101 | with robots, `take` returns and removes the first allowed entry at or after the cursor, drops every disallowed entry before it and keeps the unknown ones behind the cursor; when it returns nothing, nothing allowed remained, only unknown entries remain from the old cursor on, and the cursor is at the end |
| Queue.WithRobotsStatusEffect | src/queue.rs:65-68 | recording a verdict resets the cursor and keeps the invariant; the verdict applies to every URL of that origin and to no other |
| Queue.CrawlerQueue.constructor | src/queue.rs:19-33 | a new queue is empty, has admitted nothing, has no verdicts and its cursor at 0, and keeps the flags and bounds it was given |
| Queue.CrawlerQueue.CheckAndQueue | src/queue.rs:46-63 | the new state is `Admit` of the old one, and the invariant is kept |
| Queue.CrawlerQueue.CheckAndQueueIter | src/queue.rs:35-44 | the new state is `AdmitAll` of the old one over the candidates in order, and the invariant is kept |
| Queue.CrawlerQueue.SetAllowedByRobots | src/queue.rs:65-68 | the new state records the verdict and resets the cursor to 0 |
| Queue.CrawlerQueue.IsEmpty | src/queue.rs:70-76 | without robots, the answer is true exactly when the queue has no entries |
| Queue.CrawlerQueue.Take | src/queue.rs:78-102 | the returned entry and the new state are `TakeNext` of the old state (FIFO without robots, the cursor scan with robots) |
| Queue.AddAndTakeWithoutRobots | src/queue.rs:109-121 | without robots, an admitted URL is taken back |
| Queue.AddAndTakeWithAllowedRobots | src/queue.rs:123-139 | with robots, a URL whose origin is already allowed is taken back |
| Queue.AddTakeSetRobotsAndTakeAgain | src/queue.rs:141-183 | with robots, a URL of an unresolved origin gives nothing on two takes; after the verdict, the next take returns it if allowed and nothing if disallowed |
| Workers.Pool | src/scheduler.rs:130-142 | a fresh pool has exactly `max_jobs` workers, none working |
| Workers.FirstIdle | src/scheduler.rs:61 | the search returns the lowest-index idle worker, and nothing exactly when every worker is working |
| Workers.BusyCountBounds | src/scheduler.rs:75-83 | the busy count never exceeds the pool size, equals it exactly when every worker works, and is positive exactly when the wait set is not empty |
| Workers.FirstIdleFound | src/scheduler.rs:59-67 | while fewer workers are busy than exist, first-fit finds an idle one |
| Workers.BusyCountUpdate | src/scheduler.rs:66-67 | changing one flag changes the busy count by exactly that flag's change |
| Workers.AssignKeeps | src/scheduler.rs:65-69 | giving an idle worker a job keeps every flag truthful and adds one to the busy count |
| Workers.ReleaseKeeps | src/scheduler.rs:83-88 | releasing the worker that replied, by its own index, keeps the flags truthful, takes one from the count and removes exactly that worker from the wait set |
| Scheduler.WorkerReply | src/scheduler.rs:110-116 | a worker answers `Success` with the links exactly when the fetch succeeded, and otherwise `Failure` with the error and the job's URL |
| Scheduler.Scheduler.constructor | src/scheduler.rs:38-46 | a new scheduler keeps its queue and job count, with all workers idle and nothing reported |
| Scheduler.Scheduler.Dispatch | src/scheduler.rs:55-72 | the new queue state is `TakeNext` of the old one; a taken URL goes to the first idle worker, which is flagged, the counter grows by one and `UrlFound` is reported; with no idle worker the URL is dropped; below `max_jobs` a taken URL is always dispatched; no URL is ever reported twice; without robots and below `max_jobs`, every admitted URL stays queued or reported (with robots the scan may drop admitted URLs of disallowed origins) |
| Scheduler.Scheduler.Receive | src/scheduler.rs:83-97 | the replying worker, by its index, becomes idle and the counter drops by one; `Success` admits the links in order through `check_and_queue_iter`; `Failure` reports `Error` and leaves the queue unchanged |
| Scheduler.Scheduler.Step | src/scheduler.rs:55-98 | one iteration keeps the counter equal to the busy flags and below `max_jobs`, only extends the reports and only grows the admitted set |
| Scheduler.Scheduler.StartMaster | src/scheduler.rs:50-100 | the counter always equals the number of busy flags, and with at least one worker stays below `max_jobs`; no URL is reported twice; with at least one worker every admitted URL stays queued or reported; when the loop ends the queue is empty and the pool is back to all idle |
| Scheduler.Scheduler.Start | src/scheduler.rs:122-156 | any queue without robots is accepted; every root is admitted; when the loop ends with at least one worker, starting from a queue whose admitted URLs were all waiting or reported (as a new queue's are), every root has been reported found |
| Scheduler.ShrinkKeepsRecord | src/scheduler.rs:59-64 | taking an entry out of the frontier without dispatching it keeps the reports consistent |
| Scheduler.DispatchKeepsRecord | src/scheduler.rs:59-70 | reporting a URL as it leaves the frontier keeps every reported URL reported once |
| Scheduler.PopKeepsCovered | src/scheduler.rs:55-70 | without robots, dispatching the front entry keeps every admitted URL either queued or reported |
| Scheduler.AdmitKeepsRecord | src/scheduler.rs:91-93 | admitting links keeps the reports consistent and keeps every admitted URL queued or reported |
| Scheduler.AllIdleIsPool | src/scheduler.rs:54 | with a busy count of zero and truthful flags, the workers are exactly a fresh pool |
| Crawler.CrawlUrl | src/crawler.rs:111-115 | the fetch stub finds no links for any URL |
| Crawler.ReversedLength | src/crawler.rs:61 | reading the queue from the back visits every entry once |
| Crawler.ReversedAt | src/crawler.rs:61 | the `i`-th entry read from the back is entry `len - 1 - i` |
| Crawler.ReleaseAsWrittenLosesReplies | src/crawler.rs:82-96 | with three workers, replies from worker 0 and then worker 2 leave worker 1 idle with a reply outstanding and worker 2 flagged with none, so the next wait never ends; with two workers, a reply from worker 1 leaves its flag set while the counter drops |
| Crawler.AsWrittenAgreesIffBusyPrefix | src/crawler.rs:82-96 | clearing the flag at the reply's position among busy workers agrees with clearing the replying worker's own flag for every reply exactly when the busy workers form a prefix of the vector |
| Crawler.Crawler.constructor | src/crawler.rs:43-50 | a new crawler keeps its rules and job count, with an empty queue |
| Crawler.Crawler.Receive | src/crawler.rs:95-103 | the counter drops by one and the links are appended at the back in order, without deduplication; the flag cleared is the replying worker's own (the corrected release, see Findings), where line 96 clears the flag at the reply's position among the busy workers |
| Crawler.Crawler.StartMaster | src/crawler.rs:54-109 | the loop ends with nothing queued and every worker idle; with at least one worker every queued entry is dispatched, last in first out; with none, every entry is dropped |
| Crawler.Crawler.Start | src/crawler.rs:139-176 | the roots are appended at the back as depth-0 entries without deduplication; with at least one worker, the queued entries and then the roots are dispatched in reverse order |
| Crawler.RootsDispatchedLastFirst | src/crawler.rs:139-148 | started afresh, the crawler dispatches its `i`-th root from the back as its `i`-th job |

## Left out

- Network fetching, HTML tokenising and link resolution (`src/fetching/link_fetcher.rs`): the worker's fetch is the parameter `crawl` of `Scheduler.Scheduler.StartMaster`. `src/main.rs`, `src/error.rs` and `src/lib.rs` (command line, runtime start-up, error display, module declarations) are not part of this model.
- Tokio channels, `select_all`, `join!`/`join_all` and the worker tasks (`start_worker`): a reply is a nondeterministic choice among busy workers, and a worker's round trip is `Scheduler.WorkerReply`. The model does not capture interleavings within one worker or channel back-pressure.
- The callback's printing: reported messages are appended to a ghost sequence, and the `println!` tracing in `src/crawler.rs` is dropped.
- The URL library: parsing, how `origin()` treats non-http schemes (opaque origins), and default-port normalisation. A URL is a record of scheme, host, explicit port, path and the rest of its text (credentials, query, fragment) kept as one string; its origin is that scheme, host and port, which is exact for `http` and `https`. Two spellings the URL library normalises to the same URL (letter case in the host, `%`-escapes) are different values here; an explicit default port is not among them, since `port` is the port as the library reports it, which is absent for the default one, so the model can admit both where the source admits one.
- Hashing in `HashMap`/`HashSet` and the `reserve` calls: these become Dafny `map`, `set` and `seq`.
- Filter.PushNew: depths are unbounded naturals, so the `u32` overflow of `depth + 1` after 2^32 - 1 hops is not modelled.
- Rules.PushNew: depths are unbounded naturals, as for `Filter.PushNew`.
- Queue.CrawlerQueue.IsEmpty: requires that robots are not required, because the robots branch panics with `todo!()` (`src/queue.rs:75`).
- Scheduler.Scheduler.StartMaster: requires that robots are not required, because its loop condition calls `is_empty`. It runs at most `fuel` iterations, since pages may link to new URLs forever; `finished` says whether the loop ended by itself. Termination in robots mode is not modelled.
- Scheduler.Scheduler.Start: same restrictions as `StartMaster`. The property that every root is reported is stated only when the loop ends within the fuel, there is at least one worker, and every URL the queue had admitted before `start` was still waiting or already reported. A queue from which entries were taken before it was handed to the scheduler may hold a root in its admitted set that is never reported; the source does the same.
- The `None => {}` branch of dispatch (a taken URL and no idle worker) is modelled: the URL is dropped. The model proves this happens only when `max_jobs` is 0.
- Crawler.Crawler.Receive: clears the replying worker's own flag with the corrected release `Workers.Release`; the source's release at `src/crawler.rs:96` is modelled by `Crawler.ReleaseAsWritten` (see Findings).
- Crawler.Crawler.StartMaster: uses the corrected release `Workers.Release` (see Findings). With the source's release the loop can hang, which is what `Crawler.ReleaseAsWrittenLosesReplies` shows.
- `CrawlerRules` stored in `Crawler`, and `max_depth`/`max_origin_depth` stored in `CrawlerQueue`, are kept as fields; the source never acts on them, so no operation depends on them.

## Findings

| source | as written | input that shows it | evidently intended | confidence | as-written member | corrected member |
|---|---|---|---|---|---|---|
| src/crawler.rs:96 | `workers[i].is_working = false` uses the index `select_all` returns, which is the reply's position among the busy workers only | `max_jobs = 3` and three queued roots, so all three workers are busy; worker 0 replies first, then worker 2. The second reply clears worker 1's flag. Worker 1's reply is then never awaited, and the next wait listens only to worker 2, which owes nothing. | clear the flag of the worker that replied, as `src/scheduler.rs:76-87` does by carrying the index through `enumerate`; the corrected release is `Workers.Release`, which `Crawler.Crawler.StartMaster` uses | not executed | Crawler.ReleaseAsWrittenLosesReplies | Workers.ReleaseKeeps |
