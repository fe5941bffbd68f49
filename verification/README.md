# Chronos, verified

Chronos is a job scheduler: an API accepts jobs, workers claim and run them from a PostgreSQL
table, a cron loop creates jobs on schedule, and Redis holds rate-limit buckets and refresh-token
ids. This project models those parts in Dafny 4.11 and proves what they guarantee over every run.

`dafny verify dfyconfig.toml` checks the whole project.

## Layout

| files | part of the system |
|---|---|
| `TokenBucket`, `TokenBucketTheorems` | the rate limiter's script, and runs of it |
| `ClaimProtocol`, `Claimer`, `ClaimTheorems` | the claim protocol as a state machine, the claimer's statements on a mutable table, and what every run keeps |
| `ClaimRace`, `ClaimBound` | the race of the integration test; the exact bound on jobs in flight |
| `CronScheduler`, `CronSerial` | the cron loop, serialized ticks |
| `CronInterleaving`, `CronReadings` | overlapping ticks, and the jobs they make from one due run |
| `Submissions`, `SubmissionRuns` | single and batch submission, alone and interleaved |
| `DeadLetters` | dead-lettering and manual retries, alone and overlapping |
| `RefreshTokens`, `RefreshRuns` | refresh-token rotation, serialized and command by command |
| `Backoff`, `Pagination`, `QueueStats` | retry delays, pages, status counts |

A class carries each stateful component; its methods follow the source statement by statement and
are proved equal to functions on values. Protocols are state machines over atomic steps
(`Enabled`, `Apply`, `IsRun`, `Exec`), and their theorems quantify over every sequence of steps.

## Reading the models

- Tokens, clocks and refill rates are reals; `maxTokens` and `windowSecs` are at least one.
- One database statement, one Redis command and one Lua script are atomic. A row that an open
  transaction has written or locked makes other writers wait: their step is disabled until then.
- Croner is a function from expression and instant to a result. Where an occurrence matters, it is
  required to name the least later occurrence of an arbitrary predicate `fires`.
- One due run of a cron definition is what ticks read between two updates of its next run.
- `Claimer` follows worker/src/claimer.ts:27-70, and dead-lettering and late starts follow
  worker/src/executor.ts:253-279 and 92-96. Neither file is UTF-8 text, so the table below cites the
  repository's own excerpts and descriptions of them.
- In the claim protocol the environment (executor, retries, reaper, cancel) may write any status
  except `claimed` to any unlocked row at any time, because the source's updates name only the row.
  An executor starts each job that a claim call returned at most once; setting `running` on a row no
  longer in flight is a late start and is counted.

## Where the code differs from its documentation

- README.md:433 and docs/DESIGN_DECISIONS.md:46 say that claims never exceed the true capacity. The
  count is taken outside the transaction, so K overlapping calls can put K times the limit in
  flight. The executor sets a job to running by its id alone (worker/src/executor.ts:92-96), and cancel
  writes without looking at the status it replaces (api/src/routes/jobs.ts:811-820), so each job
  cancelled between its claim and its start can add one more. K times the limit plus the late starts
  is exact (`InFlightBoundIsExact`).
- A refresh token is meant to be used once, but the check and the revocation are separate commands
  (api/src/routes/auth.ts:328, 336). Refreshes that overlap between the two can all succeed; their number is
  the exact bound (`RedemptionBoundIsExact`).
- The unique dead-letter row (prisma/migrations/20240101000000_init/migration.sql:222) lets one retry per
  row commit only until the job is dead-lettered again; as many can commit as rows are created
  (`RetriesPerRowAreExact`).
- The scheduler's timer does not wait for the previous tick (worker/src/scheduler.ts:150), and an update
  that throws after its insert leaves the definition due (lines 107-132): one due run can yield as many
  jobs as ticks overlap and passes fail, and no more (`JobsPerDueRunIsExact`).
- api/src/lib/pagination.ts:23 says the limit is clamped to at least 1, but a limit of 0 counts as
  absent and becomes 20 (`LimitIsClamped`).

## Model

| member | source | states |
|---|---|---|
| `TokenBucket.RateLimitStore.Eval` | api/src/middleware/rateLimit.ts:48-79 | One execution of the script equals one step of the limiter on the bucket Redis still holds, touches only the key it was given, and keeps it for two windows |
| `TokenBucketTheorems.ExactRefinement` | api/src/middleware/rateLimit.ts:57-78 | After every run on one forward clock from an absent key, the next request is admitted if and only if every window that opens at an earlier admission, with the new request in it, holds at most a full bucket plus the window's refill: two stored numbers decide like a limiter that remembers every admission |
| `TokenBucketTheorems.ExpiryIsInvisible` | api/src/middleware/rateLimit.ts:57-59 | Forgetting the key after two windows changes no decision, retry hint or stored bucket on any such run |
| `TokenBucketTheorems.KeptForTwoWindows` | api/src/middleware/rateLimit.ts:69-77 | What a request has written is read back until two windows have passed on Redis's clock, and not longer |
| `TokenBucketTheorems.WindowBound` | api/src/middleware/rateLimit.ts:61-78 | With clocks that may disagree or step back, from one admission to a later one at most a full bucket plus the refill between their two timestamps is admitted, as long as Redis keeps the key |
| `TokenBucketTheorems.DeniedRequestsAreInvisible` | api/src/middleware/rateLimit.ts:61-72 | Deleting any set of denied requests from a run changes no other decision or retry hint |
| `TokenBucketTheorems.RetryAfterIsExact` | api/src/middleware/rateLimit.ts:66-79 | After a denial with hint k, however many denied polls follow, a request s whole seconds later is admitted if and only if s >= k (delay-seconds of section 10.2.3 of RFC 9110) |
| `Claimer.SkipLocked` | README.md:423-430 | The row-by-row scan under a limit returns what the recursive SKIP LOCKED scan returns |
| `Claimer.JobsDb.CountInFlight` | README.md:415-421 | The count outside the transaction opens a call with as many slots as the limit exceeds the queue's claimed and running jobs, and none when it does not exceed them |
| `Claimer.JobsDb.SelectForUpdateSkipLocked` | docs/DESIGN_DECISIONS.md:40-43 | The select locks the scanned rows and changes nothing else |
| `Claimer.JobsDb.CommitClaim` | api/tests/concurrent-claim.test.ts:173-177 | The commit sets exactly the locked rows to claimed, leaves the others as they are and releases the locks |
| `Claimer.JobsDb.ClaimJobs` | README.md:415-431 | An uninterrupted call returns and claims the best free rows, as many as the claimed and running jobs leave slots for, and fewer only when no more are free |
| `ClaimTheorems.ClaimTakesTheBest` | README.md:26-35 | A claim returns distinct due queued unlocked rows of the queue, by descending priority and then ascending time; no free row left behind has a higher priority, or the same and an earlier time, than a returned one, and fewer than the limit come back only when none is left |
| `ClaimTheorems.OrderExists` | README.md:32 | Some order satisfying ORDER BY exists for every table, so the claim query is defined on every table |
| `ClaimTheorems.NoRowIsLockedTwice` | docs/DESIGN_DECISIONS.md:25-27 | From any state where it holds, every initial one included, every step of every interleaving keeps it: no row is locked by two open claim transactions, and every locked row is still queued and counted within its call's slots |
| `ClaimTheorems.ClaimedOncePerEntry` | README.md:24 | Over any stretch of any run, the claims that return a job number at most the times it enters queued, plus one if it starts queued, minus one if it ends queued |
| `ClaimRace.ClaimsAreDisjoint` | api/tests/concurrent-claim.test.ts:156-178 | While nothing re-enters queued, no id is returned twice by all claim calls together, and only ids queued at the start are returned |
| `ClaimRace.ReturnedAreClaimed` | api/tests/concurrent-claim.test.ts:173-177 | After any interleaving of claim calls alone, exactly the returned rows have changed, each from queued to claimed |
| `ClaimRace.EveryJobIsClaimedOnce` | api/tests/concurrent-claim.test.ts:166-177 | When the limit covers all waiting jobs of a queue, some call selects from it, none aborts and all have ended, every one of those jobs is claimed and returned exactly once, in every interleaving |
| `ClaimTheorems.ClaimsWithinRoom` | docs/DESIGN_DECISIONS.md:29-46 | Jobs in flight plus counted but unspent slots never exceed one limit for each claim call that may be open at once, plus one for each late start |
| `ClaimTheorems.OverlapByWorkers` | docs/DESIGN_DECISIONS.md:45-46 | N workers with one call each never overlap more than N calls, so the bound is N times the limit |
| `ClaimBound.RoomCanBeFilled` | README.md:433 | For every limit, number of workers and number of late starts some run puts workers * limit + late starts jobs in flight: the workers count before any of them claims, and executors start jobs that were cancelled after their claim |
| `ClaimBound.InFlightBoundIsExact` | docs/DESIGN_DECISIONS.md:29-46 | With at most K overlapping calls and at most S late starts, n bounds the jobs in flight on all runs if and only if K * limit + S <= n |
| `ClaimBound.LimitHoldsIffNoOverlapNorLateStart` | README.md:433 | The queue's own limit holds on all runs if and only if at most one claim call is open at a time and no executor starts a job that has left flight |
| `CronScheduler.Scheduler.RunTick` | worker/src/scheduler.ts:43-135 | The loop over the due list leaves the tables that processing the rows one by one, each as first read, leaves |
| `CronScheduler.Scheduler.MaterializeOne` | worker/src/scheduler.ts:62-134 | One pass: skip, deactivate, insert only, or insert and advance, by template, cron result and which write throws; the row carries every column the loop sets |
| `CronSerial.FirstRunIsTheNextMinute` | api/src/routes/jobs.ts:61-67 | The first next run is the least full minute after the given instant, for every expression |
| `CronSerial.DueTickAnchors` | worker/src/scheduler.ts:76-113 | A tick that finds a valid definition due creates exactly one job for it, of the template's type, payload, priority and retry policy, sets its next run to the least occurrence after the instant of computing, and changes no other column but the last run. When the insert throws nothing changes; when the update throws the job stays and the definition is as before |
| `CronSerial.DueTickMakesNone` | worker/src/scheduler.ts:66-91 | A due definition whose template names no type, or whose expression is rejected, keeps its row and gets no job; one whose expression has no later run is deactivated without a job, unless that update throws |
| `CronSerial.ExhaustedIsReadOnce` | worker/src/scheduler.ts:81-91 | After a definition without a later run is switched off, no tick of any run finds it due, changes it or makes a job for it |
| `CronSerial.NeverDueAgain` | worker/src/scheduler.ts:47-52 | No run of ticks reads, changes or makes a job for a definition that is inactive or has no next run |
| `CronSerial.TickCreatesIffFired` | worker/src/scheduler.ts:47-52 | A tick whose query reads t finds the definition due, and creates one job unless the insert throws, if and only if an occurrence lies after the instant the next run was computed and at or before t; the next run moves on exactly when neither write throws |
| `CronSerial.NoOccurrenceIsLost` | worker/src/scheduler.ts:62-113 | Over any run of serialized ticks, whichever writes throw, every occurrence up to the query of a tick without a failure for the definition lies in one window, whose job is created at or after it; every window holds an occurrence, and the new jobs are the windows plus the updates that failed after their insert |
| `CronInterleaving.EveryUpdateIsPaidFor` | worker/src/scheduler.ts:93-134 | In every interleaving with failures and crashes, jobs created = next-run updates + ticks between insert and update + ticks that failed or died there = the sum of what the single ticks made, and no tick makes two jobs for one definition |
| `CronReadings.JobsPerDueRunIsExact` | worker/src/scheduler.ts:107-132 | With at most K ticks open and at most F passes that fail or die after their insert, n bounds the jobs that all ticks together make from one due run, before and after it is advanced, on all runs, if and only if K + F <= n |
| `CronReadings.JobsPerReading` | worker/src/scheduler.ts:62-134 | In every interleaving the jobs made from one due run are at most the ticks that may be open at once plus the passes that failed or died after their insert |
| `CronReadings.OneJobPerDueRunIff` | worker/src/scheduler.ts:150 | Every due run makes at most one job on all runs if and only if ticks do not overlap and no pass fails after its insert |
| `CronInterleaving.LoneTickIsTheLoop` | worker/src/scheduler.ts:43-135 | A tick that nothing interrupts takes the interleaved machine to exactly the tables of the sequential loop |
| `Submissions.JobTable.Submit` | api/src/routes/jobs.ts:298-334 | An uninterrupted submission is stored whole if and only if none of its non-null keys occurs in a row of the same queue, stored or submitted with it; otherwise nothing changes and the answer is 409, from the check if and only if a stored row of the queue has one of its non-empty keys |
| `Submissions.OnlyEmptyAndRepeatedKeysPassTheCheck` | api/src/routes/jobs.ts:298-334 | The index refuses what the check let pass if and only if every row that clashes with the table carries the empty key, and there is such a row or the batch repeats a key |
| `SubmissionRuns.SubmissionsAreIdempotentAndAtomic` | prisma/migrations/20240101000000_init/migration.sql:207 | In every interleaving of checks, inserts, commits and aborts no two jobs of a queue share a non-null key, pending rows included, and the table is the committed requests in order, each whole and once |
| `SubmissionRuns.NoKeyIsStoredTwice` | prisma/migrations/20240101000000_init/migration.sql:207 | In every state of every run from the empty table two jobs of one queue never have the same non-null key, whatever batches they belong to |
| `SubmissionRuns.BatchIsAllOrNothing` | api/src/routes/jobs.ts:331-334 | At the end of every run a batch id has all its rows in the table if its request committed, and none otherwise |
| `SubmissionRuns.OneCommitPerKey` | api/src/routes/jobs.ts:139-150 | Two committed requests never carry the same key for the same queue |
| `SubmissionRuns.LoneRequest` | api/src/routes/jobs.ts:298-334 | In the interleaved machine a request that runs while no other transaction is open stores all its rows if its keys are distinct and new, and nothing otherwise, and is refused by the check exactly when that finds a key: the effect of the uninterrupted handler |
| `DeadLetters.JobStore.Retry` | api/src/routes/jobs.ts:728-758 | An uninterrupted retry requeues a job if and only if it is failed, dead-lettered or cancelled; the job is then queued with no attempts and due now, its dead-letter row is gone and nothing else changes; jobs in the other five states and missing ids are refused unchanged |
| `DeadLetters.JobStore.DeadLetterJob` | README.md:46 | Moving a job to the dead-letter queue adds one row, or fails and changes nothing when the job already has one |
| `DeadLetters.LoneRetry` | api/src/routes/jobs.ts:728-758 | In the interleaved machine a retry that nothing interrupts has the effect of the handler |
| `DeadLetters.RowsAreConserved` | api/src/routes/jobs.ts:744-758 | Over any stretch of overlapping retries, commits that had seen a row = rows created + row present at the start - row present at the end |
| `DeadLetters.CreatedIsPresentPlusRetried` | prisma/migrations/20240101000000_init/migration.sql:222 | Rows ever created = rows present + committed retries that had seen one |
| `DeadLetters.OneRetryPerRow` | api/src/routes/jobs.ts:746-748 | While no new row is created for the job, at most one retry that had seen a row commits, and exactly one when the row disappears |
| `DeadLetters.RetriesOfOneRowCanCommit` | api/src/routes/jobs.ts:747 | For every job and number of retries some run from an initial state commits that many retries that all saw the first row, the job being claimed, run and dead-lettered again between them: the delete names the job, not the row |
| `DeadLetters.RetriesPerRowAreExact` | api/src/routes/jobs.ts:728-758 | When the job is dead-lettered at most R times, n bounds the committed retries that saw one and the same row, on all runs, if and only if R <= n; so one commits if and only if it is dead-lettered once |
| `RefreshTokens.JtiStore.Refresh` | api/src/routes/auth.ts:309-348 | A refresh succeeds if and only if the cookie holds a refresh token with a live id of an existing user; it then swaps that id for the new one, live for seven days, and otherwise changes nothing |
| `RefreshTokens.JtiStore.Logout` | api/src/routes/auth.ts:372-390 | Logout with a refresh token removes its id and no other; any other cookie changes nothing |
| `RefreshTokens.LoggedOutForGood` | api/src/routes/auth.ts:372-385 | After a logout with the token of an issued id, no refresh of that id succeeds in any run of handlers |
| `RefreshTokens.LivesSevenDays` | api/src/routes/auth.ts:96-99 | A stored id is valid until seven days have passed, and not longer |
| `RefreshTokens.TokensAreConserved` | api/src/routes/auth.ts:327-342 | With serialized handlers every token is redeemed at most once, and live ids = logins - logouts that removed one - expiries |
| `RefreshRuns.GoneForGood` | api/src/routes/auth.ts:96-109 | In every interleaving of GET, DEL and SET steps, an id that was deleted or expired never passes a check again |
| `RefreshRuns.RedeemedWithinOverlap` | api/src/routes/auth.ts:327-336 | An id is redeemed at most as often as its refreshes overlap between check and revocation, whatever other handlers do |
| `RefreshRuns.OverlapCanBeRedeemed` | api/src/routes/auth.ts:327-336 | For every id and every overlap some run redeems the id that often: all refreshes check it before the first revokes it |
| `RefreshRuns.RedemptionBoundIsExact` | api/src/routes/auth.ts:327-336 | With at most K refreshes of an id between check and revocation, n bounds its redemptions on all runs if and only if K <= n; so it is redeemed at most once if and only if its refreshes do not overlap |
| `RefreshRuns.RefreshAsSteps` | api/src/routes/auth.ts:327-342 | The refresh handler's four commands, run without interruption, have the effect of the serialized handler |
| `RefreshRuns.LogoutAsStep` | api/src/routes/auth.ts:372-390 | The logout handler is the single DEL of the interleaved machine |
| `Backoff.DelaysGrowToTheCap` | api/tests/concurrent-claim.test.ts:22-45 | For every strategy and every jitter drawn, a later attempt never waits less, no wait exceeds the cap, and once capped the wait stays at the cap |
| `Backoff.CapIsReached` | api/tests/concurrent-claim.test.ts:29-44 | A wait whose uncapped value reaches the cap is the cap, and with a positive base delay linear and exponential waits get there |
| `Backoff.JittersAreDraws` | api/tests/concurrent-claim.test.ts:37 | The jitters up to the largest one are exactly those that some random number below one draws |
| `Backoff.TotalIsCapped` | api/tests/concurrent-claim.test.ts:44 | k waits total at most k caps |
| `Backoff.FixedAndLinearTotals` | api/tests/concurrent-claim.test.ts:30-35 | k fixed waits total k capped base delays; k linear ones, while uncapped, the base delay times the k-th triangular number |
| `Backoff.ExponentialTotal` | api/tests/concurrent-claim.test.ts:36-44 | k exponential waits total at most base * (2^(k+1) - 2) plus the jitters, at most k maximal ones, and exactly that while uncapped |
| `Pagination.PagesCoverTheList` | api/src/lib/pagination.ts:25-48 | For every list and every limit the parser yields, pages 1 to totalPages concatenate to the list, none of them is empty for a non-empty list, and later pages are empty |
| `Pagination.OnePagePerPosition` | api/src/lib/pagination.ts:29-35 | Every position lies on exactly one page, and which one |
| `Pagination.LimitIsClamped` | api/src/lib/pagination.ts:29-34 | A parsed limit is the given one clamped to 1 to 100 if and only if the given one is not zero; zero and an absent limit give 20, and a page is clamped to at least 1 |
| `QueueStats.CountsAreDirect` | api/src/routes/queues.ts:155-169 | The counts by queue and status, and by queue, are the numbers of the jobs that are there |
| `QueueStats.StatusCountMap` | api/src/routes/queues.ts:155-169 | The nested map agrees with a direct count for every queue and status, a missing entry meaning zero |
| `QueueStats.Stats` | api/src/routes/queues.ts:291-313 | Every status has its count, zero included, and totalJobs is both the sum of the counts and the number of jobs in the queue |

## Left out

- The web client, nginx, Docker, Swagger, logging, Socket.io and role checks: plumbing and interface.
- Password hashing, JWT signing and verification, request parsing: their results are parameters.
- Reading job lists and dashboards: queries without state of their own.
- Request-to-row mapping in submission (type, payload, priority, run time): copied columns on which no key or batch depends.
- The executor, the retry worker and the reaper: in the claim protocol they are abstract steps that insert, start and settle rows.
- The X-RateLimit response headers: computed from the verdict and the configuration alone.
- Job handlers, execution logs, and Redis publications: no guarantee of the tables depends on them.
- Floating-point rounding and daylight-saving shifts: times are exact.
- The cron library's parser: an arbitrary function, as described above.
- Submitting a cron definition: an unconditional insert after the same key check; its key is not stored.
- Scheduled jobs becoming queued: no code in the repository does it, so nothing is claimed about it.
- Legality of status transitions when retry, cancel, executor and reaper interleave: their updates do not look at the status they replace.
- Monotonicity of the next run under overlapping ticks: a slow tick may write an older value.
- Queue limits that change while claim calls are open: the limit is fixed in a run.
- TokenBucketTheorems.WindowBound: says nothing once Redis has expired the key between the two admissions, because with clocks that step back an expired bucket restarts full.
- CronSerial.TickCreatesIffFired: assumes the expression always has a later occurrence, because the loop deactivates an exhausted definition without a last job.
- Backoff.DelaysGrowToTheCap: takes a non-negative base delay, as the unit (milliseconds to wait) implies.
- ClaimProtocol.Enabled: the claim query's snapshot and its row locks are one atomic step, so PostgreSQL's re-check of rows changed in between is not modelled.
