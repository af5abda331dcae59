# Verified models of the Luxor service's stateful core

This project models, in Dafny, the parts of the service whose correctness lies in whole runs rather than in one
branch, and proves what the repository's comments and tests promise of them. `dafny verify dfyconfig.toml`
checks everything. There is one module a file, named like the file.

- `Sessions`, `SessionRuns`, `SessionAnswers`, `SessionPruning`: the `auth_sessions` table. A login starts a family,
  each exchange of a refresh token inserts a successor row and revokes its predecessor, a replayed token revokes the
  family, logout revokes one row, and an hourly job deletes expired families. `Sessions` has the table as a class
  with one method a transaction; `SessionRuns` proves that every reachable table is made of rotation chains, that no
  token is exchanged twice, that a replay ends its family for good, and when a family ends; `SessionAnswers` proves
  exactly when a request is granted, what it is answered with, and exactly how long the token in an answer is
  accepted; `SessionPruning` proves that the pruned run and the run that never prunes cannot be told apart by any
  client.
- `RateLimit`: the bounded in-memory fixed-window limiter, proved to answer each key as an unbounded per-key
  reference does. `RateBounds`: what the limiter lets through in any interval and in any window, and what delay it
  advertises. `RateDisorder`: exactly how much disorder of the clock readings these promises stand. `SendQuota`: the
  smaller publish budget of one connection, with its own tight bound.
- `Sieve`: the prime sieve in 32-bit arithmetic and its JavaScript twin, both proved to count the primes.
- `EventConsumer`: the Kafka consumer as a class against a step machine with crashes, restarts and lost,
  reordered or refused commits; at-least-once delivery over every run. `Broadcast`: the bounded fan-out ring with
  one lagging cursor a subscriber, shared by `Realtime` (one WebSocket connection's loop) and `EventBus` (the
  in-process event stream and its log).
- `Cache`, `Tickets`, `Admission`: the lazily evicting TTL cache refines a timed map; single-use connection
  tickets on top of it; the connection counter over every interleaving of handshakes and connections.
- `Templates`: placeholder substitution on the server and in the page's script, page templates, HTML escaping,
  and the inlined dictionary.

What the model takes as given:

- Every database transaction is atomic, and transactions happen one after another. There is one clock and it
  never runs backwards, whether read by the service or by the database. Times are natural numbers: seconds for
  sessions, nanoseconds elsewhere. Only the limiter reads the clock before it holds its lock
  (`src/rate_limit.rs:208-209`), so its hits may be counted out of clock order; a history there is the order of the
  lock, and each theorem says what order of readings it needs, if any.
- The two configured token lifetimes are those of the moment: each request carries them, and a redeploy between two
  requests may change them, within what startup validation accepts.
- Ids, family ids, token hashes and tickets from the random source are fresh over the whole run (`Fresh`,
  `FreshTickets`). A refresh token is identified with its hash, and a clash is still modelled as the database error
  it would be. Of the ticket digest it is only asked that no other ticket of the same run has the digest of the
  ticket in question (`NoCollision`).
- The broker keeps a log a partition and a committed offset a partition. A queued commit may be applied in any
  order, applied late, or lost; a synchronous commit that is acknowledged comes after every commit queued before
  it, and one with nothing to commit does not reach the broker. A restarted consumer resumes at the committed offset, or at the beginning when there is none.
- A broadcast channel keeps the last 256 events. A subscriber further behind is told how many it missed and moved
  to the oldest event kept. Between any two steps of a connection, other tasks publish anything they like.
- A connection count is read in the same step in which the event that carries it is published.
- A 32-bit target allocates anything up to `isize::MAX` bytes. `usize` on the server has 64 bits.
- A ticket is its sequence of bytes. Nothing else writes cache keys under the ticket prefix, and what is stored
  there decodes.
- A client's text frame reaches the connection already decoded and validated: unparsable, unacceptable, or
  `Say(text)` with the normalised text.

Where the code and what is written about it disagree, the model follows the code:

- "Removing the rows changes no behavior" (`src/db.rs:229-233`) holds for every table the service filled itself,
  but not for rows given their expiry by migration 20260718000002, which dates each row by its own creation: a
  family then need not expire as one, and a replay of its pruned first token is no longer noticed.
  `SessionPruning.MigratedFamilyIsNotPrunable` is such a table, and
  `SessionPruning.PruneInvisibleExactlyWhenPrunable` gives the condition for any table.
- "Exactly as the console script's `formatMessage` does" (`src/i18n.rs:263-264`) fails for a placeholder whose
  name a JavaScript object inherits, because the script asks `name in params`
  (`Templates.InheritedNameIsSubstituted`), and for a name with other than word characters, which the script's
  expression cannot match (`Templates.OtherNameIsSubstituted`). `Templates.TwinsAgreeExactlyWhen` is the condition,
  for any names and values.
- A quota of `u32::MAX` requests never denies anything, because the counter saturates at the quota
  (`RateBounds.MaximalQuotaNeverDenies`); the interval bound holds exactly for the smaller ones
  (`RateBounds.SlidingBoundHoldsExactlyWhen`).
- A quota's window is exceeded when hits are not counted in clock order. One nanosecond of disorder lets a sweep
  drop a window before its last hit (`RateDisorder.FullWindowOverrun`), and two let three windows meet
  (`RateDisorder.ThreeWindowsMeet`). An interval as long as the window keeps the bound exactly when there is no
  disorder (`RateDisorder.FullWindowBoundExactlyWhenInOrder`); one shorter by twice the disorder always does
  (`RateBounds.SlidingBound`).
- A client can be told to wait a second longer than the window (`RateBounds.StaleHitWaitsLonger`), exactly when
  its hit read the clock before the hit that opened the window did (`RateBounds.RetryAfterReachesReset`).
- That a restart after a clean stop does not replay events (`src/events/kafka.rs:469-476`) is true of what the
  stopping process handled (`EventConsumer.CleanStopIsFinal`), not of what an earlier process handled before it
  crashed with its commits lost (`EventConsumer.CrashedWorkIsReplayed`).
  `EventConsumer.CleanStopIsFinalExactlyWhen` says exactly when nothing is replayed.

## Model

| member | source | states |
|---|---|---|
| Sessions.SessionStore.FindByHash | src/auth/refresh.rs:63-77 | The row whose token hash is presented, if any; the unique index makes it the only one |
| Sessions.SessionStore.InsertSession | src/db.rs:169-196 | The row is added under a new id, and the table is untouched when the id or the hash is already taken |
| Sessions.SessionStore.IssueRefreshToken | src/auth/refresh.rs:34-56 | A login opens a family with one unrevoked row whose token and family deadlines count from now, and answers with that token |
| Sessions.SessionStore.RotateRefreshToken | src/auth/refresh.rs:58-121 | Replay, expiry, clash and success, with the whole new table and the answer in each case; the runs proved below are runs of this transaction |
| Sessions.SessionStore.RevokeFamily | src/db.rs:212-227 | Every row of the family is revoked, rows already revoked keep their time, other families are untouched |
| Sessions.SessionStore.RevokeSession | src/db.rs:198-210 | Logout revokes the one row of that hash and keeps an earlier revocation time |
| Sessions.SessionStore.DeleteExpiredSessionFamilies | src/db.rs:234-239 | Rows past their family's expiry go and all others stay, unless a surviving row names a deleted one, when the database refuses |
| SessionRuns.PruneKeeps | migrations/20260710000002_create_auth_sessions.sql:8 | In a reachable table the delete is never refused by the self-reference, families go whole, and the invariant holds after it |
| SessionRuns.RunKeeps | src/auth/refresh.rs:58-121 | Every login, exchange, logout and prune, in any order, keeps each family one acyclic chain with one user and one family expiry |
| SessionRuns.ReachableTablesAreChains | src/db.rs:147-227 | The same from the empty table: whatever the service does, the table is made of such chains |
| SessionRuns.FamilyShape | src/auth/refresh.rs:90-114 | In a reachable family only the tail can be unrevoked, only the tail names no successor, and there are as many rows as tokens granted |
| SessionRuns.GrantExtendsFamily | src/auth/refresh.rs:92-114 | A successful exchange adds exactly the new row to the chain of the token presented |
| SessionRuns.MembersAreExchanges | src/auth/refresh.rs:92-114 | Over every run a family gains as many rows as exchanges of its tokens succeed |
| SessionRuns.OneRowMoreThanExchanges | src/auth/refresh.rs:34-56 | From its login on, in every run, a family that is not pruned has one row more than the exchanges that succeeded |
| SessionRuns.ExchangedAtMostOnce | src/auth/refresh.rs:79-114 | Over every run, at most one request presenting a given token succeeds |
| SessionRuns.ReplayKillsFamily | src/auth/refresh.rs:79-83 | Presenting a stored revoked token, even an expired one, is refused and leaves no row of its family unrevoked |
| SessionRuns.DeadFamilyIsFrozen | src/db.rs:212-227 | A family with every row revoked stays so and gains no token, in every continuation |
| SessionRuns.DeadFamilyNeverGrants | src/auth/refresh.rs:79-88 | Any later request with a token of a dead family is refused |
| SessionRuns.ReplayEndsFamily | src/auth/refresh.rs:79-88 | After a replay, no request with any token of that family succeeds again in the rest of the run |
| SessionRuns.RevocationIsSticky | src/db.rs:198-227 | A revoked row is never changed again while it is stored |
| SessionRuns.FamilyLifetime | src/auth/refresh.rs:84-92 | An expired family has only expired tokens, so the second expiry test decides nothing alone; every exchange happens strictly before login time plus the family lifetime of the login, no token passes that end, and a new token outlives the one presented if and only if that one expires within today's token lifetime |
| SessionRuns.ExpiriesAscend | src/auth/refresh.rs:123-131 | While the token lifetime is not lowered, expiries never decrease along any chain |
| SessionAnswers.LoginGrantedExactlyWhen | src/db.rs:147-167 | A login is granted exactly when its id and token are free, and fails in the database otherwise |
| SessionAnswers.LoginAnswer | src/auth/refresh.rs:34-56 | In every reachable table a login answers with the user and the new token, good for the token lifetime, and the row stored says the same |
| SessionAnswers.GrantedExactlyWhen | src/auth/refresh.rs:58-104 | An exchange is granted exactly when a stored session of the token is unrevoked and unexpired and the new id and token are free, fails in the database exactly when they are not free, and is unauthorized otherwise |
| SessionAnswers.ExchangeAnswer | src/auth/refresh.rs:90-121 | A granted exchange answers with the family's user and the new token, good for the token lifetime or to the family's end, whichever is first, and the row stored says the same |
| SessionAnswers.RefusalLeavesRows | src/auth/refresh.rs:79-88 | A refused request changes no row, except that presenting a revoked token touches that token's own family |
| SessionAnswers.PruneRemovesExactly | src/db.rs:234-239 | After a prune the families with rows are exactly those that had some and have not come to their end, and their rows are unchanged |
| SessionAnswers.AcceptedExactlyWhen | src/auth/refresh.rs:58-121 | Over every run, a token good now is granted later if and only if it is presented before its expiry and in between was not logged out and no token of its family was presented |
| SessionAnswers.AnswerIsHonoured | src/auth/refresh.rs:34-121 | The token a login or an exchange answers with is accepted exactly until the expiry in that answer, unless logged out or its family was used in between |
| SessionPruning.PruningIsInvisible | src/db.rs:229-239 | A run that prunes at arbitrary moments and the same run that never prunes give the same answer to every login, exchange and logout |
| SessionPruning.ReachableIsPrunable | src/auth/refresh.rs:84-88 | In a reachable table a family that loses rows to a prune holds nothing that could still be exchanged |
| SessionPruning.PruneInvisibleExactlyWhenPrunable | src/db.rs:229-239 | For any table at all, the prune changes no later answer if and only if no family that would lose a row has a usable one, or the database refuses the delete |
| SessionPruning.UnprunablePruneShows | src/db.rs:229-239 | When such a family exists, three concrete requests tell the pruned table from the unpruned one |
| SessionPruning.MigratedFamilyIsNotPrunable | migrations/20260718000002_add_session_family_expiry.sql:5-12 | A family renewed three times with the default token lifetime, its expiries as the migration sets them, from which the delete takes one row and leaves a usable one |
| RateLimit.CeilSecondsIsLeast | src/rate_limit.rs:183-187 | The rounding is the least whole number of seconds that covers the duration |
| RateLimit.MemoryRateLimiter.Hit | src/rate_limit.rs:207-248 | One hit's new map and decision as the step the histories below are made of, and the bound on the map |
| RateLimit.MapStaysBounded | src/rate_limit.rs:189-226 | In every history the map holds at most `MAX_TRACKED_WINDOWS` windows |
| RateLimit.VerdictNamesQuota | src/rate_limit.rs:174-181 | Every answer names the last hit's quota, promises no more than it, and nothing when it denies |
| RateLimit.UntrackedVerdict | src/rate_limit.rs:210-226 | An untracked hit is allowed and answered as the first of a window opening now |
| RateLimit.RefusedExactlyWhenCrowded | src/rate_limit.rs:210-226 | A hit goes untracked exactly when its key has no live window and the most windows allowed are live for other keys |
| RateLimit.LimiterRefinesReference | src/rate_limit.rs:207-248 | Unless a hit read the clock before a sweep it finds already made, the sweeping, bounded map answers every history as one window a key that is never dropped, expired and absent being alike |
| RateLimit.OwnWindow | src/rate_limit.rs:165-172 | A key never crowded out has the window its own hits alone would leave |
| RateLimit.OtherKeysDoNotMatter | src/rate_limit.rs:207-248 | A key never crowded out gets the answers it would get as the only client, whatever other keys and their sweeps did |
| RateBounds.SlidingBound | src/rate_limit.rs:174-248 | Every half-open interval one window long, less twice the disorder of the readings, holds at most twice `max_requests` less one allowed hits; in clock order, every interval one window long |
| RateBounds.SlidingBoundIsAttained | src/rate_limit.rs:207-248 | For every quota below `u32::MAX` some history in clock order reaches that bound |
| RateBounds.MaximalQuotaNeverDenies | src/rate_limit.rs:233 | With a quota of `u32::MAX` every hit is allowed |
| RateBounds.SlidingBoundHoldsExactlyWhen | src/rate_limit.rs:174-248 | The interval bound holds for every history of a quota if and only if the quota is below `u32::MAX` |
| RateBounds.WindowBudget | src/rate_limit.rs:228-247 | In any order of readings, a window counts every hit of its key since its opener up to saturation, all of them before its reset, and lets through exactly the first `max_requests` |
| RateBounds.WindowBudgetInOrder | src/rate_limit.rs:228-247 | In clock order these are the hits allowed between the window's opening and its reset |
| RateBounds.RemainingIsBudgetLeft | src/rate_limit.rs:174-181 | The reported remainder and the hits the window has let through add up to the quota |
| RateBounds.RetryAfterReachesReset | src/rate_limit.rs:183-187 | The advertised delay of a tracked hit is at least one second and the least whole number of seconds reaching the reset; it is within the window if and only if the hit read the clock no earlier than the window's opener, so always in clock order |
| RateBounds.StaleHitWaitsLonger | src/rate_limit.rs:208-209 | Two concurrent hits of which the second is told one second more than the window |
| RateBounds.ReturningClientIsAllowed | src/rate_limit.rs:183-248 | A client back no earlier than advertised is allowed, whatever other keys and sweeps did in between and in whatever order clocks were read |
| RateDisorder.RefinesExactlyWhenInOrder | src/rate_limit.rs:208-211 | Over all histories of a given disorder the answers are the reference's if and only if there is none |
| RateDisorder.StaleAfterSweepDiffers | src/rate_limit.rs:208-211 | A history whose answer differs: a full map, a newcomer's sweep, and a hit that waited for the lock meanwhile |
| RateDisorder.FullWindowBoundExactlyWhenInOrder | src/rate_limit.rs:207-248 | Over all histories of a quota and a given disorder, every interval one window long keeps the bound if and only if there is no disorder and the quota is below `u32::MAX` |
| RateDisorder.FullWindowOverrun | src/rate_limit.rs:208-211 | For every quota a history of one nanosecond's disorder that allows twice the quota within one window |
| RateDisorder.ThreeWindowsMeet | src/rate_limit.rs:208-209 | Six hits of a lone client, two nanoseconds out of order, of which one window's length holds four allowed for a quota of two |
| SendQuota.Quota.Allow | src/realtime.rs:578-588 | An ask is allowed exactly when it is among the first `MESSAGE_QUOTA` of its window, and joins the times allowed only then |
| SendQuota.AllowedExactlyFirst | src/realtime.rs:564-589 | Over all asked times, a window opens at the first ask a whole `MESSAGE_WINDOW` after the last opening, exactly the first `MESSAGE_QUOTA` asks of each are allowed, and a refusal costs nothing |
| SendQuota.RefusedExactlyWhenSpent | src/realtime.rs:579-585 | An ask is refused if and only if `MESSAGE_QUOTA` messages were allowed since its own window opened |
| SendQuota.PatientIsAllowed | src/realtime.rs:579-582 | A client let in nothing for a whole window is let in, however often it tried meanwhile |
| SendQuota.BudgetBound | src/realtime.rs:564-589 | No half-open interval of `MESSAGE_WINDOW` holds more than twice `MESSAGE_QUOTA` allowed messages |
| SendQuota.BudgetBoundIsAttained | src/realtime.rs:564-589 | Some run reaches that number |
| Sieve.StruckExactlyWhenComposite | wasm/src/lib.rs:19-33 | When the loop reaches `n`, some smaller prime's multiples from its square on include `n` exactly if `n` is composite |
| Sieve.CountPrimes | wasm/src/lib.rs:12-34 | For every 32-bit limit: the number of primes up to it with no overflow, or a trap exactly when the array cannot be allocated; skipping a square that overflows loses nothing |
| Sieve.CountPrimesJs | public/script.js:747-759 | The same number for every limit up to the page's clamp, all intermediate values being exact |
| EventConsumer.Consumer.constructor | src/events/mod.rs:178-187 | A consumer that joins again starts at the committed offsets |
| EventConsumer.Consumer.Recv | src/events/kafka.rs:449-450 | Delivery of the next record moves the position and the offset a shutdown would commit |
| EventConsumer.Consumer.ConsumeMessage | src/events/kafka.rs:493-555 | The record is passed to the handler or skipped as undecodable, and only then is its offset queued, which may be refused |
| EventConsumer.Consumer.HandleDelivery | src/events/kafka.rs:449-463 | One turn of the loop; a read error changes nothing |
| EventConsumer.Consumer.Consume | src/events/kafka.rs:437-467 | The whole loop and the final commit are one run of the step machine |
| EventConsumer.Consumer.CommitOnShutdown | src/events/kafka.rs:477-485 | An acknowledged commit records every offset stored; a failed one records nothing |
| EventConsumer.AtLeastOnce | src/events/kafka.rs:437-555 | In every run with crashes, restarts and lost or reordered commits, a record below the committed offset was handled if it is an event and skipped if it does not decode |
| EventConsumer.InOrderWithinIncarnation | src/events/kafka.rs:445-465 | One process deals with the records of a partition in offset order and leaves none out |
| EventConsumer.NothingBlocks | src/events/kafka.rs:487-555 | From any idle state the loop can reach the end of a partition, whatever mixture of records it holds |
| EventConsumer.AppliedCommitResumesBehind | src/events/kafka.rs:547-554 | A record whose commit the broker applied is not read again after a crash: the next process starts right behind it, and elsewhere at the committed offsets |
| EventConsumer.CommittedMovesOnly | src/events/kafka.rs:477-485 | Only a commit the broker applies, or a clean stop with something to commit, moves a committed offset |
| EventConsumer.StopCommitsPosition | src/events/kafka.rs:469-485 | A clean stop commits exactly the position reached in each partition this process read from, and no other |
| EventConsumer.CleanStopIsFinal | src/events/kafka.rs:469-485 | After an acknowledged stop, nothing the stopping process dealt with is dealt with again in any continuation |
| EventConsumer.CleanStopIsFinalExactlyWhen | src/events/kafka.rs:469-485 | After a clean stop no continuation deals with anything again if and only if the committed offset, and every commit of an earlier process still on its way, is past all dealt with so far by any process |
| EventConsumer.LateCommitIsReplayed | src/events/kafka.rs:547-554 | A commit on its way to at or before something dealt with takes the partition back to it |
| EventConsumer.UncommittedIsReplayed | src/events/mod.rs:178-187 | Anything dealt with at or past the committed offset is dealt with again once a consumer reads on from there |
| EventConsumer.CrashedWorkIsReplayed | src/events/kafka.rs:469-485 | A concrete run in which work of a crashed process is done again after a later clean stop |
| EventConsumer.ExactlyOnceWithoutCrashes | src/events/kafka.rs:437-485 | Without crashes and with every stop acknowledged, no record is dealt with twice, whatever became of the asynchronous commits |
| Broadcast.Channel.Send | src/realtime.rs:260-266 | The event joins what was published, and the ring still holds exactly the last 256 |
| Broadcast.Channel.Subscribe | src/realtime.rs:231-233 | A new subscriber starts after everything published so far |
| Broadcast.Channel.TryRecv | src/realtime.rs:466-474 | What the ring yields is what the full history yields: the event at the cursor, a count of what was overwritten, or nothing |
| Broadcast.OnlyOverwrittenEventsAreMissed | src/realtime.rs:113-116 | For every interleaving, each event counted as missed had been overwritten by one a whole ring later when it was reported |
| Broadcast.MissesExactlyWhenBehind | src/realtime.rs:113-116 | Over every interleaving a subscriber misses something if and only if it polls more than 256 events behind |
| Broadcast.PollingCatchesUp | src/realtime.rs:466-474 | A subscriber within the capacity that keeps polling gets every event published, in order, and draws level |
| Broadcast.LaggingIsToldOnce | src/realtime.rs:439-447 | One further behind is told once how much it missed and is then within the capacity |
| Broadcast.Conservation | src/realtime.rs:430-450 | Delivered events plus reported lags equal the distance the cursor moved |
| Broadcast.EventsInOrder | src/realtime.rs:430-450 | Delivered events were published at strictly increasing positions after the subscription |
| Broadcast.EveryPositionIsAccounted | src/realtime.rs:437-447 | Each position passed was delivered as an event or lies in one lag report |
| Broadcast.FanOutConserves | src/events/mod.rs:206-253 | For every interleaving of publishers and one subscriber, all of the above hold |
| Realtime.Connection.constructor | src/realtime.rs:325-347 | A connection starts from its subscription with the welcome as its only frame and a budget that opens now |
| Realtime.Connection.ForwardNext | src/realtime.rs:432-450 | One event or lag notice moves from the subscription to the socket, and the cursor moves with it |
| Realtime.Connection.Drain | src/realtime.rs:466-476 | In every execution that ends, everything the subscription held is written or counted, and nothing else |
| Realtime.Connection.SendDirectly | src/realtime.rs:460-479 | In every execution that ends, the payload is written last, after everything published before it was decided has been written or counted |
| Realtime.Connection.HandleCommand | src/realtime.rs:487-533 | Which notice or broadcast a command becomes, and that an unusable one leaves the budget alone |
| Realtime.Connection.PublishOwn | src/realtime.rs:367 | An accepted command is published at once, at a position the connection can be held to |
| Realtime.Connection.HandleText | src/realtime.rs:360-374 | An accepted command goes to everyone and only to the hub; a rejected one is answered behind the fan-out |
| Realtime.Connection.HandleInput | src/realtime.rs:349-411 | What each kind of input is answered with, which message it publishes, what it does to the idle clock and the tick number, and when it ends the connection |
| Realtime.Connection.Serve | src/realtime.rs:349-411 | Over any inputs and anything published meanwhile: a prefix of the inputs is handled, this connection alone is sent exactly their replies in order with ticks numbered from one, exactly the messages within budget are published, the events waited for are forwarded, and the loop stops early only at a close, at a tick due an idle timeout after the client was last heard, or at a failed write |
| Realtime.Arrive | src/realtime.rs:335-339 | The arrival is published after the welcome, reporting the number of slots held, this connection's among them |
| Realtime.Depart | src/realtime.rs:413-420 | The slot is freed before the count is read, so the departure reports exactly the slots others hold, however they come and go in between |
| Realtime.RunConnection | src/realtime.rs:316-428 | The welcome is the first frame and the replies to the inputs handled follow it; without a welcome nothing is announced, with one an arrival and last a departure; on every path the slot is free in the end and the counter is the number of slots still held, however others come and go |
| Realtime.DirectNeverOvertakes | src/realtime.rs:452-479 | Every broadcast the connection had accepted before a notice or tick is written, or counted in a lag notice, before it |
| EventBus.EventLog.Record | src/events/mod.rs:282-289 | The log keeps the last hundred events ever recorded and counts them all |
| EventBus.EventLog.Recent | src/events/mod.rs:292-295 | The most recent events, newest first, as many as asked for and kept |
| EventBus.Turn | src/events/mod.rs:337-343 | A turn with something pending moves the cursor: one event is handled or those overwritten are passed over |
| EventBus.Consume | src/events/mod.rs:333-345 | From its subscription on, each event received is handled once and in order, handled plus dropped is the distance moved, and every turn with something pending gets on |
| Cache.MemoryCache.Get | src/cache.rs:142-155 | The value while unexpired and nothing after; an expired entry found is dropped |
| Cache.MemoryCache.Put | src/cache.rs:157-170 | A valid put replaces the entry with a deadline from now; an invalid one changes nothing |
| Cache.MemoryCache.Remove | src/cache.rs:172-176 | The entry is gone |
| Cache.MemoryCache.Take | src/cache.rs:180-187 | The entry is removed whatever its age and its value given only while unexpired, in one step |
| Cache.ValidKeyLengths | src/cache.rs:201-213 | Of a key character repeated, exactly the lengths 1 to 128 are keys; of another, none |
| Cache.ValidTtlFrom | src/cache.rs:190-199 | A lifetime is accepted from one millisecond on |
| Cache.CacheRefinesTimedMap | src/cache.rs:140-188 | Over every timed sequence of calls, a read or take returns the last value put exactly when it is unexpired and neither invalidated nor taken since; eviction on read cannot be observed |
| Tickets.TicketKeyIsValid | src/realtime.rs:625-629 | The key derived from any ticket is one the cache accepts |
| Tickets.TicketKeyReads | src/realtime.rs:625-629 | The key is the prefix followed by the digest in hexadecimal, which reads back |
| Tickets.TicketKeysDiffer | src/realtime.rs:625-629 | Two tickets share a key if and only if they share a digest |
| Tickets.IssueTicket | src/realtime.rs:596-604 | The participant is stored under the ticket's key for its lifetime, or the lifetime is refused |
| Tickets.ConsumeTicket | src/realtime.rs:610-623 | Text that cannot be a ticket never reaches the cache; otherwise the entry is taken and decides the answer |
| Tickets.HeldWhileStanding | src/realtime.rs:596-623 | The cache holds a ticket's entry exactly from its issue until it is first presented |
| Tickets.RedeemedExactlyWhen | src/realtime.rs:606-623 | A redemption yields a participant if and only if the ticket was issued to that participant, is presented strictly before issue time plus lifetime, and was not presented in between |
| Tickets.RedeemedAtMostOnce | src/realtime.rs:606-623 | In every interleaving a ticket is redeemed at most once |
| Tickets.IssuedTicketIsRedeemable | src/realtime.rs:596-635 | A ticket of the shape the service issues can be redeemed throughout its lifetime, whatever happened to other tickets |
| Tickets.TwoTicketsAreRedeemed | src/realtime.rs:596-623 | A run that meets the hypotheses above: two tickets, each redeemed once by its participant and refused when presented again |
| Admission.RealtimeHub.TryAdmit | src/realtime.rs:235-249 | A slot is given exactly while the counter is below the limit, and joins those the counter counts |
| Admission.ConnectionSlot.Release | src/realtime.rs:296-307 | The first release frees one, any later one frees nothing, and the counter stays the number of slots held |
| Admission.Connect | src/handlers/realtime.rs:72-107 | Which check refuses, that every refusal leaves the counter as it was, that a handshake refused for origin, upgrade or capacity leaves its ticket unspent, and who is admitted |
| Admission.CounterIsHeldSlots | src/realtime.rs:235-308 | Over every interleaving the counter is the number of unreleased slots, at most the limit, at least one when a slot is released, and zero when all connections are gone |
| Admission.AdmittedExactlyWhen | src/realtime.rs:238-249 | In every reachable state a handshake gets a slot if and only if fewer than the most allowed are held, and one refused changes nothing |
| Admission.ConnectionLives | src/realtime.rs:316-428 | Every connection's slot is released exactly once by the time it is gone, and its departure is announced only after its arrival and after that release |
| Admission.DepartureReportsTheRest | src/realtime.rs:413-420 | The departure's count is the number of slots still held, the leaver's not among them |
| Templates.FormatMessage | src/i18n.rs:265-290 | The scanning loop computes the left-to-right substitution the lemmas below are about |
| Templates.LookupIsFirst | src/i18n.rs:271-276 | A name has the value of the first pair that bears it, and none exactly when no pair does |
| Templates.FormatIsReplace | src/i18n.rs:263-290 | The loop equals the global replacement of `\{(\w+)\}` on every message if and only if each value given is what the expression would put for its placeholder, as it is for any word-character names |
| Templates.ReplacePlaceholder | public/script.js:20-22 | What the expression makes of one placeholder: only the piece after the last opening brace is matched, and replaced if it is a word with a value |
| Templates.TwinsAgreeExactlyWhen | public/script.js:20-22 | For any names, values and inherited properties, server and script agree on every message if and only if each value for a name without a closing brace is what the expression would put there, and no word given no value is replaced by something else |
| Templates.InheritedNameIsSubstituted | public/script.js:20-22 | A message on which they differ because a name is inherited |
| Templates.OtherNameIsSubstituted | src/i18n.rs:271-276 | A message on which they differ because a name is not a word |
| Templates.RenderPage | src/i18n.rs:213-236 | The loop yields the parsed template filled in, fails exactly when that is undefined, and adds no markup when all keys are dictionary entries |
| Templates.ResolvesInOrder | src/i18n.rs:228-230 | A built-in value wins over the caller's and the caller's over the dictionary; a key has no value exactly when none of the three has it |
| Templates.DictionaryIsEscaped | src/i18n.rs:228-230 | A dictionary entry is inserted as text that reads as that entry and holds no markup character |
| Templates.OnlyLiteralMarkup | src/i18n.rs:203-212 | When all keys are dictionary entries, the markup of the page is that of the template's own text, character by character |
| Templates.PlaceholdersStandInPlace | src/i18n.rs:221-235 | Each value goes where its placeholder stood: with every key standing for its own placeholder the page is the template as written |
| Templates.PageIsTheTemplateFilledIn | src/i18n.rs:203-236 | A page is rendered exactly for texts that are templates, and is each literal text and each value in turn, values never read again |
| Templates.ParseSource | src/i18n.rs:221-235 | Reading the text of a template gives that template back |
| Templates.SourceParse | src/i18n.rs:221-235 | What is read is well formed and has the text given |
| Templates.FailsOnlyOnUndefined | src/i18n.rs:226-230 | A template fails to render exactly when one of its keys has no value |
| Templates.EscapeHtml | src/i18n.rs:380-393 | The loop replaces each of the five characters by its entity |
| Templates.DecodeEscape | src/i18n.rs:380-393 | Decoding the five entities gives the text back |
| Templates.EscapeHasNoMarkup | src/i18n.rs:380-393 | No angle bracket or quote remains |
| Templates.NothingCloses | src/i18n.rs:332-339 | The inlined dictionary nowhere contains `</` |
| Templates.InlineSafeKeepsMeaning | src/i18n.rs:332-339 | Reading its escapes gives the same text as before the replacement |

## Left out

- Statement-level interleavings of concurrent transactions under READ COMMITTED, the deletion of a user with its
  cascade, and the overflow of timestamps.
- The Redis cache and limiter and their Lua script, whose edge behaviour is Redis's own.
- Consumer-group rebalancing and record retention; a partition's log only grows and has one reader.
- SHA-256, JWT signing, password hashing and the random source, beyond being injective and fresh.
- HTTP routing, middleware, CORS, configuration parsing, bootstrap, telemetry and OAuth: plumbing.
- The role matrix, `validate_text`, `origin_allowed`, `client_ip`, broker-list parsing, locale negotiation, link and
  sitemap builders and the values of built-in page variables: each a single-branch check or an easy expression.
- JSON encoding and decoding, and the ticket that is stored but does not decode (it answers Unauthorized).
- Broadcast message sequence numbers and the in-process bus's offsets: they are taken in a step separate from
  publishing, so no order between the two is claimed.
- The timestamp and connection count in every event's envelope, other than the counts an arrival and a departure report.
- WebSocket close frames and the failure to send them, which change nothing after them.
- Memory orderings: an atomic counter is read at its current value.
- Realtime.Connection.SendDirectly: covers every execution that ends, each with its own number `noise` of writes during which others publish; that the loop ends is not claimed, since nothing bounds it while others never pause.
- EventConsumer.NothingBlocks: says the loop can always go on, not that the broker delivers; fairness and timing are not modelled.
- Templates.RenderPage: a panic is `None`, its text is not modelled.
