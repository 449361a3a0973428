# Verified models of the OpenWA cores

A Dafny model of the parts of OpenWA whose correctness depends on more than one function: the
accounting of request bodies in flight, the SDK's retry loop, the source patchers, the web-version
resolver, the bridge's message archive, the locked boot migrations, and two encodings. Each model
follows its source branch by branch; the theorems are about every input, every run or every reachable
state.

| file | what it models |
|---|---|
| `BudgetLedger.dfy`, `InflightBodyBudget.dfy`, `StallReaper.dfy` | The in-flight body budget: a reference account of live reservations, the middleware's counters proved equal to it event by event, and the stall reaper over time |
| `Retry.dfy` | The Go SDK's retry middleware against an arbitrary server, with int64 backoff |
| `Text.dfy`, `Edits.dfy` | JavaScript `indexOf`/`split`/`join`/`replace`, and when rewriting one needle leaves another one alone |
| `GroupPatcher.dfy`, `ReadySyncPatcher.dfy`, `ArityPatcher.dfy` | The status, ready-sync and participant-arity patchers over every source text |
| `WebVersion.dfy` | The registry pick and the single-flight resolver with back-off |
| `Archive.dfy`, `Bridge.dfy` | The bridge's store, its handlers, and any interleaving of them |
| `BootMigrations.dfy` | N replicas booting under one session-scoped advisory lock |
| `PathEscape.dfy`, `Numbers.dfy` | Path-segment escaping (sections 2.1 and 3.3 of RFC 3986) and chat-id normalisation |
| `Sums.dfy`, `Wrappers.dfy` | Sums over finite maps; Option and Result |

`dafny verify dfyconfig.toml` checks the whole project.

## How the pieces fit

*Budget.* `BudgetLedger.Next` says what one event may do to the set of live requests, with no counter
in sight. The class `InflightBodyBudget.Budget` has the counters, and every public method promises a
`Next` step of the account it summarises. So `RunsAreSafe`, proved once over all event sequences, is
a statement about the middleware, whatever order and however often its five terminal events fire. The reaper
lemmas use the same `Poll` function that `Budget.PollTick` is proved against.

*Patchers.* The texts being searched for are parameters. What is asked of them is stated once
(`Edits.Harmonious`, `Edits.Clean`, `ArityPatcher.Harmony`): no needle overlaps a copy of itself, and
no two needles of different edits share a character. The texts the three patchers ship meet these
conditions, except that two of the ready-sync replacements contain their own find, which is
why that patcher has its own theorem without `Clean`.

*Archive.* `Archive.Exec` runs any sequence of atomic store calls, so it covers every interleaving of
handlers at their awaits and every redelivery. `Bridge.Handlers` ties each handler to the steps it
contributes.

## What the proofs found

- **Chunked bodies and small budgets.** An idle server with the default half share admits a chunked
  body exactly when the budget is one byte or at least 2 MiB. Between the two, the opening placeholder
  of min(1 MiB, budget) is more than one client's share, so a per-request limit below 512 KiB (budget
  four times that) refuses every chunked upload (`BudgetLedger.ChunkedOnIdleServer`).
- **Ready-sync comment.** The comment at `repo/scripts/patch-wwebjs-ready-sync.js:80-82` says that each
  replacement contains its own find. The second edit's does not: it inserts a line in the middle of
  its find. The model assumes nothing either way.
- **Ready-sync stands down after itself exactly when cutting a find out of the original leaves no find**
  (`ReadySyncPatcher.AppliedIffCutsAreClean`). Every file the patcher takes has a neighbour where it does not: wrap
  a second copy of one find around the first. The patcher takes that file too, and its second apply throws
  (`CutCanCreateFind`). The three shipped edits meet its condition: the second one's replacement cannot overlap its
  find, and the other two append a line break to theirs, so any split before a character that is not one will do.
- **The participant-arity startup guard is weaker than stand-down.** It counts current bodies only. On a file
  that reads as applied an apply throws exactly when an upstream or a rewindable legacy body is left over
  (`ArityPatcher.GuardedApplyRefusesIff`), and one find appended to any such file is enough (`GuardMissesLeftovers`).
- **Retry bodies.** Every attempt of every call carries the caller's bytes exactly when the body can be rewound, is
  empty, or no answer brings a second attempt: without `GetBody` later attempts send what is left of a spent
  stream (`Retry.SameBodyEveryAttempt`). Every request the SDK itself builds can be rewound.
- **Backoff overflow.** The documented delay is what every retry up to a given one waits for exactly when the doublings
  end before they wrap: base * 2^attempt fits in an int64, or some doubling on the way lies between the
  cap and 2^63 (`Retry.BackoffIsPromisedIff`, `NeverWrapsInClosedForm`). Past that the first wrap gives a
  negative delay, that is no wait at all.
- **At most once rests on 429 and 503 meaning "not acted on".** Under that assumption it holds exactly for non-idempotent
  methods and for policies without retries (`Retry.AtMostOnceIff`). With nothing assumed of the server it holds
  exactly when no answer brings a second attempt: no retries, or a non-idempotent method under a policy that retries
  neither 429 nor 503 (`Retry.AtMostOnceUnconditionallyIff`).
- **A send and its webhook commute** on status always, and on the set of fields exactly when the webhook carries
  a timestamp or the row was there before (`Archive.SendAndWebhookCommute`): otherwise the row written by
  the webhook never gets a timestamp.
- **What a lost lock session costs.** Two replicas can come to migrate together if and only if the loser holds or is
  about to use the lock for the migrations and another replica can still enter
  (`BootMigrations.LossBreaksExclusionIff`). Any other loss is harmless to everything a boot promises, and no
  loss of any kind keeps a boot from ending.
- **Country code comment.** `bridge/app/config.py:82-83` says that a number of at most ten digits gets the
  default country code. The code decides otherwise: a ten-digit number that starts with the code is left alone,
  and a longer one that does not start with it is prefixed. The model follows the code.

## Model

| member | source | states |
|---|---|---|
| BudgetLedger.MakeConfig | repo/src/config/inflight-body-budget.ts:135-149 | Whatever the configured share, one client's cap and the chunked placeholder are at least 1 and never above the budget (or 1 when the budget is 0) |
| BudgetLedger.CapIsShareOfBudget | repo/src/config/inflight-body-budget.ts:135-136 | The cap is the largest whole number of bytes within the share, never below one; a share above 1 is the whole budget |
| BudgetLedger.PollKeepsInv | repo/src/config/inflight-body-budget.ts:297-319 | A poll tick, whatever it sees, keeps the aggregate within the budget, every client within its cap and every reservation exact |
| BudgetLedger.NextKeepsInv | repo/src/config/inflight-body-budget.ts:219-321 | So does every other event: arrival, end of body, any terminal event |
| BudgetLedger.RunsAreSafe | repo/src/config/inflight-body-budget.ts:219-321 | At every event boundary of every run the aggregate is at most the budget, every client at most its cap, and each live chunked request reserves the larger of the placeholder and the bytes observed |
| BudgetLedger.PollDropsIff | repo/src/config/inflight-body-budget.ts:264-319 | A poll drops exactly the incomplete requests that had no byte for fifteen seconds, or whose new bytes take the aggregate or their client over a bound; any other keeps its exact weight, and is disarmed once complete or wholly arrived |
| BudgetLedger.ReleasedOnlyBy | repo/src/config/inflight-body-budget.ts:241-321 | A live request leaves the account by its own terminal event or by such a poll, and in no other way; no event touches another request |
| BudgetLedger.EndedBodyStays | repo/src/config/inflight-body-budget.ts:321 | In every run, a request whose body was read to the end keeps its reservation unchanged until its terminal event, however slow its handler |
| BudgetLedger.ChunkedBytesAreAccounted | repo/src/config/inflight-body-budget.ts:269-278 | The bytes observed on all live chunked bodies together never exceed the aggregate, hence the budget |
| BudgetLedger.ReservationsOnlyGrow | repo/src/config/inflight-body-budget.ts:273-278 | On a byte counter that never runs back, no event shrinks a reservation, and an event on one request changes no other |
| BudgetLedger.DefaultSizingIsFair | repo/src/config/inflight-body-budget.ts:95-136 | With the default sizing and at most one other client holding bytes, a client holding at most one per-request limit breaks neither bound with any body up to the limit; `Budget.Arrive` concludes its admission |
| BudgetLedger.ChunkedOnIdleServer | repo/src/config/inflight-body-budget.ts:135-149 | An idle server is within both bounds for a chunked body if and only if the budget is 1 or at least 2 MiB |
| InflightBodyBudget.Budget.constructor | repo/src/config/inflight-body-budget.ts:131-149 | A new budget accounts for no request and holds the invariant |
| InflightBodyBudget.Budget.Refuses | repo/src/config/inflight-body-budget.ts:220-222 | The test on the counters refuses exactly the requests that would break a bound of the recomputed sums, or that need a new key in a full map |
| InflightBodyBudget.RoomUnlessCrowded | repo/src/config/inflight-body-budget.ts:221 | A client finds room whenever fewer than ten thousand clients are live or it holds bytes itself, and none when it is not live and ten thousand others hold bytes |
| InflightBodyBudget.KeysAreLiveClients | repo/src/config/inflight-body-budget.ts:137-143 | Every client holding bytes has a key, and every key is a client with a live request |
| InflightBodyBudget.Budget.Arrive | repo/src/config/inflight-body-budget.ts:219-228 | A request whose body fits both bounds is admitted when fewer than ten thousand clients are live or its client already holds bytes, as is every body of the default sizing's fair case; one that breaks a bound, or comes from a new client while ten thousand others hold bytes, is refused; a refusal changes nothing, and an admission opens one reservation |
| InflightBodyBudget.Budget.Reserve | repo/src/config/inflight-body-budget.ts:227-228 | Both counters still equal the sums over the live requests after booking one more |
| InflightBodyBudget.Budget.Release | repo/src/config/inflight-body-budget.ts:241-251 | The first call removes exactly this request from the account, at its current reservation; any later call changes nothing; no key is added |
| InflightBodyBudget.Budget.GiveBack | repo/src/config/inflight-body-budget.ts:247-249 | The client keeps what its other requests reserve, and loses its key when that is nothing |
| InflightBodyBudget.Budget.Terminal | repo/src/config/inflight-body-budget.ts:252-256 | Any of the five terminal events is the release event of the account; after the first, the counters no longer move |
| InflightBodyBudget.Budget.End | repo/src/config/inflight-body-budget.ts:321 | The end of the body disarms the reaper and touches nothing else |
| InflightBodyBudget.Budget.Reprice | repo/src/config/inflight-body-budget.ts:274-284 | Both counters follow a change of one reservation, no client key is added, and the returned total is the client's true sum |
| InflightBodyBudget.Budget.ReconcileUndeclared | repo/src/config/inflight-body-budget.ts:273-295 | The request is dropped exactly when its repriced reservation breaks a bound; a drop gives back all of the repriced reservation, and otherwise the account holds the new price |
| InflightBodyBudget.Budget.Progress | repo/src/config/inflight-body-budget.ts:306-313 | The branch of a poll that saw new bytes reprices, resets the stall clock and disarms once a declared body is all in |
| InflightBodyBudget.Budget.PollTick | repo/src/config/inflight-body-budget.ts:297-319 | A tick is the poll event of the account, keeps the invariant, reports whether the request was dropped, and never adds a client key |
| InflightBodyBudget.SummarisesAfterRemove | repo/src/config/inflight-body-budget.ts:245-250 | Giving back a reservation and deleting a client at zero keeps both counters equal to the sums, and leaves a key only for clients with a live request |
| InflightBodyBudget.HolderIsTracked | repo/src/config/inflight-body-budget.ts:247-284 | A live request with a non-zero reservation has its client in the map, so the fallback of the release never fires for one and repricing never inserts a key |
| InflightBodyBudget.NothingLeaks | repo/src/config/inflight-body-budget.ts:137-143 | With no live request the aggregate is 0 and the client map is empty |
| StallReaper.ReapedMeansSilent | repo/src/config/inflight-body-budget.ts:306-318 | A request reaped at t received no byte in the STALL_TIMEOUT_MS before t, so any progress resets the clock; its message was not complete, and a declared body had not fully arrived |
| StallReaper.SilentMeansReaped | repo/src/config/inflight-body-budget.ts:297-319 | Once the bytes of an armed, incomplete request stop, some poll within STALL_TIMEOUT_MS plus two poll gaps reaps it, and none before does |
| StallReaper.StalledRequestIsReaped | repo/src/config/inflight-body-budget.ts:258-319 | The same bound counted from the admission of any body-carrying request |
| StallReaper.StalledRequestLeavesTheRun | repo/src/config/inflight-body-budget.ts:241-319 | In every run of the account, among any other requests: once a request's bytes stop at T it holds nothing from T + STALL_TIMEOUT_MS + two poll gaps on, whether reaped, shed or ended |
| Retry.Backoff | repo/sdk/go/retry.go:112-128 | The loop with int64 wrap-around; never above a positive cap, and min(base * 2^attempt, cap) whenever its doublings end before they wrap |
| Retry.BackoffIsPromisedIff | repo/sdk/go/retry.go:110-128 | Every delay up to an attempt is the documented one if and only if the last doubling fits in an int64 or some doubling on the way lies between the cap and 2^63 |
| Retry.BackoffIsAlwaysPromisedIff | repo/sdk/go/retry.go:110-128 | For every attempt there could be, if and only if there is a cap and some doubling meets it below 2^63 |
| Retry.NeverWrapsInClosedForm | repo/sdk/go/retry.go:117-124 | That condition in terms of base * 2^i |
| Retry.SmallCapNeverWraps | repo/sdk/go/retry.go:117-124 | It holds for any attempt count when the base is below 2^62 ns and the cap at most 2^62 ns |
| Retry.DelayGrows | repo/sdk/go/retry.go:110-128 | The promised delay never falls as the attempt number rises |
| Retry.RoundTrip | repo/sdk/go/retry.go:151-216 | At most max(0, MaxRetries) + 1 attempts; which ones are followed by another, and how the call ends, is settled by method, status, cancellation and rewind; what each attempt sends and how long each wait is; a non-idempotent request takes effect at most once if 429 and 503 mean it was declined |
| Retry.GivesUpOnlyWhenSpent | repo/sdk/go/retry.go:166-189 | A call that returns a status its policy lists, or a network failure, for GET, HEAD, OPTIONS, PUT or DELETE has made max(0, MaxRetries) + 1 attempts; any other method so for a listed 429 or 503 |
| Retry.RetriedOnlyAfter | repo/sdk/go/retry.go:166-212 | An attempt is followed by another one only after a listed status or a network failure that is no cancellation, for other methods only after a listed 429 or 503, and never once the caller stopped waiting |
| Retry.StopsEarlyOnlyWhen | repo/sdk/go/retry.go:156-213 | The two other endings need a rewind that failed, or a caller who stopped waiting before a retry was due |
| Retry.FirstDelay | repo/sdk/go/retry.go:112-128 | The first delay is the base, 200 ms for none, and the cap where that is less |
| Retry.RetryAfterIsHonoured | repo/sdk/go/retry.go:192-199 | A longer Retry-After is the wait when the policy honours it, and the backoff is in every other case |
| Retry.OnlyDeclinedAttemptsRepeat | repo/sdk/go/retry.go:166-187 | Every attempt of a non-idempotent request that is followed by another one had no effect |
| Retry.AtMostOnce | repo/sdk/go/retry.go:30-52 | For every policy and every sequence of server answers, a non-idempotent request takes effect at most once if 429 and 503 mean it was declined |
| Retry.AtMostOnceIff | repo/sdk/go/retry.go:22-52 | With that assumption, every call takes effect at most once if and only if the method is non-idempotent or the policy has no retries |
| Retry.AtMostOnceUnconditionallyIff | repo/sdk/go/retry.go:22-52 | With nothing assumed of the server, if and only if the policy has no retries, or the method is non-idempotent and the policy retries neither 429 nor 503 |
| Retry.SameBodyEveryAttempt | repo/sdk/go/retry.go:154-162 | Over all servers, every attempt carries the caller's bytes if and only if the body can be rewound, is empty, or the policy and method allow no second attempt |
| Text.CountAround | repo/scripts/patch-wwebjs-status.js:119-121 | Around a site of a needle it cannot overlap, occurrences add up |
| Text.CountOwn | repo/scripts/patch-wwebjs-status.js:119-121 | A site of a needle that cannot overlap itself counts exactly once |
| Text.CountThroughReplaceAll | repo/scripts/patch-wwebjs-participant-arity.js:112 | Split-and-join clears its own needle and leaves every needle it cannot overlap counted as before |
| Edits.EditIsReversible | repo/scripts/patch-wwebjs-participant-arity.js:108-115 | Replacing the replacement by its find restores the source character for character, by `replace` and by split-and-join alike |
| Edits.EditsCommute | repo/scripts/patch-wwebjs-status.js:148-160 | Two edits whose texts cannot overlap give the same text in either order |
| Edits.RewritePatches | repo/scripts/patch-wwebjs-status.js:156-160 | A list of edits turns every find count to 0 and every replacement count to 1 |
| Edits.RewriteIsReversible | repo/scripts/patch-wwebjs-status.js:156-160 | A list of edits loses nothing else: undoing it gives the original source |
| GroupPatcher.ResolveGroups | repo/scripts/patch-wwebjs-status.js:148-171 | The loop computes the resolution of the groups, or an error exactly when some group has an unknown shape in the text the earlier ones left |
| GroupPatcher.ResolvesIffKnown | repo/scripts/patch-wwebjs-status.js:148-171 | The groups resolve if and only if each of them is wholly in the file, or wholly absent with every find once, however many edits it has |
| GroupPatcher.ReportsByShape | repo/scripts/patch-wwebjs-status.js:145-175 | Exactly the absent groups are reported as applied and the others as skipped, each in order |
| GroupPatcher.SourceFile.Apply | repo/scripts/patch-wwebjs-status.js:140-176 | Succeeds exactly when the file exists and every group has a known shape, and then each find occurs nowhere and each replacement once; an error leaves the file as it was; nothing is written when nothing was applied |
| GroupPatcher.IsAppliedMeansStandDown | repo/scripts/patch-wwebjs-status.js:129-138 | For every source, the startup guard holds if and only if an apply would skip every group and write nothing |
| GroupPatcher.ResolvePatchesAll | repo/scripts/patch-wwebjs-status.js:148-171 | For every source an apply accepts, every group is patched afterwards, later groups leaving earlier ones alone |
| GroupPatcher.ApplyIsIdempotent | repo/scripts/patch-wwebjs-status.js:140-176 | A second apply skips every group and writes nothing |
| ReadySyncPatcher.AppliableIsUnpatched | repo/scripts/patch-wwebjs-ready-sync.js:79-83 | Counting finds with the replacements cut out accepts exactly the sources in which each find occurs once and no replacement does |
| ReadySyncPatcher.ApplyInOccurrences | repo/scripts/patch-wwebjs-ready-sync.js:79-124 | What standing down, applying and refusing mean in plain occurrence counts |
| ReadySyncPatcher.SourceFile.Apply | repo/scripts/patch-wwebjs-ready-sync.js:98-125 | Stands down exactly when the file exists and the startup guard holds, with every replacement in it once; rewrites exactly the files with every find once and no replacement, leaving every replacement once; a file that lacks both texts of an edit is refused; an error leaves the file alone |
| ReadySyncPatcher.OwnResidue | repo/scripts/patch-wwebjs-ready-sync.js:79-91 | After an edit, what is left of its find with the replacement cut out is what was left of the original with the find cut out |
| ReadySyncPatcher.OtherResidue | repo/scripts/patch-wwebjs-ready-sync.js:79-91 | An edit elsewhere changes neither another site nor what is left without it |
| ReadySyncPatcher.AppliedIffCutsAreClean | repo/scripts/patch-wwebjs-ready-sync.js:85-117 | After a successful apply the guard holds and a second apply stands down if and only if cutting no find out of the original creates a new one, also for replacements that contain their own find |
| ReadySyncPatcher.NestedIsAppliable | repo/scripts/patch-wwebjs-ready-sync.js:98-119 | Wrapping a second copy of one find around the first keeps a source one the patcher takes |
| ReadySyncPatcher.CutCanCreateFind | repo/scripts/patch-wwebjs-ready-sync.js:85-124 | For any harmonious list and any source it applies to, the source so wrapped is applied to as well, does not read as applied afterwards, and a second apply throws |
| ArityPatcher.NormalizeLegacy | repo/scripts/patch-wwebjs-participant-arity.js:108-115 | The rewind loop, action by action, skipping those whose bodies coincide |
| ArityPatcher.GroupChatFile.Apply | repo/scripts/patch-wwebjs-participant-arity.js:143-182 | Succeeds exactly when the rewound file resolves; an error leaves the file as it was; nothing is written when nothing was applied, not even a rewind |
| ArityPatcher.NormalizeUndoesLegacy | repo/scripts/patch-wwebjs-participant-arity.js:99-115 | Rewinding a legacy-patched tree gives the pristine source with only the coinciding edits in place |
| ArityPatcher.PristineIsPatchedWhole | repo/scripts/patch-wwebjs-participant-arity.js:143-182 | Every pristine source gets every group, and nothing is rewound in it |
| ArityPatcher.UpgradeIsExact | repo/scripts/patch-wwebjs-participant-arity.js:78-115 | For every pristine source, upgrading its legacy-patched version gives the same text as patching the pristine one; actions with coinciding bodies are skipped and the others applied |
| ArityPatcher.RewindShows | repo/scripts/patch-wwebjs-participant-arity.js:108-115 | A rewind that changed anything leaves a find behind |
| ArityPatcher.NoSilentRewind | repo/scripts/patch-wwebjs-participant-arity.js:151-181 | When nothing was applied, the rewind had changed nothing, so not writing the file loses nothing |
| ArityPatcher.ArityApplyIsIdempotent | repo/scripts/patch-wwebjs-participant-arity.js:143-182 | For every source an apply accepts, a second one rewinds nothing, applies nothing and writes nothing |
| ArityPatcher.StandsDownIffAppliedAndClean | repo/scripts/patch-wwebjs-participant-arity.js:134-141 | An apply stands down if and only if the guard holds and no upstream or rewindable legacy body is left in the file |
| ArityPatcher.GuardedApplyRefusesIff | repo/scripts/patch-wwebjs-participant-arity.js:134-174 | On a file that reads as applied, an apply throws if and only if an upstream or rewindable legacy body is left over; it never rewrites one |
| ArityPatcher.GuardMissesLeftovers | repo/scripts/patch-wwebjs-participant-arity.js:134-174 | Any file that reads as applied still does with one find appended, and then an apply throws |
| WebVersion.PickSettledWebVersion | repo/src/engine/wa-web-version.ts:111-127 | Returns the newest settled, unexpired, non-beta build, the earliest listed among equals, and the registry's current build exactly when none qualifies |
| WebVersion.PickIsUnique | repo/src/engine/wa-web-version.ts:104-127 | At most one entry can be that build |
| WebVersion.AnswerIsBestKnown | repo/src/engine/wa-web-version.ts:104-152 | What an answer is worth is the newest listed build that is no beta, not expired and at least twelve hours old; without one, the registry's current build if it starts with a digit; and nothing for a failed fetch |
| WebVersion.Resolver.Resolve | repo/src/engine/wa-web-version.ts:136-172 | A caller gets the cached build, joins the one outstanding fetch, gets null within the back-off of the last failure, or starts a fetch, and in no other case does one start; the history stays one fetch at a time, backed off after failures and closed by a success |
| WebVersion.Resolver.Settle | repo/src/engine/wa-web-version.ts:142-170 | Everyone who joined gets the one result, the best build the answer knows, which exists whenever one qualifies; a build is cached for good, anything else starts a back-off, and the history keeps its shape |
| WebVersion.OneFetchAtATime | repo/src/engine/wa-web-version.ts:138-168 | Read off the histories those two methods keep: between two fetch starts lies the failure of the first |
| WebVersion.FetchesAreRateLimited | repo/src/engine/wa-web-version.ts:139-166 | The k-th fetch starts at least k back-offs after the first, however many callers there are |
| WebVersion.SuccessIsFinal | repo/src/engine/wa-web-version.ts:137-155 | Likewise: nothing follows a success in the history, and the cache holds that build |
| Archive.Store.UpsertMessage | bridge/app/db.py:96-132 | One row per id, holding every field given and the time; an existing row keeps the rest, and a new one gets its key, its creation time and the insert-only fields; without an id a row is appended |
| Archive.Store.UpdateStatus | bridge/app/db.py:134-144 | A stored message ends with the status given, each extra field given and the time, and keeps every other field; an unknown one changes nothing and is reported as such |
| Archive.Store.SetFields | bridge/app/db.py:151-162 | A stored message ends with every field given and the time, and keeps the rest; with no field given nothing is written, not even a time |
| Archive.Store.ClaimMedia | bridge/app/db.py:164-179 | Won exactly on an existing unclaimed row, which can then never be won again |
| Archive.Store.RecordMedia | bridge/app/db.py:181-187 | Sets the media of an existing row and nothing else |
| Archive.UpsertedField | bridge/app/db.py:111-132 | The value an upsert leaves: the known new one, else the row's own, else the insert-only one |
| Archive.RowsOnlyGrow | bridge/app/db.py:96-187 | Over any run of any handlers no write removes a row, or a field from a row |
| Archive.StepKeepsSurplus | bridge/app/main.py:1031-1042 | No step changes the balance between claims won for a message and the claim mark on its row |
| Archive.EnrichSpawnsOnce | bridge/app/main.py:1016-1042 | Over any run, redeliveries and interleavings included, at most one enrich task is claimed or spawned per message |
| Archive.EnrichSpawnsExactlyOnce | bridge/app/main.py:1008-1042 | Once a handler has stored a message and tried the claim, whatever else ran, exactly one claim was won, and exactly one task was spawned when no winner still waits to spawn |
| Archive.StatusMovesOnlyByReceipts | bridge/app/main.py:1005-1071 | The status of an existing row changes only on ack, failed, revoked or edited deliveries for it: never by a redelivered message, a send or an action |
| Archive.StatusIsLastReceipt | bridge/app/main.py:1044-1071 | Over any run, the status of an existing row is the one its last ack or failure, revocation or edit gave it |
| Archive.DeliveryIsStored | bridge/app/messages.py:105-141 | The row after a delivery has its direction, sender, recipient, text and time, keeps what the delivery lacks, and a new one starts as received or sent |
| Archive.DeliveryDetailsAreStored | bridge/app/messages.py:105-141 | The same for kind, group, media and contact details and the raw payload |
| Archive.SendIsStored | bridge/app/main.py:372-387 | The row after a send is outbound, from the API, with its chat, text and kind; status and time stay those of an existing row |
| Archive.SendExtrasAreStored | bridge/app/main.py:514-534 | And with what its kind of send adds: media, quote, forward, location, contact or poll |
| Archive.ChangeGives | bridge/app/main.py:660-830 | Which fields each action writes: reaction, edited text and history, deletion, star, pin and unpin |
| Archive.ChangeIsStored | bridge/app/main.py:621-629 | An action leaves exactly those values in the message it acted on, and nothing where there is no such message |
| Archive.SendAndWebhookCommute | bridge/app/main.py:372-387 | The record of a send and its message.sent webhook, in either order, leave the same status; the same fields if and only if the webhook carries a timestamp or the row existed, and then the same timestamp |
| Bridge.Handlers.OnMessage | bridge/app/main.py:1005-1042 | The handler's store calls are one upsert and, when there is something to enrich, one claim with its spawn; a task is spawned exactly when wanted and the row was never claimed |
| Bridge.Handlers.OnReceipt | bridge/app/main.py:1044-1051 | A receipt with an id and a status is one status step, after which a stored message has that status; any other is none |
| Bridge.Handlers.OnRevoked | bridge/app/main.py:1053-1061 | A revocation of a stored message, by `revokedId` or by `id` without one, leaves it revoked, with the time |
| Bridge.Handlers.OnEdited | bridge/app/main.py:1063-1071 | An edit of a stored message leaves it edited, with the time and the new text, or the old text when none came |
| Bridge.Handlers.RecordMedia | bridge/app/main.py:863-935 | The outcome of a download or a media send ends up in the message it belongs to |
| Bridge.WhoIsEnriched | bridge/app/main.py:1020-1031 | Media is saved for inbound messages, and outbound ones by setting, a number is resolved for an @lid chat without one, and nothing else is enriched |
| Bridge.Handlers.RecordSend | bridge/app/main.py:371-396 | A send is one upsert; the status reported to the caller is the row's own when the webhook came first, else "sent" |
| Bridge.Handlers.RecordChanged | bridge/app/main.py:621-629 | An action is one merge step on a row that exists, and reports whether it does |
| BootMigrations.NextKeepsExclusive | repo/src/database/pg-boot-migrations.ts:55-82 | Every call of every replica, failing or not, and every harmless session loss, leaves a replica inside the lock its holder, or the only one that can be there |
| BootMigrations.NextKeepsProgress | repo/src/database/pg-boot-migrations.ts:62-71 | And leaves the ledger the starting one followed by the first missing migrations in order, with every replica that migrates or is done knowing how far |
| BootMigrations.CompleteIsWholeChain | repo/src/database/pg-boot-migrations.ts:62-64 | A complete ledger lists every migration, and adds each missing one once, in order |
| BootMigrations.BootIsSafe | repo/src/database/pg-boot-migrations.ts:55-82 | From any starting ledger, in every state reached without a session loss by a replica inside that another can still join: at most one replica migrates, the ledger grew by missing migrations in order, a returned factory saw the complete ledger, and a failed one holds no lock, session or open DataSource |
| BootMigrations.NoDeadlock | repo/src/database/pg-boot-migrations.ts:55-82 | While some replica has not finished, some replica's pending call can come back, whatever sessions were lost |
| BootMigrations.EveryBootEnds | repo/src/database/pg-boot-migrations.ts:55-82 | From any starting ledger, whatever fails or is lost and however replicas interleave, a run has at most chain + 9 events per replica, and one that can go no further has every factory returned or thrown and no lock, session or failed DataSource left |
| BootMigrations.ThrewIffCallFailed | repo/src/database/pg-boot-migrations.ts:55-82 | In every run a finished factory threw if and only if initializing, constructing the client, connecting, locking, reading or applying failed, and returned otherwise; a failed unlock or a lost session alone fails nothing |
| BootMigrations.CallsMayFail | repo/src/database/pg-boot-migrations.ts:57-61 | Initializing, connecting and locking may each fail when, and only when, it is their turn |
| BootMigrations.LateCallsMayFail | repo/src/database/pg-boot-migrations.ts:62-72 | And so may the migrations and the unlock, and an open session may be lost |
| BootMigrations.CallsMaySucceed | repo/src/database/pg-boot-migrations.ts:57-79 | Each call may succeed in its turn, the lock only when it is free and the session open |
| BootMigrations.LockChangesHands | repo/src/database/pg-boot-migrations.ts:61-73 | The lock is taken by the lock call alone, and given up by the unlock, the end or the loss of its session |
| BootMigrations.RollbackRestores | repo/src/database/pg-boot-migrations.ts:63-64 | A failed migration that rolls back leaves the ledger as its replica found it |
| BootMigrations.LossBreaksExclusionIff | repo/src/database/pg-boot-migrations.ts:60-72 | In any reachable state, losing a replica's session lets two replicas come to migrate together if and only if that replica is inside the lock and another can still enter |
| PathEscape.RestoreEncoded | repo/sdk/go/client.go:291-296 | The restorer pass never matches across an escaped '%': its whole effect is to leave '@', ':' and '+' unescaped |
| PathEscape.RoundTrip | repo/sdk/go/client.go:288-296 | Percent-decoding an escaped segment gives back the segment, for every byte string |
| PathEscape.StaysInSegment | repo/sdk/go/client.go:288-296 | An escaped segment holds no '/', '?' or '#' |
| PathEscape.PathsAreDistinct | repo/sdk/go/messages.go:133-182 | Different sessions, chats, messages or endpoints never give the same path |
| PathEscape.MessagePathSegments | repo/sdk/go/messages.go:10-182 | Cut at the slashes, a path is api, sessions, the session, messages, the chat, the message and the endpoint, each variable segment decoding to what the caller passed |
| PathEscape.EndpointSegments | repo/sdk/go/messages.go:133-182 | The media path ends in media and the reactions path in reactions |
| Numbers.SuffixOf | bridge/app/numbers.py:32-33 | A suffix found is a known one the value ends with, and none is found only when no known one fits |
| Numbers.ToChatId | bridge/app/numbers.py:16-68 | The imperative normalisation, with its loop over suffixes and its five errors, computes the specification `ChatId` |
| Numbers.ChatIdIsIdempotent | bridge/app/numbers.py:16-68 | Normalising a normalised id changes nothing, for any two country codes |
| Numbers.PhoneOfRecovers | bridge/app/numbers.py:71-78 | For input that is not a jid, `phone_of` recovers 8 to 15 digits that start with the default country code, or exactly what followed the 00 of a number dialled with 00 |
| Numbers.StripCuts | bridge/app/numbers.py:26 | The input is trimmed of white space on both sides, and of nothing else |
| Numbers.DigitsOneByOne | bridge/app/numbers.py:39 | Every decimal digit is kept in its place and every other character dropped |
| Numbers.NumberFromDialled | bridge/app/numbers.py:48-58 | The number is what follows a 00; the dialled digits without a default code, or when they start with it and are ten or more; else the code and the digits less their leading zeros |
| Numbers.Refusals | bridge/app/numbers.py:27-66 | When and why an input is refused: empty, no local part, no digits, fewer than 8 or more than 15 |
| Numbers.JidInAnyCase | bridge/app/numbers.py:30-37 | A jid with one of the five suffixes, in any case, keeps its local part and gets the suffix in lower case |
| Numbers.PhoneOfJid | bridge/app/numbers.py:71-78 | Only a run of digits before c.us or s.whatsapp.net, in any case, is a phone number, and it is that run |

## Left out

- Retry.Backoff: for one single attempt past the first wrap nothing is claimed, since a later wrap may happen to land on the cap; `BackoffIsPromisedIff` is exact for all attempts up to one.
- Retry.RoundTrip: no bound on the total wait, because a Retry-After is not capped by `MaxDelay`. Retry-After is an optional delay in nanoseconds (its date form and the multiplication of its seconds are not modelled), and a spent body stream is the empty string.
- BudgetLedger.ChunkedOnIdleServer: the share is a real number, so the rounding of `budgetBytes * share` for budgets above 2^53 is not modelled. For a half share there is none below that.
- BudgetLedger.DefaultSizingIsFair: says that both bounds hold; a map already at its 10,000 clients still turns a new client away, as `Budget.Arrive` states.
- StallReaper.StalledRequestLeavesTheRun: that a timer fires within a gap of its last tick, or of the admission, is an assumption about the event loop.
- InflightBodyBudget.Budget.PollTick: reads of the socket counter, `req.complete` and the clock are arguments, and two clock reads in one tick are one. What `req.destroy()` does to the socket is not modelled.
- The 415 answer to compressed bodies, writing the 503, header parsing, the two size parsers and the resolution of the client address from forwarding headers: a client is an abstract identity, a body is absent, declared or chunked.
- The closure each admitted request captures is one entry of a map instead of a JavaScript closure object.
- The concrete texts of the patches: finds and replacements are parameters under the overlap conditions above. Replacements are assumed free of the '$' patterns of `replace`, which holds of the shipped ones.
- Files that exist and cannot be read: an absent text stands for both in the guards, and an apply reports it as missing.
- WebVersion.Resolver.Settle: a fetch settles in a later step than it starts, so a fetcher that throws synchronously is not covered; one clock value serves one completion, and the clock is after 1970, since the source reads a failure at time 0 as none.
- The build pin made from a resolved version, and its environment variables.
- Archive.SendAndWebhookCommute: the values of fields both writes carry (body, type, source) follow the last writer and are not claimed equal.
- Archive.EnrichSpawnsExactlyOnce: a process that stops between a won claim and its spawn is a winner that waits for ever; the claim is not given back.
- Bridge.Handlers.OnMessage: signature check, raw event log, the media download itself and building the fields from the payload; a delivery is its stored fields.
- The rows of failed sends, which carry no id and are never merged, beyond the append of `Archive.Store.UpsertMessage`.
- BootMigrations.BootIsSafe: `end()` and `destroy()` are taken to close what they are called on, the lock server to free a lock with its session and to refuse it to a lost one, and other database types take another path. Whether a failed run rolls its earlier migrations back is left open by an event flag. Migrations are numbered, and only boots write the ledger.
- Dot segments ('.' and '..') in paths, which escaping does not touch and which a client or server may resolve.
- Numbers.ChatIdIsIdempotent: text is ASCII; other scripts' digits, spaces and case rules are not modelled, and a country code is a run of digits, as the settings validator demands.
- Delivery-status order (sent, delivered, read): receipts overwrite, so there is no such property to prove.
- The dashboard, SDK service methods, session lifecycle, webhook dispatch, plugins, the other patchers and configuration tables.
