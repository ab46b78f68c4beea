# MemWal relayer: a verified model

MemWal keeps encrypted memories. Clients sign requests to a Rust relayer; the relayer checks the
signature and the delegate key, limits rates, queues uploads to Walrus, keeps a vector table in
PostgreSQL and answers with responses signed by an enclave key that a Move module registers on Sui.
A TypeScript sidecar does the Walrus and Sui work and serves MCP sessions. This project models the
parts of that system that carry state, interleaving or arithmetic, and proves what they keep over
whole runs.

The modules follow the program:

| module | part of the system |
|---|---|
| `RememberDb`, `RememberJobs`, `RememberHandlers` | the asynchronous remember pipeline: tables, the machine of overlapping attempts, the handlers |
| `JobStatus`, `RememberQuota`, `QuotaTightness` | what a poll of a job's status means; the storage quota and how far it can be overshot |
| `JobErrors`, `JobVerdicts`, `Base64` | which failures end a job; the text form in which ciphertexts are queued |
| `Restore`, `RestoreRuns` | restoring a namespace from the chain, once and repeatedly |
| `RateLimit`, `RateWindows`, `RateTightness` | the three sliding windows in Redis, the weight they admit, and when they keep it within the limit |
| `McpRateLimit`, `McpSessions`, `McpDraining`, `McpServer` | the MCP limiter and the life of a session |
| `Nonce`, `CanonicalMessage`, `Ambiguity`, `AccountScan` | admission: window and nonce, signed text, account resolution |
| `EnclaveRegistry`, `EnclaveAuthority`, `EnclaveLedger`, `IntentMessage` | the Move module, and the bytes that the enclave signs |
| `MapConcurrent`, `BlobId`, `KeyPool` | the sidecar's bounded map and blob names; the pool of signing keys |
| `Common`, `ByteOrder` | outcomes, finite sums, quotients, little-endian numbers |

Where the program changes things step by step, a class or a method does so here (`VectorDb`,
`WalletQueue`, `Redis`, `McpRateLimiter`, `Server`, `KeyCache`, `Ledger`, `KeyPool`, the handlers, the
scans and loops). Each of them is proved against a function of the old state; what it answers, and to
whom, is stated outright beside that, and the theorems over runs are about the function. Where several executions interleave, a state machine has one event for the code between
two awaits, and a theorem is about every sequence of events.

## Results that differ from what the code or its comments say

- A job's status is not monotone: it is that of the last status write that arrived
  (`JobStatus.StatusIsLastWrite`), so a job that is done need not stay so (`JobStatus.DoneIsUndone`).
  Migration 005 lists neither this nor pending to failed.
- A rate-limit window can hold more than the limit. One request at a time and one a millisecond, it
  stays within the limit exactly if every request found room for its own weight
  (`RateTightness.RunFitsExactlyWhen`), and limit + 9 is reached
  (`RateTightness.BoundAttainedExactlyWhen`). Requests that share a millisecond are admitted without
  bound if their weight is below the limit (`RateTightness.SameMillisecondIsUnbounded`).
- The quota can be exceeded by all jobs in flight but one, and this is reached; it holds in every run
  exactly if at most one job is in flight (`QuotaTightness.QuotaHoldsExactlyWhen`).
- A nonce lives for 600 seconds, exactly twice the window. That is enough only in whole seconds and
  without lag (`Nonce.ConfiguredTimes`); the comment compares it with the one-sided window.
- An SSE response that closes during authentication keeps its slot (`McpSessions.CloseDuringAuthentication`);
  `McpDraining.AllSlotsBackExactlyWhen` says, by the events of the run, when all slots come back.
- A signed text can stand for two requests when the account id has dots: exactly if a second piece
  between dots fits as a body hash (`Ambiguity.AmbiguousExactlyWhen`); under a path without dots only the
  account header decides (`Ambiguity.DotFreePathExactlyWhen`).
- At VERSION 0 neither `migrate` nor `destroy_old_enclave` goes through
  (`EnclaveRegistry.NothingMigratesAtVersionZero`), and a config can go on naming a destroyed enclave
  (`EnclaveRegistry.AdministratorRunDangles`, `EnclaveRegistry.OwnerRunDangles`).
- Two restores that choose their blobs at the same time index what both store twice
  (`RestoreRuns.TwoRunsAtOnce`).
- Restore deletes nothing in its own namespace, although its comment speaks of clearing old entries
  (`RestoreRuns.CleanupSparesNamespace`).
- A queued ciphertext that is not base64 can never succeed, yet each delivery is to be retried
  (`JobVerdicts.UndecodableIsAlwaysRetried`). The routes queue only base64 text.
- A blob id of at most twenty decimal digits is passed on unconverted, and is then never Walrus's own name
  (`BlobId.ReportedNameIsWalrusName`).

## Model

| member | source | states |
|---|---|---|
| RememberJobs.StepKeepsInvariant | src/relayer/src/jobs.rs:324-469 | Every step of any attempt, delivery, crash, lost write or cleanup keeps: rows equal what was submitted under their id, attempts carry their job's bytes and blob id, done jobs are indexed |
| RememberJobs.InsertKeeps | src/relayer/src/db.rs:72-106 | An insert keeps the invariant whether it is the first, a replay, or comes after its row was cleaned away |
| RememberJobs.DoneMeansIndexed | src/relayer/src/jobs.rs:424-459 | In every run a done job has been indexed under its own id with its owner, namespace, ciphertext length and blob id; only a cleanup of that blob can have removed the row |
| RememberJobs.AtLeastOnceIsExactlyOnce | src/relayer/src/jobs.rs:216-276 | Without cleanups the table and each owner's storage are those of running every indexed job once, in any order |
| RememberJobs.RunOnceRows | src/relayer/src/db.rs:342-353 | Running distinct jobs once stores exactly the bytes they submitted |
| RememberHandlers.ExecuteUploadAndTransfer | src/relayer/src/jobs.rs:324-469 | The tables and result of one attempt for every pattern of failing calls and lost writes: success exactly if text, upload and insert are right, and then the row of the payload under the job's id or a fresh one; otherwise the failure of the first call that fails, and no row |
| RememberHandlers.ExecuteRemember | src/relayer/src/jobs.rs:598-698 | The same for the older handler, which asks the pool for a key between decoding and upload and does not note the upload |
| RememberHandlers.MachineRunsHandler | src/relayer/src/jobs.rs:324-469 | From every reachable state the machine's events of an uninterrupted attempt lead to exactly the tables of the handler and leave all other attempts alone |
| RememberHandlers.FirstFailureDecides | src/relayer/src/jobs.rs:346-459 | For both handlers, with or without a job id: which of the four failures is reported, or success; the one row that success leaves; no other job's row changes, and a last status write that arrives agrees with the result |
| RememberHandlers.ResultTellsWhatHappened | src/relayer/src/jobs.rs:324-469 | The result is success if and only if the attempt's events contain an insert that succeeds; then the job is indexed under the row of its submission. Otherwise it is the failure of the call in which the events end, and nothing is indexed |
| RememberHandlers.RedeliveryUndoesDone | src/relayer/src/jobs.rs:324-469 | A done job that is delivered again, with that delivery running to its end, is done afterwards if and only if the last write of it that arrives says so or none arrives; its row stays |
| JobStatus.StatusIsLastWrite | src/relayer/src/jobs.rs:336-459 | In every run, with crashes, overlaps and lost writes, a job's status is that of the last status write that arrived |
| JobStatus.DoneExactlyWhen | src/relayer/src/jobs.rs:450-459 | A job is done if and only if the last status write to arrive ends an attempt of it |
| JobStatus.DoneIsUndone | src/relayer/migrations/005_remember_jobs.sql:4-9 | A run that reaches a job that is done and may still be delivered, and in which the next delivery makes it running and stops |
| RememberHandlers.CheckStorageQuota | src/relayer/src/rate_limit.rs:299-328 | Accepts exactly if the quota is not positive or the stored bytes plus the new ones are within it; an unreadable table is an error |
| RememberHandlers.QuotaExactlyWhen | src/relayer/src/rate_limit.rs:299-328 | The routes' check passes if and only if the machine's guard does, and the table can be read where a quota is set |
| RememberHandlers.PrepareRememberJob | src/relayer/src/routes.rs:66-130 | A job is queued, with its ciphertext in base64, exactly if nothing before the push fails; any failure, also a lost answer of the push, is noted as failed |
| RememberHandlers.PreparedIsSubmitted | src/relayer/src/routes.rs:86-110 | What reaches the queue is a submission that passed the check, and the worker decodes the bytes whose length was checked |
| RememberHandlers.ExecuteBulkRemember | src/relayer/src/jobs.rs:763-820 | Pushes the items in order, stops at the first push that is not accepted and leaves what it has pushed |
| RememberHandlers.RememberManual | src/relayer/src/routes.rs:520-581 | The first failure decides; otherwise the answer is Walrus's name of the decoded bytes, and one row under a fresh id has it and their length |
| RememberHandlers.MachineRunsManual | src/relayer/src/routes.rs:539-571 | A manual request is, in the machine, a checked submission and one attempt, with the same final tables |
| RememberQuota.QuotaOvershoot | src/relayer/src/rate_limit.rs:299-328 | With at most k jobs in flight of at most S bytes, what checked paths store never exceeds quota + (k - 1) S, nor the quota for k = 1, in any run |
| QuotaTightness.OvershootIsReached | src/relayer/src/routes.rs:86-110 | For every k and every S up to the quota a run with at most k jobs in flight, of at most S bytes each, stores quota + (k - 1) S through checked paths |
| QuotaTightness.QuotaHoldsExactlyWhen | src/relayer/src/rate_limit.rs:299-328 | No run with at most k jobs in flight goes over the quota if and only if k is at most 1 |
| RememberQuota.LoadBounded | src/relayer/src/rate_limit.rs:311-314 | What is stored or may still be stored exceeds what is stored by at most the jobs in flight |
| RememberDb.VectorDb.InsertVector | src/relayer/src/db.rs:72-106 | Upsert of every column under the id |
| RememberDb.VectorDb.DeleteByBlobId | src/relayer/src/db.rs:171-186 | Removes exactly the owner's rows with that blob and counts them |
| RememberDb.VectorDb.GetStorageUsed | src/relayer/src/db.rs:342-353 | The sum of the owner's sizes, in whatever order rows are visited |
| RememberDb.VectorDb.InsertRememberJob | src/relayer/src/db.rs:263-282 | A pending row, unless the id is there |
| RememberDb.VectorDb.TryStatusAndBlob | src/relayer/src/jobs.rs:414-422 | A status write that may be lost and touches nothing but its row |
| RememberDb.UpsertStorage | src/relayer/src/db.rs:83-92 | An upsert changes an owner's storage by the new size less the size it replaces, so a replay changes nothing |
| Base64.DecodeEncode | src/relayer/src/routes.rs:94-94 | Decoding what was encoded gives the bytes back |
| Base64.EncodeDecode | src/relayer/src/jobs.rs:354-354 | The strict decoder accepts only encodings |
| Base64.EncodesInGroups | src/relayer/src/routes.rs:94-94 | The text is the encoding of section 4 of RFC 4648: each group of three bytes as four digits to the base 64, with padding for missing bytes |
| Base64.Alphabets | src/relayer/src/jobs.rs:354-354 | The digits are the letters, the numerals and the two signs of each alphabet, in their order |
| JobErrors.WrappingKeepsVerdict | src/relayer/src/jobs.rs:506-527 | The text a handler puts in front of an error never changes retry into abort or back |
| JobErrors.AbortsOnMoveAbortOnly | src/relayer/src/jobs.rs:506-527 | Lowering and searching finds exactly the markers that stand in the text in any mix of cases; a Move abort without a lock ends the job |
| JobVerdicts.AbortsExactlyWhen | src/relayer/src/jobs.rs:346-448 | For every failure of the handler: the job ends if and only if the part of the text that another program wrote reports a Move abort and no lock; none of the program's own text matters |
| JobVerdicts.DeliveryAbortsExactlyWhen | src/relayer/src/jobs.rs:324-469 | The same for a delivery: it ends the job only after decoding |
| JobVerdicts.UndecodableIsAlwaysRetried | src/relayer/src/jobs.rs:353-369 | For every text that is not base64, every delivery fails whatever else goes well, indexes nothing, and is to be retried, for each error of the decoder |
| Restore.Restore | src/relayer/src/routes.rs:999-1219 | For every behaviour of chain, Walrus, SEAL, embedding and database: which blobs are indexed with which rows, restored at most selected, skipped + selected = total, and what a failed insert leaves |
| Restore.DownloadAll | src/relayer/src/routes.rs:1082-1106 | Passes on exactly the blobs with data and deletes the owner's rows of expired ones |
| Restore.DecryptUnordered | src/relayer/src/routes.rs:1129-1165 | With three decryptions under way, or all if there are fewer, and any order of finishing, passes on exactly the blobs that decrypt |
| Restore.EmbedAll | src/relayer/src/routes.rs:1169-1189 | Passes on exactly the texts that are embedded |
| Restore.InsertAll | src/relayer/src/routes.rs:1192-1205 | Rows under fresh ids up to the first insert that fails; the size looked up is that of the downloaded ciphertext |
| RestoreRuns.RunEffect | src/relayer/src/routes.rs:1108-1205 | In a run, also one cut short by a failed insert: no indexed blob is inserted again, no row of the namespace is lost, and every new row has its ciphertext's length, never the default, and the embedding of the text that this ciphertext decrypts to |
| RestoreRuns.CleanupSparesNamespace | src/relayer/src/routes.rs:976-985 | Expired blobs never cost the namespace a row |
| RestoreRuns.CleansExpiredOnly | src/relayer/src/routes.rs:976-1097 | A row goes in the cleanup if and only if it is the owner's, its blob was selected and is no longer on Walrus, and the deletion succeeded |
| RestoreRuns.RunKeepsOneRowPerBlob | src/relayer/src/routes.rs:1051-1064 | On distinct ids a blob has at most one row in the namespace after a run if it had before |
| RestoreRuns.IndexedStorage | src/relayer/src/routes.rs:1108-1112 | Restored rows add exactly their ciphertext lengths to the owner's storage |
| RestoreRuns.ExistingAfterRun | src/relayer/src/db.rs:137-152 | After a run the indexed blobs are those from before and the results |
| RestoreRuns.CompleteRunIndexesLatest | src/relayer/src/routes.rs:1053-1064 | When everything can be fetched a run indexes exactly the last `limit` missing blobs, whatever order the stages finish in |
| RestoreRuns.ExactlyCeilRuns | src/relayer/src/routes.rs:1053-1064 | Everything listed is indexed if and only if at least ceil(missing / limit) such runs were made |
| RestoreRuns.NothingToRestore | src/relayer/src/routes.rs:1070-1078 | Once everything listed is indexed a run restores nothing and changes nothing, whatever it meets |
| RestoreRuns.LateRunDuplicatesExactlyWhen | src/relayer/src/routes.rs:1052-1205 | When others write between the lookup and the inserts, a blob gets two rows if and only if one that the run stores has been indexed meanwhile |
| RestoreRuns.TwoRunsAtOnce | src/relayer/src/routes.rs:1052-1205 | Two runs that looked at the same time index a blob twice if and only if they store one in common |
| RestoreRuns.TwoRunsCountTwice | src/relayer/src/routes.rs:1108-1205 | Both runs add all their ciphertext lengths to the owner's storage |
| RateLimit.EndpointWeight | src/relayer/src/rate_limit.rs:93-102 | Every path weighs between 1 and 10 |
| RateLimit.CostlierWeighsMore | src/relayer/src/rate_limit.rs:89-101 | The weights follow the cost of the endpoints, from analyze with 10 down to unlisted paths with 1 |
| RateLimit.Redis.CheckWindow | src/relayer/src/rate_limit.rs:126-139 | Prunes the key's set and counts what is left |
| RateLimit.Redis.RecordInWindow | src/relayer/src/rate_limit.rs:143-161 | Adds the weighted scores and sets the expiry |
| RateLimit.Redis.Middleware | src/relayer/src/rate_limit.rs:199-289 | For one request that runs alone, whichever Redis commands fail: it passes if and only if each layer whose check was answered has fewer members than that layer's own limit after pruning; a rejection names the first layer that has not; and the state of every key |
| RateLimit.NamesDistinct | src/relayer/src/rate_limit.rs:226-265 | The three layers of a request use three keys that no other layer uses |
| RateLimit.PassedRequestSteps | src/relayer/src/rate_limit.rs:229-286 | A request that passes takes the machine of each key through one check and one record, with the same effect as the middleware |
| RateLimit.RequestStepsMachines | src/relayer/src/rate_limit.rs:225-286 | With answered commands a request passes if and only if the machines of its three keys all admit it, each under its own limit; it is then one check and one record of each, and otherwise a check of each layer up to the first that does not admit it |
| RateLimit.CountIsWindow | src/relayer/src/rate_limit.rs:126-161 | In every run the count from the pruned, expiring set is the number of members ever recorded in the window |
| RateLimit.SetBounded | src/relayer/src/rate_limit.rs:225-286 | With at most j requests between check and record a set never exceeds limit - 1 + 10 j |
| RateLimit.LayersProper | src/relayer/src/rate_limit.rs:227-286 | The three configured windows and expiries meet the assumptions of these theorems |
| RateWindows.OverlapWeightBound | src/relayer/src/rate_limit.rs:199-289 | Checks in order and no two admissions in a millisecond: the weight in any window is at most limit - 1 + 10 j |
| RateWindows.WindowWeightBound | src/relayer/src/rate_limit.rs:199-289 | One request at a time: at most limit + 9; denied requests may share a millisecond with admitted ones |
| RateTightness.ComesAboutExactlyWhen | src/relayer/src/rate_limit.rs:126-161 | The logs of admissions that runs in order leave are exactly those in which each request found fewer members than the limit |
| RateTightness.FitsExactlyWhen | src/relayer/src/rate_limit.rs:225-286 | No window of such a log goes over the limit if and only if each request found room for its own weight |
| RateTightness.RunFitsExactlyWhen | src/relayer/src/rate_limit.rs:225-286 | The same for whole runs |
| RateTightness.BoundAttainedExactlyWhen | src/relayer/src/rate_limit.rs:93-102 | Some run admits limit + 9 in one window if and only if the window has room for it at ten a millisecond |
| RateTightness.BoundWithoutDistinctExactlyWhen | src/relayer/src/rate_limit.rs:151-155 | Without distinct milliseconds limit + 9 bounds every run in order if and only if the limit is at most 1 |
| RateTightness.SameMillisecondIsUnbounded | src/relayer/src/rate_limit.rs:151-155 | Two or more requests of one weight and one millisecond are all admitted, one after the other, if and only if the weight is below the limit |
| McpRateLimit.McpRateLimiter.Acquire | src/relayer/scripts/mcp/rateLimit.ts:105-135 | The new state and answer, with the in-place pruning that a denial also does |
| McpRateLimit.McpRateLimiter.Release | src/relayer/scripts/mcp/rateLimit.ts:143-151 | Both counts go down, not below zero; a record without use is deleted |
| McpRateLimit.ReleaseFn.Call | src/relayer/scripts/mcp/rateLimit.ts:158-165 | The first call releases, later ones do nothing |
| McpRateLimit.IpState.DropOld | src/relayer/scripts/mcp/rateLimit.ts:113-117 | Keeps exactly the opens after the cutoff, in order |
| McpRateLimit.StepKeepsInvariant | src/relayer/scripts/mcp/rateLimit.ts:105-151 | A record holds the end of its address's log of opens, and what it dropped is a minute old |
| McpRateLimit.BurstBound | src/relayer/scripts/mcp/rateLimit.ts:105-151 | In every run the (n+N)-th open of an address is at least a minute after the n-th, every minute holds at most N, and the live counts stay within their caps |
| McpRateLimit.AdmitsExactlyWhen | src/relayer/scripts/mcp/rateLimit.ts:105-135 | In every reachable state an open is admitted if and only if no cap is reached and the last minute of the whole history holds fewer than N opens; otherwise the first cap reached is the reason |
| McpRateLimit.ReleaseTakesOne | src/relayer/scripts/mcp/rateLimit.ts:143-151 | A release takes one session off the address and the total and leaves other addresses alone; the address is forgotten if and only if nothing of it is active or remembered |
| McpRateLimit.RetryAfterIsExact | src/relayer/scripts/mcp/rateLimit.ts:121-128 | The advice lies in 1..60, waiting that long makes the burst test pass, one second less does not |
| McpSessions.StepKeepsInvariant | src/relayer/scripts/mcp/index.ts:111-389 | Every segment of a handler and every callback keeps the counts equal to the closures not yet called |
| McpSessions.SlotsConserved | src/relayer/scripts/mcp/index.ts:120-206 | In every interleaving total = sum per address = closures not called, and a closure that is called always finds its slot |
| McpDraining.AllSlotsBackExactlyWhen | src/relayer/scripts/mcp/index.ts:315-389 | When all handlers have ended the total is zero if and only if each SSE session closed after its authentication and each initialized streamable one closed at any time or its request threw |
| McpSessions.CloseDuringAuthentication | src/relayer/scripts/mcp/index.ts:130-201 | A run in which the response closes before the callbacks are set and the slot stays taken |
| McpSessions.LiveSessionsBounded | src/relayer/scripts/mcp/index.ts:333-389 | Live sessions exceed the cap only by those whose opening request threw or whose transport had closed, and these hold no slot |
| McpSessions.SessionsBurstBound | src/relayer/scripts/mcp/index.ts:111-389 | Sessions obey the burst limit of their address |
| McpServer.Server.TotalActive | src/relayer/scripts/mcp/rateLimit.ts:168-176 | After any segments the count is the number of closures still to be called, within the cap |
| McpServer.Server.ReleaseSlot | src/relayer/scripts/mcp/index.ts:130-130 | The closure gives its slot back once |
| McpServer.Server.Open | src/relayer/scripts/mcp/index.ts:119-130 | Takes a slot or denies, as the machine's arrival |
| McpServer.Server.Authenticated | src/relayer/scripts/mcp/index.ts:132-207 | Registers the session and its callbacks, or releases the slot |
| McpServer.Server.Connected | src/relayer/scripts/mcp/index.ts:370-388 | A throw releases the slot over streamable HTTP and not over SSE |
| McpServer.Server.SessionInitialized | src/relayer/scripts/mcp/index.ts:334-361 | A new cleanup replaces the close callback |
| McpServer.Server.Handled | src/relayer/scripts/mcp/index.ts:377-388 | Releases the slot if the request threw or no session was initialized |
| McpServer.Server.Closed | src/relayer/scripts/mcp/index.ts:183-201 | Runs the callback that is set, and cleanup once |
| Nonce.WindowIsDistance | src/relayer/src/auth.rs:87-96 | For all 64-bit clocks and timestamps the checked test is the integer distance: no overflow gets through |
| Nonce.Redis.SetNxEx | src/relayer/src/auth.rs:149-157 | Stores a key exactly if it is absent or past its expiry |
| Nonce.Admit | src/relayer/src/auth.rs:87-168 | Passes exactly if the timestamp is in the window and Redis answered that the nonce is new; a failed command rejects |
| Nonce.PassesExactlyWhen | src/relayer/src/auth.rs:87-168 | For all 64-bit times: an attempt passes if and only if its time is within the window, no living nonce is there and Redis answers; one whose answer is lost is rejected and uses its nonce up |
| Nonce.StoredNonceRejects | src/relayer/src/auth.rs:149-168 | In every run a stored nonce, also that of a request rejected for want of an answer, rejects every later attempt until it expires |
| Nonce.EnoughIsSafe | src/relayer/src/auth.rs:144-168 | If the time to live covers the span of the window, the rounding and the lag, no signed request passes twice in any run |
| Nonce.TooShortReplays | src/relayer/src/auth.rs:144-168 | Otherwise the earliest and the latest attempt of one request both pass |
| Nonce.SafeExactlyWhen | src/relayer/src/auth.rs:144-168 | Both directions as one equivalence over all runs |
| Nonce.WholeSeconds | src/relayer/src/auth.rs:144-168 | In whole seconds without lag a time to live of twice the window is sufficient and necessary |
| Nonce.ConfiguredTimes | src/relayer/src/auth.rs:94-154 | 300 and 600 seconds are enough exactly in whole seconds without lag; 601 allow a lag of one tick |
| CanonicalMessage.ParseOfMessage | src/relayer/src/auth.rs:113-132 | A parser recovers every field from the signed text, whatever the path |
| CanonicalMessage.SameMessageSameRequest | src/relayer/src/auth.rs:113-132 | Equal texts if and only if equal fields, a missing account header counting as empty |
| CanonicalMessage.MissingHeaderSignsEmpty | src/relayer/src/auth.rs:113-132 | Without the account header a request signs the text of an empty one |
| Ambiguity.MessagePieces | src/relayer/src/auth.rs:127-132 | Between its dots a signed text has timestamp, method, the path's pieces, body hash, nonce and the account's pieces, in this order |
| Ambiguity.AmbiguousExactlyWhen | src/relayer/src/auth.rs:82-132 | A request shares its text with a different one if and only if, among the pieces between dots, another one of 64 hex digits has a piece before it and a UUID and a piece after it |
| Ambiguity.DotFreePathExactlyWhen | src/relayer/src/auth.rs:127-132 | Under a path without dots this is so if and only if the account header holds such pieces |
| Ambiguity.DotFreeAccountIsSafe | src/relayer/src/auth.rs:127-132 | There an account id without dots is safe |
| Ambiguity.DottedAccountIsAmbiguous | src/relayer/src/auth.rs:127-132 | There a header with such pieces makes any request ambiguous |
| AccountScan.VerifyDelegateKey | src/relayer/src/sui.rs:10-104 | For every account object: its owner if the key is one of its stored keys, KeyNotFound if it is none of them; unreadable objects are errors of their own |
| AccountScan.MatchesExactly | src/relayer/src/sui.rs:74-97 | A stored key, wrapped or not, matches that key and no other |
| AccountScan.AcceptsStoredKeysOnly | src/relayer/src/sui.rs:59-104 | A key is accepted for an account, as its owner, if and only if it is one of the stored delegate keys |
| AccountScan.FailsExactlyWhen | src/relayer/src/sui.rs:51-72 | The check fails for another reason if and only if the object cannot be read, has no owner text or no array of keys |
| AccountScan.ScanPage | src/relayer/src/sui.rs:190-253 | The first verdict among a page's entries |
| AccountScan.FindAccount | src/relayer/src/sui.rs:115-274 | The paged scan returns the first verdict of the registry as one list |
| AccountScan.ScanIsFirst | src/relayer/src/sui.rs:152-273 | KeyNotFound if and only if no place has a verdict; otherwise the verdict of the first that has |
| AccountScan.FindsHolderIffListed | src/relayer/src/sui.rs:152-273 | Without failures an account is found if and only if a listed one holds the key |
| AccountScan.ScanFindsFirstHolder | src/relayer/src/sui.rs:190-253 | Among readable accounts the scan answers with the first that stores the key, with its owner; KeyNotFound if none does |
| AccountScan.FindsStoredKey | src/relayer/src/sui.rs:115-274 | On a readable registry an account is found if and only if some page names one that stores the key; entries without account are passed over |
| AccountScan.FoundIsListedHolder | src/relayer/src/sui.rs:233-251 | An answer is a listed account that holds the key, with its owner |
| AccountScan.NotFoundSawEveryPage | src/relayer/src/sui.rs:255-273 | KeyNotFound only if every page was read, no entry was broken and every account that an entry named lacks the key; entries that name none are passed over |
| AccountScan.HitIsLatestWrite | src/relayer/src/db.rs:192-230 | A lookup answers with the account of the key's latest write, and does so for a day from then on |
| AccountScan.KeyCache.Put | src/relayer/src/db.rs:207-230 | Replaces the key's row for a day |
| AccountScan.ResolveAccount | src/relayer/src/auth.rs:195-266 | The answer by cache, scan and fallback, and what is then in the cache |
| AccountScan.ResolutionIsSound | src/relayer/src/auth.rs:195-266 | Whatever the cache holds, the key is among the stored keys of the answered account now, and the owner is that account's |
| AccountScan.ResolvesExactlyWhen | src/relayer/src/auth.rs:195-266 | When the scan meets no failure, a key resolves if and only if a cached, listed or fallback account holds it |
| AccountScan.CacheNeverRefuses | src/relayer/src/auth.rs:202-224 | A cache row, right or wrong, never makes a key fail that resolves without it |
| AccountScan.TriesInOrder | src/relayer/src/auth.rs:195-266 | A cached account that still has the key answers, else the registry, else the hint's account, or without a hint the configured one; exactly what the cache did not answer is written to it |
| AccountScan.CachedAnswerStays | src/relayer/src/auth.rs:202-266 | What was written gives the same answer for a day, whatever registry and fallback answer by then |
| EnclaveRegistry.StepKeepsInvariant | contracts/nautilus/sources/enclave.move:84-258 | Every transaction keeps the registry invariant; capability ids, histories and dead ids stay, versions do not go down |
| EnclaveRegistry.RunKeeps | contracts/nautilus/sources/enclave.move:84-91 | Over any transactions: config versions never decrease or exceed the greatest VERSION, capability_id never changes, an enclave's config_version is at most its config's version |
| EnclaveRegistry.RegistersExactlyWhen | contracts/nautilus/sources/enclave.move:123-145 | A registration succeeds if and only if cap, PCRs and key are right; then the one new enclave is alive and current, with the document's key, the config's version and the sender as owner |
| EnclaveRegistry.DestroysOldExactlyWhen | contracts/nautilus/sources/enclave.move:208-225 | Through its own config an enclave can be destroyed if and only if that config was migrated since and does not name it |
| EnclaveRegistry.OriginIsRegistration | contracts/nautilus/sources/enclave.move:123-145 | Every enclave goes back to one successful registration in the run |
| EnclaveRegistry.CurrentEnclaveIsAttested | contracts/nautilus/sources/enclave.move:235-258 | The live enclave that a config names was registered under it with a document that has the config's PCRs of now and the enclave's key |
| EnclaveRegistry.CurrentForOneConfig | contracts/nautilus/sources/enclave.move:123-145 | No two configs name the same enclave |
| EnclaveRegistry.UpdatedPcrsRetire | contracts/nautilus/sources/enclave.move:162-172 | After an update of the PCRs no earlier enclave is ever current for the config again |
| EnclaveRegistry.NothingMigratesAtVersionZero | contracts/nautilus/sources/enclave.move:84-91 | While all packages have VERSION 0 no `migrate` and no `destroy_old_enclave` succeeds in any run |
| EnclaveRegistry.BothSucceedAfterUpgrade | contracts/nautilus/sources/enclave.move:208-225 | After an upgrade to 1 both succeed |
| EnclaveRegistry.GoneForever | contracts/nautilus/sources/enclave.move:228-232 | A destroyed enclave never comes back |
| EnclaveRegistry.DestroyOldDangles | contracts/nautilus/sources/enclave.move:208-225 | The given config never loses its current enclave; another config names a dead one afterwards if and only if it named this one |
| EnclaveRegistry.DestroyByOwnerDangles | contracts/nautilus/sources/enclave.move:228-232 | The owner's removal leaves a config naming the dead enclave if and only if it was current there |
| EnclaveRegistry.OwnerRunDangles | contracts/nautilus/sources/enclave.move:228-232 | A run from publication in which this happens |
| EnclaveRegistry.AdministratorRunDangles | contracts/nautilus/sources/enclave.move:208-225 | A run in which the administrator destroys, through a second config, the enclave that the first one names |
| EnclaveAuthority.RemovesExactlyWhen | contracts/nautilus/sources/enclave.move:208-232 | A transaction removes an enclave if and only if it is its owner's call, or presents the cap of a config that does not name it and has a greater version |
| EnclaveAuthority.OwnerAloneSucceeds | contracts/nautilus/sources/enclave.move:228-232 | The owner's call succeeds for the owner alone; any other sender's aborts and changes nothing |
| EnclaveAuthority.ConfigChangesExactlyWhen | contracts/nautilus/sources/enclave.move:84-178 | A config changes if and only if a call for it presents its own cap and meets that call's condition, and then in the fields that the call names, with the values it was given |
| EnclaveAuthority.OtherCapsAbort | contracts/nautilus/sources/enclave.move:251-253 | Each of the five guarded calls aborts with EInvalidCap if and only if the cap is not the config's; no failing call changes anything |
| EnclaveAuthority.LoadPkErrors | contracts/nautilus/sources/enclave.move:255-263 | Entries 0, 1 and 2 of the document are compared in this order with the config's PCRs; then the key is taken |
| EnclaveAuthority.RightCapOutcomes | contracts/nautilus/sources/enclave.move:84-225 | With the right cap each call succeeds, or aborts with its own code, exactly under its own condition |
| EnclaveAuthority.RemovalIsAuthorised | contracts/nautilus/sources/enclave.move:208-232 | Over any run, an enclave that is gone was removed by a call of its owner, or with the cap of a config that had left it behind |
| EnclaveAuthority.SurvivesExactlyWhen | contracts/nautilus/sources/enclave.move:208-232 | An enclave survives a run if and only if no transaction of it is such a call |
| EnclaveAuthority.OwnerIsRegistrant | contracts/nautilus/sources/enclave.move:134-140 | In every run the owner of a live enclave is the sender of the one registration it goes back to |
| EnclaveAuthority.ConfigChangeIsAuthorised | contracts/nautilus/sources/enclave.move:84-178 | Over any run, a config that differs was changed by a successful call that presented the cap of its creation |
| EnclaveLedger.Ledger.constructor | contracts/nautilus/sources/enclave.move:69-81 | What `init` publishes |
| EnclaveLedger.Ledger.CreateEnclaveConfig | contracts/nautilus/sources/enclave.move:101-119 | A config at version 0 bound to the cap, without enclave |
| EnclaveLedger.Ledger.RegisterEnclave | contracts/nautilus/sources/enclave.move:123-145 | The aborts in their order, or a new enclave that the config names |
| EnclaveLedger.Ledger.UpdatePcrs | contracts/nautilus/sources/enclave.move:162-172 | New PCRs and no current enclave |
| EnclaveLedger.Ledger.UpdateName | contracts/nautilus/sources/enclave.move:175-178 | A new name and nothing else |
| EnclaveLedger.Ledger.Migrate | contracts/nautilus/sources/enclave.move:84-91 | The version goes up to VERSION or the call aborts |
| EnclaveLedger.Ledger.DestroyOldEnclave | contracts/nautilus/sources/enclave.move:208-225 | The aborts in their order, or the enclave is gone: exactly with the cap of a config that does not name it and is past its version |
| EnclaveLedger.Ledger.DestroyEnclaveByOwner | contracts/nautilus/sources/enclave.move:228-232 | Succeeds if and only if the sender is the enclave's owner, and then removes that enclave alone |
| EnclaveLedger.Ledger.IsCurrentEnclave | contracts/nautilus/sources/enclave.move:235-242 | A positive answer, after any transactions, vouches for config, PCRs and key of the registration |
| IntentMessage.RoundTrip | src/relayer/src/enclave.rs:50-55 | Every message is read back from its BCS bytes |
| IntentMessage.Layout | src/relayer/src/enclave.rs:31-55 | The signed bytes: scope, the time's eight bytes from the least significant on, length, payload; 42 bytes for a hash |
| IntentMessage.OnlyEncodings | contracts/nautilus/sources/enclave.move:59-63 | Nothing but an encoding can be read, so a message has one byte string |
| IntentMessage.Injective | src/relayer/src/enclave.rs:31-55 | Messages that differ in scope, time or payload have different bytes |
| IntentMessage.VerifiesExactlyWhatWasSigned | contracts/nautilus/sources/enclave.move:149-159 | A signature for the signed bytes alone is accepted for the signed scope, time and hash and no others |
| MapConcurrent.MapConcurrent | src/relayer/scripts/sidecar-server.ts:977-996 | For every schedule: each item is called once, in order; results[i] = fn(items[i]); the greatest number of calls outstanding at once is the smaller of concurrency and n, and none is made for a concurrency of zero or less; it ends |
| MapConcurrent.ResumeStep | src/relayer/scripts/sidecar-server.ts:985-991 | When a call resolves every item called so far has its result or is awaited by the worker that called it |
| BlobId.ConvertCorrect | src/relayer/scripts/sidecar-server.ts:1093-1108 | A decimal of more than twenty digits becomes 43 characters that decode, read little-endian, to the same number |
| BlobId.ConvertInjective | src/relayer/scripts/sidecar-server.ts:1093-1108 | Converted and unconverted names never collide: the map is injective on canonical decimals below 2^256 |
| BlobId.ReportedNameIsWalrusName | src/relayer/scripts/sidecar-server.ts:1096-1096 | The name is Walrus's own if and only if the decimal has more than twenty digits |
| Base64.UrlRoundTrip | src/relayer/scripts/sidecar-server.ts:1103-1103 | Unpadded base64url (section 5 of RFC 4648) decodes to what was encoded |
| KeyPool.KeyPool.Next | src/relayer/src/types.rs:86-92 | The key at the counter, which goes up by one and wraps |
| KeyPool.KeyPool.NextIndex | src/relayer/src/types.rs:96-101 | The index at the counter |
| KeyPool.HandOut | src/relayer/src/types.rs:84-101 | Any k calls of the two kinds on n keys, before the counter wraps, hand out every index floor(k/n) or ceil(k/n) times |

## Assumptions

- Walrus names a blob by its content, so an upload is a function of the bytes that may fail.
- UUIDs of new jobs, rows and requests are fresh; Sui object ids are never used twice.
- The limiters' clocks do not go back; for the Redis windows a request is served less than TTL minus
  window after its time was taken. In the theorems over runs the Redis calls of the rate limiter succeed.
- A job is in flight while the queue may still deliver it or an attempt of it is running.
- The on-chain account does not change while a key is resolved, and the node's cursors end: `steps` bounds
  the pages that are left, as nothing in the scan itself does.
- Constructors of MCP transports and servers do not throw.

## Left out

- Binary rounding of scores in the rate limiter: scores are whole microseconds.
- RateLimit.CountIsWindow: takes the record of a request as one step, because the few commands of its pipeline are sent together; as the pipeline is not atomic, another command or the old expiry could fall between them.
- RateLimit.Redis.Middleware: describes one request that runs alone; overlapping requests are covered key by key by the machine.
- RateWindows.OverlapWeightBound: asks for checks in the order of their times, because a check for a later time prunes what an earlier one would count.
- McpSessions.SlotsConserved: does not cover requests to an existing session and its session-key test, because these take no slot.
- McpRateLimit.BurstBound: does not cover how the address is read from headers and the limits from the environment.
- RememberJobs.DoneMeansIndexed: jobs without a remember job id are left out, because no status names their row and each delivery of one adds a row of its own.
- Expiry of claims, the number of retries, back-off and the stale-job sweeper: the machine lets any live job be delivered again at any time.
- Restore.Restore: has no other writers between its lookup and its inserts; what they change is stated by `RestoreRuns.LateRunDuplicatesExactlyWhen`. Cleanups happen one after the other in list order.
- Nonce.Admit: takes the outcome of signature, key and body checks as given; a restart of Redis that loses keys is not modelled.
- AccountScan.FindAccount: JSON numbers are integers, and transport errors of every kind are one error.
- MapConcurrent.MapConcurrent: does not cover a call that rejects, because the sidecar's use catches errors inside `fn`.
- EnclaveLedger.Ledger.RegisterEnclave: who may present a cap is left to Sui; the theorems hold for every sender.
- Ed25519, SHA-256, SEAL, Walrus and Nitro attestation are arbitrary functions; embedding values, search, recall answers and language-model calls are not modelled.
- HTTP routing, JSON, SQL, the queue library, boot code, proxies, sponsorship and logging.
- KeyPool.HandOut: says nothing about calls on both sides of the counter's wrap at 2^64.
