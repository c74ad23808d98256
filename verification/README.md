# beampipe-core-v2: models and proofs

Dafny models of the protocols and text transformations at the core of beampipe-core-v2, with proofs of what
they promise over all inputs, all runs or all reachable states. `dafny verify dfyconfig.toml` checks everything.

| module | models |
|---|---|
| `TapHealthCache`, `TapHealthAnswers` | the bounded TTL cache of TAP health reports with one lock per entry, as an interleaving step machine; what its callers are answered, said of the events of a run |
| `RateLimit`, `CounterKeys`, `ClientAddress` | the fixed-window limiter on a shared expiring store, its counter keys, and the client address behind proxies |
| `Materialize` | the operator bundle: a three-way merge per file, replacement by temporary file and rename, the manifest written last |
| `TapAsync` | the life of a UWS job, its polling loop, and the retries of both query modes |
| `StartExecution`, `JobLease` | the idempotent start of an execution under races, and the leases under which workers run jobs |
| `Admission`, `AdmissionErrors` | the checks on a new execution and the canonical form that its idempotency hash is taken of; what each complaint means, apart from the order of checking |
| `ShellCommand`, `SetupOptions`, `EnvFile`, `PercentDecode` | printers and parsers: shell quoting, the options of `beampipe setup`, `.env` values, percent-encoded file names |
| `OpenApi` | rewritings of JSON trees: schema references, and sorting by key |
| `Redaction`, `NotificationConfig` | what clients see of a stored configuration, and the merge of what they send back |

`Options`, `Json`, `Runs` and `Text` hold what several modules share: optional values, JSON values, finite runs
of a step function, and splitting, joining and trimming of text.

Code that loops or updates state is a method with loop invariants, proved against a function or a relation that the
lemmas are about; `Materialize.OperatorRoot` is a class with the files, the manifest, the directories and the
temporary files as fields. The four protocols with several participants are step machines on values: an event is one
atomic action of one participant, and the theorems are about every finite sequence of events.

## What the proofs found

Each of these is a lemma with a concrete input, one side of an exact condition, or a case of a specification.

- `TapHealthCache.BusyEvictionDoublesProbes`: with 256 slots in use, a new key evicts a slot in use, and the next
  caller for the evicted key starts a second probe for it. `DoubledExactlyByRejoining` says exactly when a key has
  two entries in use, and `AttachedIffNeverLost` when a caller is left on an entry that was evicted.
- `Materialize.UnreadableEditIsLost`: a managed file that cannot be read counts as absent and is overwritten.
- `Materialize.CrashStrandsFile`: an upgrade that stops before its manifest, followed by an upgrade to another
  bundle, leaves a file that nobody edited at the bundle in between. `UpgradeReachesExactly` says for all histories
  when an upgrade brings a file to the new bundle; completing the interrupted upgrade first settles it.
- `TapAsync.Lifecycle`: a job that was created, but whose creation is answered without a usable `Location`, is never
  deleted; a life cycle without a known job is one request.
- `ShellCommand.CommandRoundTrip`: a free text of the installer form that starts with `~` and needs no quotes is
  expanded by the shell.
- `SetupOptions.CommandIsUnderstood`: a free text of the form that starts with a hyphen passes the form's validation,
  but `beampipe setup` takes it for an option and refuses the command.
- `EnvFile.ReadBackExactly`: an empty value, a name that starts with a digit, and an earlier line in another spelling
  with another value are the cases in which an update is not read back.
- `OpenApi.ReferencesStillResolve`: a reference to something inside an alias schema, rather than to the alias, dangles
  after the rewriting.
- `NotificationConfig.TokenInLinkIsLost`, `NestedSecretIsLost`: a client that sends back what it was shown of
  `{"url": "https://h/x?token=abc"}` or `{"auth": {"token": s}}` overwrites the secret with the placeholder, since the
  merge only knows whole values. `MergingUndoesRedaction` says exactly which configurations survive; a null header
  under a name that is not secret is lost as well.
- `JobLease.RecoveryIgnoresAttempts`: recovery after an expired lease does not look at the attempts, so a job whose
  workers die is claimed without end and never dead-lettered. `AttemptsExceededExactly` says that this is the only
  way, in every run, to exceed the maximum.
- `JobLease.MovingOverfills`: the upsert that re-plans an execution moves its job to another pool even while the job
  runs, and so can put more live leases into a pool than its limit. `CapacityIsKeptExactly` has the exact condition.
- `Admission.DecisionOfNormal`: the response echoes the project module as given, while everything else is trimmed.
- `RateLimit.IntervalBoundIsReached`: an interval of n periods can really admit (n+1) times the limit.

## Assumptions

- SHA-256 is injective, and a rename replaces a file atomically.
- Clock read and `INCR` are one step on a shared clock that never goes back; either command may fail, or be applied
  with its reply lost, and `EXPIRE` may come late.
- A database statement or transaction is one step; generated UUIDs are fresh.
- Replies of services, and how long they take, are arbitrary; sleeps take exactly the time asked for.
- An option of `beampipe setup` that takes a value does not take one that starts with a hyphen, unless it is a single
  hyphen, and no option is given twice; this is how the option parser that it uses treats such lists.
- Address parsing, proxy trust, XML and VOTable parsing, and the reading of `.env` lines that the program does not
  write are arbitrary functions.

## Model

| member | source | states |
|---|---|---|
| TapHealthCache.KeepsInv | crates/beampipe-adapters/src/tap_health.rs:50-97 | every atomic step of any caller, cancellation included, keeps: strong count = 1 if mapped plus the number of callers holding the entry, lock owners hold what they lock, at most 256 slots |
| TapHealthCache.ExecKeepsInv | crates/beampipe-adapters/src/tap_health.rs:50-97 | the same over whole runs |
| TapHealthCache.SingleFlight | crates/beampipe-adapters/src/tap_health.rs:50-97 | in every run in which each insertion into a full map finds an idle slot, all callers active on one key hold the same entry, and at most one of them probes |
| TapHealthCache.SharedUntilLost | crates/beampipe-adapters/src/tap_health.rs:50-97 | the same for one key, as long as this key was not evicted in use |
| TapHealthCache.LosesExactlyWhenDetached | crates/beampipe-adapters/src/tap_health.rs:59-69 | one step evicts a key in use if and only if it takes the entry of the key away from an active caller |
| TapHealthCache.AttachedIffNeverLost | crates/beampipe-adapters/src/tap_health.rs:55-80 | all callers of a key stay on the entry the map has for it, along a run, if and only if the key is never evicted in use |
| TapHealthCache.DoublesExactly | crates/beampipe-adapters/src/tap_health.rs:50-80 | one step gives a key a second entry in use if and only if a caller gets its entry from the map while a holder of an evicted one is active |
| TapHealthCache.DoubledExactlyByRejoining | crates/beampipe-adapters/src/tap_health.rs:50-97 | over every run, a key has two entries in use somewhere if and only if such a step occurs |
| TapHealthCache.TwoProbesAreDoubled | crates/beampipe-adapters/src/tap_health.rs:81-97 | two probes for one key at the same time need two entries in use |
| TapHealthCache.FindingIdleLosesNothing | crates/beampipe-adapters/src/tap_health.rs:59-69 | while every insertion into a full map finds an idle slot, no key is evicted in use |
| TapHealthCache.BusyEvictionDoublesProbes | crates/beampipe-adapters/src/tap_health.rs:59-69 | a run of 258 callers in which one key has two probes in flight |
| TapHealthCache.ServedReportsAreHonest | crates/beampipe-adapters/src/tap_health.rs:85-97 | a returned report was finished by a probe of the run for the caller's key, at the very time its age is counted from, and by the caller itself or less than `ttl` before its freshness check |
| TapHealthCache.BoundedAndCounted | crates/beampipe-adapters/src/tap_health.rs:52-79 | the map never has more than 256 slots; an entry's count is zero exactly if neither the map nor a caller refers to it |
| TapHealthCache.FinishWalk | crates/beampipe-adapters/src/tap_health.rs:50-80 | a caller inside the map gets out of it by its own map steps alone |
| TapHealthCache.LookupNeverWaitsForProbes | crates/beampipe-adapters/src/tap_health.rs:50-85 | from every reachable state, probes running or not, a waiting caller gets through its lookup by map steps only |
| TapHealthCache.SweepKeepsIffUsed | crates/beampipe-adapters/src/tap_health.rs:52-54 | the sweep keeps a slot exactly if it was used within the ttl or a caller refers to it |
| TapHealthCache.ScanFindsOldestIdle | crates/beampipe-adapters/src/tap_health.rs:59-66 | the eviction scan ends with the least recently used idle slot, or none if none is idle |
| TapHealthAnswers.CachedIsLastFinished | crates/beampipe-adapters/src/tap_health.rs:85-97 | in every run, an entry caches the last probe that the run has finished on it, and nothing before the first one |
| TapHealthAnswers.FreshIsServedExactly | crates/beampipe-adapters/src/tap_health.rs:85-97 | over every run: a caller that has the lock leaves with the last probe finished on its entry if and only if there is one and less time than the ttl it arrived with has passed since; otherwise it probes |
| TapHealthAnswers.ProberLeavesWithItsReport | crates/beampipe-adapters/src/tap_health.rs:92-97 | a caller that probes leaves with its own report, for its own key and the present time |
| TapHealthAnswers.AnswersAreFinal | crates/beampipe-adapters/src/tap_health.rs:86-98 | what a caller leaves with is what it returns, whatever happens meanwhile |
| TapHealthAnswers.SecondCallerShares | crates/beampipe-adapters/src/tap_health.rs:55-97 | a caller that arrives after a probe of its key was finished gets that report, and nobody probes in between, as long as the slot keeps its entry and no caller of the key finds the report too old |
| TapHealthAnswers.SlotGoesExactly | crates/beampipe-adapters/src/tap_health.rs:52-69 | over every run, a key loses its slot exactly if a sweep finds it unused by callers and for the ttl of the sweeping one, or it makes room in a map of 256 slots |
| TapHealthAnswers.EveryCallCanFinish | crates/beampipe-adapters/src/tap_health.rs:50-97 | no deadlock: from every reachable state, every caller can be brought to its end |
| RateLimit.ExpiringKeepsCounters | crates/beampipe-api/src/rate_limit.rs:88-92 | no counter expires inside its own window: an EXPIRE that comes late, is lost or fails leaves all counters of the current window alive and right (`CountersExpire` has how long one lives after that) |
| RateLimit.RunKeepsInv | crates/beampipe-api/src/rate_limit.rs:78-96 | in every run, with commands that fail or lose their reply, counters of the current window equal the number of checks counted in it |
| RateLimit.LimitedExactlyAfterLimit | crates/beampipe-api/src/rate_limit.rs:78-96 | a check is limited only if, and unless its reply is lost if, `limit` checks of its subject, path and window were counted before it |
| RateLimit.ChecksAreAsked | crates/beampipe-api/src/rate_limit.rs:78-96 | in every run, the clock shows the time that has passed, and the checks are those that were asked for, each in the bucket of its subject, its path and the window of its time |
| RateLimit.BucketAdmitsItsFirst | crates/beampipe-api/src/rate_limit.rs:78-96 | the first `limit` checks of each subject, path and window are those that are admitted, were counted without a reply, or, at most one, have their EXPIRE outstanding or failed |
| RateLimit.IntervalBound | crates/beampipe-api/src/rate_limit.rs:78-96 | in every run, any interval of n periods admits at most (n+1) times the limit |
| RateLimit.IntervalBoundIsReached | crates/beampipe-api/src/rate_limit.rs:78-96 | the bound is tight for periods above one second: a run reaches it for every n |
| CounterKeys.ReadingUndoesPrinting | crates/beampipe-api/src/rate_limit.rs:85-86 | decimal printing is injective: reading undoes it (`NoLeadingZero` has the form of the digits) |
| CounterKeys.SanitizedPathShape | crates/beampipe-api/src/rate_limit.rs:135-137 | a sanitised request path is empty, or starts with a slash and does not end in one |
| CounterKeys.SanitizingCutsSlashes | crates/beampipe-api/src/rate_limit.rs:135-137 | sanitising cuts the slashes at the end of a path, all of them and nothing else |
| CounterKeys.KeysDoNotCollide | crates/beampipe-api/src/rate_limit.rs:178-188 | equal counter keys have equal subject, sanitised path and window, for subjects without a slash |
| ClientAddress.ClientIp | crates/beampipe-api/src/rate_limit.rs:139-176 | returns the right-most untrusted address of the forwarded hops and the peer, or the left-most if all are trusted; a malformed header has no hops |
| ClientAddress.HopsOfHeader | crates/beampipe-api/src/rate_limit.rs:150-164 | a header written as hops between commas, with blanks around them, has exactly the addresses that the hops stand for; one malformed hop spoils all |
| ClientAddress.ClientIsUnique | crates/beampipe-api/src/rate_limit.rs:139-176 | that specification names one address |
| ClientAddress.PrefixDoesNotMatter | crates/beampipe-api/src/rate_limit.rs:160-175 | once an address of the chain is untrusted, nothing in front of it matters |
| ClientAddress.PrependingHopsChangesNothing | crates/beampipe-api/src/rate_limit.rs:139-176 | the same for the header text: putting well-formed hops in front changes nothing |
| Materialize.OperatorRoot.AtomicWrite | crates/beampipe-cli/src/materialize.rs:186-205 | parents, temporary file, writing character by character, sync and rename, with a failure or stop between any two: the file is the old one or the new one, success means the new one and nothing left behind, and failure leaves at most one temporary file with a first part of the content |
| Materialize.OperatorRoot.WriteTemporary | crates/beampipe-cli/src/materialize.rs:186-202 | a temporary file under a name of its own gets the whole content, or a first part of it on failure, and nothing else changes |
| Materialize.OperatorRoot.MaterializeFile | crates/beampipe-cli/src/materialize.rs:136-172 | one file becomes what the three-way merge says, with its digest; its path is reported as created if it was not there, replaced if it was and has changed, skipped if it has not; a failure or stop leaves it as it was or merged |
| Materialize.OperatorRoot.Install | crates/beampipe-cli/src/materialize.rs:49-134 | a complete run leaves an operator exactly the readable files that are neither shipped nor remembered, brings every other path of the bundle to its content, touches nothing else, reports each path as created, replaced or skipped by what became of it, and writes a manifest with exactly the paths and digests of the bundle; wherever it stops, the files are those of a prefix under the old manifest, or of all under the new one, and at most one part of a file or manifest is left over; `bundle_current` holds exactly if every bundle path holds its content |
| Materialize.OperatorRoot.InstallFiles | crates/beampipe-cli/src/materialize.rs:66-131 | the loop over the files: after success the merge of all with digests, and a report whose lists split the bundle by what was there before and what is there now; else the merge of a prefix |
| Materialize.TellsOfEach | crates/beampipe-cli/src/materialize.rs:158-168 | each path of a bundle is in exactly one list, by what became of its file |
| Materialize.PathsInOrder | crates/beampipe-cli/src/materialize.rs:66-131 | each list is in the order of the bundle, and names no path twice |
| Materialize.AfterBecame | crates/beampipe-cli/src/materialize.rs:145-170 | the merges of a prefix, one after the other, give each of its paths the shipped content, but for readable files without force that the manifest does not remember, and leave all other paths alone |
| Materialize.ManifestLists | crates/beampipe-cli/src/materialize.rs:170-184 | the manifest that is written has the present schema and names exactly the files of the bundle |
| Materialize.AfterAt | crates/beampipe-cli/src/materialize.rs:145-170 | each path is merged once, from what it held at the start, whatever the other files are |
| Materialize.AfterOutside | crates/beampipe-cli/src/materialize.rs:66-131 | paths outside the bundle are not touched |
| Materialize.RestartContinues | crates/beampipe-cli/src/materialize.rs:49-134 | stopping after any prefix and running again, even to stop again, gives the files of one longer run |
| Materialize.CompletedIsIdempotent | crates/beampipe-cli/src/materialize.rs:49-134 | after a complete run, the same bundle changes nothing |
| Materialize.RecordedWasShipped | crates/beampipe-cli/src/materialize.rs:170-184 | over any history of installs, crashes and edits, the manifest only names content that was shipped for the path |
| Materialize.OverwritesExactlyWhen | crates/beampipe-cli/src/materialize.rs:149-159 | a run overwrites a readable file exactly if forced, or the file is what the last manifest recorded and not yet what is shipped |
| Materialize.EditsSurvive | crates/beampipe-cli/src/materialize.rs:149-168 | over any history, a non-forced upgrade to any bundle, complete or crashed, leaves content alone that was never shipped for its path |
| Materialize.UnreadableEditIsLost | crates/beampipe-cli/src/materialize.rs:147-159 | the counterexample for files that cannot be read |
| Materialize.UneditedIsNewest | crates/beampipe-cli/src/materialize.rs:136-172 | a path in every bundle that nobody edits holds the content of the newest bundle |
| Materialize.CrashStrandsFile | crates/beampipe-cli/src/materialize.rs:97-134 | the counterexample with a crash between two upgrades |
| Materialize.UneditedIsAheadOrNewest | crates/beampipe-cli/src/materialize.rs:49-172 | over every history with crashes and forced runs, a file that completed installations always ship and nobody edits is the newest completed bundle's, unless an interrupted installation has put it ahead of the manifest |
| Materialize.UpgradeReachesExactly | crates/beampipe-cli/src/materialize.rs:49-172 | an upgrade brings such a file to the new bundle exactly if it is forced, or the file is not ahead, or is ahead with the content the new bundle ships |
| Materialize.CompletingSettles | crates/beampipe-cli/src/materialize.rs:49-134 | running an interrupted upgrade again to its end leaves no file ahead, wherever it stopped |
| Materialize.InstallReachesExactlyManaged | crates/beampipe-cli/src/materialize.rs:149-168 | a path holds the new content after an install exactly if the merge test held at the start |
| TapAsync.FetchPhase | crates/beampipe-adapters/src/tap_async.rs:138-165 | at most three tries; each but the last had an error status, timed out, or failed to connect or to be sent, and a last one of fewer did not; the last one decides what the poll means, and it all takes at most 46.5 s |
| TapAsync.WaitForJob | crates/beampipe-adapters/src/tap_async.rs:114-136 | succeeds exactly if the last poll was answered without an error status and with the phase COMPLETED; the error is permanent exactly if that phase is ERROR or ABORTED; no other phase ends the wait; other errors are those of the last poll, or a time-out once the time is over; rounds and time are bounded |
| TapAsync.BestEffortCleanup | crates/beampipe-adapters/src/tap_async.rs:101-112 | ABORT only if asked, then DELETE, in at most ten seconds |
| TapAsync.RunJob | crates/beampipe-adapters/src/tap_async.rs:45-82 | from a known job on: one start, the wait, the result, and clean-up on every path, as the life cycle says |
| TapAsync.QueryRowsAsync | crates/beampipe-adapters/src/tap_async.rs:6-82 | every uncancelled run is a life cycle: without a job one request and the error its answer stands for; with one, exactly one DELETE, as the last request, and an ABORT before it exactly if the phase COMPLETED was never reported; a refused start, a wait that fails and a result each have the outcome that the answer stands for; rows only come after COMPLETED (`RowsOnlyAfterCompleted`); total time is bounded (`AnswersMean` has what each answer stands for) |
| TapAsync.QueryRowsByJobs | crates/beampipe-adapters/src/lib.rs:251-267 | at most retries + 1 runs; all but the last ended in `Timeout` or `Transient`; it stops early only at another outcome |
| TapAsync.JobsAreDeletedInTurn | crates/beampipe-adapters/src/lib.rs:251-267 | over all retries one job is created per run, and the deletion of each known job is requested before the next creation |
| TapAsync.QueryRowsSync | crates/beampipe-adapters/src/lib.rs:119-180 | at most retries + 1 attempts, each but the last unanswered or transient, and it stops early only at an answer that is not; the last reply decides the outcome; the time is the sum of the replies and the back-off (`SyncOutcomeAmounts`: by its status, its failure and, for status 400, the four texts of busy services) |
| TapAsync.SpentIsBounded | crates/beampipe-adapters/src/lib.rs:119-148 | the replies of n attempts take at most n times the timeout |
| TapAsync.BackOffTotal | crates/beampipe-adapters/src/lib.rs:217-219 | r pauses last 500 * (2^min(r,3) - 1) + 4000 * max(0, r-3) ms, and no delay comes near the saturation, for any attempt |
| StartExecution.StepKeepsInv | crates/beampipe-api/src/lib.rs:3629-3713 | every step of requests, workers, admission and retries keeps all acceptances right and keys and ids of jobs in step |
| StartExecution.JobsArePermanent | crates/beampipe-db/src/repo.rs:5645-5697 | over any run, a job keeps its key, id and payload: get-or-insert never replaces one |
| StartExecution.AcceptancesAgree | crates/beampipe-api/src/lib.rs:3639-3713 | in every reachable state, all acceptances for one execution name the same job, whose options are those of each accepted request |
| StartExecution.OneJobPerKey | crates/beampipe-db/src/repo.rs:5645-5697 | no idempotency key is ever inserted twice, and executions do not share jobs |
| StartExecution.RetryKeysAreApart | crates/beampipe-db/src/repo.rs:2317-2331 | a retry job never takes the key of a start |
| StartExecution.InsertionIsAccepted | crates/beampipe-api/src/lib.rs:3678-3713 | a step that inserts for a start accepts it with the new job; every refusal leaves the jobs alone; accepted jobs are queued, running or completed |
| StartExecution.AloneAnswersOnce | crates/beampipe-api/src/lib.rs:3629-3713 | an undisturbed request gets one answer and leaves nothing under way; it is accepted exactly if its execution has a replayable job with the same options, or no job and can be queued (`AcceptedExactlyWhenStartable`), and then its job is there (`StatusesAre` has the statuses that replay) |
| StartExecution.RefusalsExactly | crates/beampipe-api/src/lib.rs:3629-3713 | what each refusal of an undisturbed start means, and which job an acceptance names |
| StartExecution.EnqueueRefusesExactly | crates/beampipe-db/src/repo.rs:5576-5643 | the enqueue of a start that was checked before fails exactly if its execution has gone, is abandoned or has ended meanwhile, or its capabilities cannot be derived or are not those asked for |
| StartExecution.ReplayIsIdempotent | crates/beampipe-api/src/lib.rs:3640-3659 | asking again after an acceptance gets the same answer and changes no job |
| StartExecution.SpentStartsStaySpent | crates/beampipe-api/src/lib.rs:3697-3703 | once the job of a start has failed, no request, not even one under way, is accepted until a worker touches that job |
| JobLease.StepKeepsInv | crates/beampipe-db/src/repo.rs:6645-6995 | every transaction, the upserts that queue ended jobs again included, keeps: leases belong to running jobs and carry the token of a claim of that job; ended tokens are held by nobody |
| JobLease.StaleForever | crates/beampipe-db/src/repo.rs:6758-6838 | a token that is no longer held is never held again and never recorded again, over any run; renewals and endings with it change nothing (`StaleChangesNothing`) |
| JobLease.RecoveryFencesTheOldWorker | crates/beampipe-db/src/repo.rs:6720-6780 | a claim only takes a running job if its lease is over, and its old token is stale from then on (`ClaimGrantsLease` has the lease that a claim gives) |
| JobLease.ClaimsEndOnce | crates/beampipe-db/src/repo.rs:6839-6905 | in every reachable history, a claim is ended at most once, and by the worker it was made for (`EndingsExactly` has what each of the four endings leaves) |
| JobLease.LiveLeaseIsSafe | crates/beampipe-db/src/repo.rs:6720-6748 | until a lease expires, no run of other workers takes the job from its holder |
| JobLease.QueuedJobsWait | crates/beampipe-db/src/repo.rs:6720-6748 | back-off is kept over every run: nobody starts a queued job before its time, it waits unchanged or is cancelled (`ClaimedExactly` has who may claim what) |
| JobLease.CapacityIsKeptExactly | crates/beampipe-db/src/repo.rs:6676-6718 | while the registered workers stay the same, live leases stay within the limits of pools and workers along a run exactly if every live job that an upsert moves to another pool finds room there |
| JobLease.MoveKeepsLimitsExactly | crates/beampipe-db/src/repo.rs:5920-5990 | moving a live job keeps the limits exactly if its new pool has room |
| JobLease.MovingOverfills | crates/beampipe-db/src/repo.rs:5920-5990 | a run that leaves a live lease in a pool with no worker at all |
| JobLease.QueuedJobsHaveAttempts | crates/beampipe-db/src/repo.rs:7012-7040 | in every reachable state a queued job has attempts left, if it ever had any, and a dead-lettered one has none; endings dead-letter accordingly (`DeadLetterExactly`) |
| JobLease.ExceedsExactlyByRecovery | crates/beampipe-db/src/repo.rs:6720-6780 | from any such state, along every run, a job exceeds its maximum exactly if some claim takes it over, with its attempts used up, from a worker whose lease is over |
| JobLease.AttemptsExceededExactly | crates/beampipe-db/src/repo.rs:6720-6780 | the same for every run from the start and every job |
| JobLease.RecoveryIgnoresAttempts | crates/beampipe-db/src/repo.rs:6720-6780 | the runs that show it: for any maximum, recovery claims one job any number of times |
| Admission.ValidateExecutionAdmission | crates/beampipe-api/src/lib.rs:2639-2910 | the handler's loops compute the decision function: all errors in order, normalised sources, previews, total, profile and configuration |
| Admission.CollectSources | crates/beampipe-api/src/lib.rs:2656-2693 | the loop over the requested sources, with its set of seen names |
| Admission.CheckGroups | crates/beampipe-api/src/lib.rs:2677-2687 | for trimmed names there is no complaint exactly if the selection is absent, or not empty with distinct non-empty names; one complaint stands for a missing name and one for a repetition |
| Admission.CheckDiscovered | crates/beampipe-api/src/lib.rs:2874-2880 | one error for each selected group without metadata, in order |
| Admission.InspectSource | crates/beampipe-api/src/lib.rs:2841-2896 | the errors and the preview of one source; out of its rows in the table, no error exactly if the source is in order, a complaint about readiness exactly if it lacks that, and a preview exactly if it is ready |
| Admission.InspectSources | crates/beampipe-api/src/lib.rs:2836-2896 | the loop over the normalised sources, with its running total; over the rows fetched for them, no error exactly if each is in order |
| Admission.CanonicalIsNormal | crates/beampipe-api/src/lib.rs:2941-2954 | two requests have the same canonical form exactly if they are equal after trimming |
| Admission.DecisionOfNormal | crates/beampipe-api/src/lib.rs:2639-2910 | the decision depends on the trimmed request only, but for the echoed project |
| Admission.EqualFormsAreDecidedAlike | crates/beampipe-api/src/lib.rs:2941-2954 | requests with equal canonical forms get the same errors, sources, profile, configuration and previews |
| Admission.NoScanErrors | crates/beampipe-api/src/lib.rs:2656-2693 | the scan finds no error exactly if names are non-empty and distinct and groups are in order, and then keeps all sources |
| Admission.ReadinessErrorExactly | crates/beampipe-domain/src/readiness.rs:36-105 | each reason why a source is not ready is given exactly if the source lacks that and nothing that is looked at before it; none exactly if it is ready: registered, enabled, checked, signed, not claimed, with a row in the table and no failing flag in any row; failed flags are those of the first row that has any |
| Admission.NoInspectErrors | crates/beampipe-api/src/lib.rs:2836-2896 | the second loop finds no error exactly if each source is in order: all its selected groups have rows in the table, and it is registered, enabled, checked, signed and unclaimed, with at least one row and no flag that fails; and then it previews each |
| Admission.ValidExactlyWhenAdmissible | crates/beampipe-api/src/lib.rs:2639-2910 | a request is valid exactly if it meets conditions that are stated without any order of checking, those of a source in order included |
| Admission.AdmittedSources | crates/beampipe-api/src/lib.rs:2836-2910 | a valid request has sources, no source twice, one preview per source in order, and the total is their sum |
| Admission.AdmittedContext | crates/beampipe-api/src/lib.rs:2694-2800 | a valid request is within the source limit of the active configuration, which is pinned, and its profile is the one it names, or the default one (`AdmissionErrors.ContextIsNamed` has what the response names, valid or not) |
| AdmissionErrors.ErrorsExactly | crates/beampipe-api/src/lib.rs:2639-2910 | every complaint of the validation is made exactly if its own condition on the request and the tables holds, for all requests and tables |
| AdmissionErrors.ErrorsInOrder | crates/beampipe-api/src/lib.rs:2639-2910 | complaints come in the order of the checks |
| AdmissionErrors.PreviewsExactly | crates/beampipe-api/src/lib.rs:2836-2910 | valid or not, the response previews each ready source of the scan with the number of its rows and records in the table, and totals the records |
| ShellCommand.ReadEscaped | boilerplate_docs/javascripts/install-builder.js:12-17 | either style of quoting is undone by the shell for any text, in the middle of any word |
| ShellCommand.ShellQuoteIsWord | boilerplate_docs/javascripts/install-builder.js:12-17 | a quoted text is one word wherever it stands |
| ShellCommand.MeaningIsLiteral | boilerplate_docs/javascripts/install-builder.js:12-17 | and stands for itself exactly if it does not start with an unquoted tilde |
| ShellCommand.HomeArgumentIsWord | boilerplate_docs/javascripts/install-builder.js:72-80 | `~` and `~/x` become the home directory and `x` below it, other directories themselves |
| ShellCommand.BuildCommand | boilerplate_docs/javascripts/install-builder.js:19-54 | behind the download pipeline, the shell reads the flags of a valid form as the arguments the form means, exactly if no free text starts with a bare tilde |
| ShellCommand.CommandRoundTrip | boilerplate_docs/javascripts/install-builder.js:19-80 | for every form without validation error, the shell reads the flags as one argument list, and it is the intended one exactly if no free text starts with a bare tilde (`FormErrorExactly` and `PortsAreNumbers` say which forms are valid) |
| SetupOptions.ItemsAreRead | crates/beampipe-cli/src/main.rs:130-262 | any list of different options of setup is read back, exactly if all values are acceptable |
| SetupOptions.CommandIsUnderstood | boilerplate_docs/javascripts/install-builder.js:19-80 | the command for a valid form, read by the shell and then by setup, has every chosen option with its value and no other one; it is refused exactly if a free text starts with a hyphen, and means what the form says unless a free text starts with a bare tilde |
| ShellCommand.OperatorCommandRoundTrip | boilerplate_docs/javascripts/install-builder.js:64-70 | operator hints name the directory meant, in front of the words of the action |
| ShellCommand.CliQuoteIsWord | crates/beampipe-cli/src/setup.rs:1849-1851 | the other style of quoting makes any text one word that stands for itself |
| ShellCommand.RecipeCommandRoundTrip | crates/beampipe-cli/src/setup.rs:1857-1862 | hints of the command line name any directory whatever, in front of any arguments |
| EnvFile.EnvFileEncode | crates/beampipe-cli/src/setup.rs:3446-3462 | encodes exactly the single-line values |
| EnvFile.DecodingUndoesEncoding | crates/beampipe-cli/src/setup.rs:3446-3462 | dotenv reads the encoded form back, for every text |
| EnvFile.UpdateEnvValues | crates/beampipe-cli/src/setup.rs:2011-2057 | writes the updated lines, or nothing and the first complaint |
| EnvFile.EncodeUpdates | crates/beampipe-cli/src/setup.rs:2012-2025 | the checks of names, repetitions and values, in order |
| EnvFile.ComplaintExactly | crates/beampipe-cli/src/setup.rs:2012-2025 | a complaint is made exactly if it is about the first update that is not in order, with its reason |
| EnvFile.ReplaceLines | crates/beampipe-cli/src/setup.rs:2034-2054 | the loop over the lines for one key |
| EnvFile.NoComplaintExactly | crates/beampipe-cli/src/setup.rs:2013-2025 | updates are carried out exactly if names are well-formed and distinct and values single lines |
| EnvFile.AssignmentTakesThePlace | crates/beampipe-cli/src/setup.rs:2034-2054 | the new line stands where the first line of the key stood, or at the end |
| EnvFile.EachKeyHasOneLine | crates/beampipe-cli/src/setup.rs:2034-2055 | after any list of updates each key has exactly one line, with its value (`OwnsExactly` says which lines are of a key) |
| EnvFile.OtherLinesStay | crates/beampipe-cli/src/setup.rs:2040-2050 | all other lines keep their content and order (`LinesAreRead` says what the lines are) |
| EnvFile.SecondUpdateChangesNothing | crates/beampipe-cli/src/setup.rs:2011-2057 | a second identical update writes the same file, for files without carriage returns |
| EnvFile.EnvFileValue | crates/beampipe-cli/src/setup.rs:2130-2135 | the first non-empty value of a key |
| EnvFile.ReadBackExactly | crates/beampipe-cli/src/setup.rs:2130-2135 | an updated key reads back exactly if its value is not empty, its name readable, and no earlier line gives it another value |
| EnvFile.UpdatedFileReadsBack | crates/beampipe-cli/src/setup.rs:2011-2057 | the same for the whole written file |
| PercentDecode.PercentDecodePathSegment | crates/beampipe-adapters/src/casda_staging.rs:61-77 | the loop computes the decoding, and returns it if it is UTF-8 |
| PercentDecode.Utf8Exactly | crates/beampipe-adapters/src/casda_staging.rs:76-76 | the bytes that are returned are exactly those that encode a sequence of Unicode characters |
| PercentDecode.DecodingUndoesEncoding | crates/beampipe-adapters/src/casda_staging.rs:61-86 | decoding undoes every encoder that escapes percent signs, digits of either case |
| PercentDecode.DecodesExactlyEncodings | crates/beampipe-adapters/src/casda_staging.rs:61-86 | and decodes nothing but their output |
| PercentDecode.FailsExactlyWhenMalformed | crates/beampipe-adapters/src/casda_staging.rs:65-75 | it fails exactly if some percent sign lacks two hexadecimal digits |
| PercentDecode.ExtractFileNameFromUrl | crates/beampipe-adapters/src/casda_staging.rs:54-59 | the decoded last path segment, if it is a non-empty text |
| PercentDecode.FileNameIsRecovered | crates/beampipe-adapters/src/casda_staging.rs:54-59 | a name comes back from every URL that encodes it, whatever the directory, query and fragment |
| PercentDecode.FileNameExactly | crates/beampipe-adapters/src/casda_staging.rs:54-59 | for every URL: its file name is the non-empty text that its last path segment, in front of a query or fragment, encodes, if there is one |
| PercentDecode.ParseEvalJobResults | crates/beampipe-adapters/src/casda_staging.rs:21-37 | the two maps of files and checksums, by key |
| PercentDecode.LastResultStays | crates/beampipe-adapters/src/casda_staging.rs:26-35 | a key has the URL of the last result filed under it |
| PercentDecode.NothingElseIsFiled | crates/beampipe-adapters/src/casda_staging.rs:26-35 | every key has a result filed under it |
| PercentDecode.KeyExactly | crates/beampipe-adapters/src/casda_staging.rs:26-35 | exactly which key a result is filed under: its file name, for checksums without that ending |
| PercentDecode.CompanionsShareAKey | crates/beampipe-adapters/src/casda_staging.rs:27-33 | a file and its checksum companion have the same key, each encoded in its own way |
| PercentDecode.FileAndCompanionMeet | crates/beampipe-adapters/src/casda_staging.rs:21-37 | in any list of results, both are found under the name of the file |
| OpenApi.Visit | crates/beampipe-api/src/openapi.rs:197-220 | the recursive visitor of the ordered document |
| OpenApi.VisitingIsRewriting | crates/beampipe-api/src/openapi.rs:197-220 | it rewrites the value of the document |
| OpenApi.RemoveAliases | crates/beampipe-api/src/openapi.rs:223-231 | exactly the alias entries are removed, whatever order removal leaves |
| OpenApi.NormalizeSchemaRefs | crates/beampipe-api/src/openapi.rs:196-232 | the ordered document ends up with the normalised value |
| OpenApi.RewrittenRefersBack | crates/beampipe-api/src/openapi.rs:200-210 | every reference afterwards is a retargeted one from before |
| OpenApi.RewrittenRefers | crates/beampipe-api/src/openapi.rs:200-210 | and every reference from before is there, retargeted |
| OpenApi.NoAliasIsLeft | crates/beampipe-api/src/openapi.rs:194-232 | no reference to an alias is left anywhere, and the aliases are gone (`TableIsSound` shows that the table of the program meets the conditions, `DiagnosticsAreRenamed` what it renames) |
| OpenApi.NormalizingKeepsPaths | crates/beampipe-api/src/openapi.rs:196-232 | every path that avoids the aliases is still there; what it leads to changes in its references only |
| OpenApi.ReferencesStillResolve | crates/beampipe-api/src/openapi.rs:196-232 | a reference that resolved still does exactly if it did not point inside an alias |
| OpenApi.NormalizingIsIdempotent | crates/beampipe-api/src/openapi.rs:196-232 | normalising twice is normalising once |
| OpenApi.SortJsonObjects | crates/beampipe-api/src/openapi.rs:96-111 | the recursive visitor that sorts every object |
| OpenApi.SortingKeepsElements | crates/beampipe-api/src/openapi.rs:102-102 | sorting keeps the entries and leaves their keys strictly increasing (`LessExactly` says which of two keys is the smaller one) |
| OpenApi.SortingKeepsMeaning | crates/beampipe-api/src/openapi.rs:96-111 | sorting changes no lookup at any depth |
| OpenApi.SortedFormIsCanonical | crates/beampipe-api/src/openapi.rs:96-111 | documents with the same value have the same sorted form |
| Redaction.RedactAfterMarker | crates/beampipe-security/src/lib.rs:250-269 | the loop replaces the value behind every occurrence of a marker, in any case |
| Redaction.RedactString | crates/beampipe-security/src/lib.rs:231-248 | the loop over the markers |
| Redaction.SecretIsReplaced | crates/beampipe-security/src/lib.rs:231-269 | a secret behind any marker, in any case, is replaced by the placeholder up to the next ampersand, blank or quote, and the text around it stays |
| Redaction.RedactValue | crates/beampipe-security/src/lib.rs:212-229 | the recursive walk gives the view field by field, for any order of the fields |
| Redaction.RedactedByParts | crates/beampipe-security/src/lib.rs:231-269 | a text is redacted piece by piece between delimiters: no secret reaches across one |
| Redaction.PieceStaysExactly | crates/beampipe-security/src/lib.rs:250-269 | a marker leaves a piece alone exactly if the placeholder ends it behind each occurrence |
| Redaction.TextStaysExactly | crates/beampipe-security/src/lib.rs:231-269 | a text is shown as it is exactly if every piece is masked behind every marker |
| Redaction.ShownAsItIsExactly | crates/beampipe-security/src/lib.rs:193-229 | a value is shown as it is exactly if no text in it is redacted and all values under secret names are the placeholder already (`SecretKeysAre` has the words that make a name secret, in any case) |
| Redaction.PlaceholderIsItself | crates/beampipe-security/src/lib.rs:212-269 | only the placeholder is shown as the placeholder, outside secret names |
| NotificationConfig.MergeHeaders | crates/beampipe-api/src/observability.rs:202-217 | the loop over the headers, in any order, gives the merge header by header |
| NotificationConfig.MergeNotificationConfig | crates/beampipe-api/src/observability.rs:178-223 | the loop over the keys, in any order, gives the merge key by key, which the rows below say apart from the loop |
| NotificationConfig.UpdateArrivesExactly | crates/beampipe-api/src/observability.rs:178-223 | for every configuration and all new values, under new names or old ones: what the API shows, with the new values put in, merges to the configuration with the new values put in, exactly if each old value that was not replaced is restored |
| NotificationConfig.HeaderUpdateArrivesExactly | crates/beampipe-api/src/observability.rs:202-217 | the same inside the headers, where a null removes a header |
| NotificationConfig.OthersStay | crates/beampipe-api/src/observability.rs:189-192 | a key that an update does not name, or names with the placeholder, stays as it is or absent (`HeadersAsAWhole` and `OtherShapes` have the updates that are no objects) |
| NotificationConfig.MergingUndoesRedaction | crates/beampipe-api/src/observability.rs:48-66 | for every configuration: sending back what the API shows restores it exactly if each value under a name that is not secret is shown as it is, headers are not null, and no header under such a name is null or shown otherwise than it is |
| NotificationConfig.TokenInLinkIsLost | crates/beampipe-api/src/observability.rs:178-223 | the family of links with a token in them, which come back with the placeholder in its place |
| NotificationConfig.NestedSecretIsLost | crates/beampipe-api/src/observability.rs:178-223 | the family of nested secrets, which come back as the placeholder |
| NotificationConfig.MergingUndoesMarkers | crates/beampipe-api/src/observability.rs:178-223 | copies that hide whole values and headers only restore the configuration exactly if they show no null for the headers or for one of them |
| NotificationConfig.MergingIsIdempotent | crates/beampipe-api/src/observability.rs:178-223 | the same update twice is the same as once, for all values |

## Left out

- Ledger transitions, retry planning and submission abandonment: large case tables over many columns, of which only the effect on the jobs of a start is modelled, as arbitrary events.
- `patch_execution` and the other handlers: they relay, or split cases on enumerations.
- HTTP, Redis, SSH, SMTP, Docker, the file system, and the XML, VOTable, JWT and bcrypt libraries: only their effects appear, as arbitrary replies, steps or functions.
- Update in place: JSON documents, headers and configurations are values that methods replace, and the step machines change values, so aliasing is not modelled; Rust's borrowing rules it out.
- Cancelled futures in `TapAsync`: a run that is dropped between two requests skips its clean-up, and its life cycle is not claimed.
- The text of error messages: errors are values with the parts that the texts mention.
- Power failures in `Materialize`: a rename that was made stays made; removing old temporary files is not part of the program.
- Failing database calls in `Admission` and `StartExecution`, except for the refusal of the enqueue: they end the request with nothing written.
- Overflow of `usize` sums of record counts.
- Capabilities, labels and priorities of jobs in `JobLease`: a claim may pick any eligible job, which allows more runs than the real order; rows from before leases were written have no lease.
- The locks that make a claim one step (`pg_advisory_xact_lock`, `FOR UPDATE SKIP LOCKED`): transactions are taken to be atomic.
- EnvFile.EnvFileValue: dotenv's own splitting of a file, which joins the lines of a quoted value that spans several, is not modelled; the lines are those between line breaks.
- `.env` lines in other forms than the one written, and values that span lines: how dotenv reads them is left open.
- The reader of shell words refuses what it does not know to be literal, instead of modelling operators, expansions and comments.
- Escapes `~0` and `~1` in reference paths: path segments are taken as they are.
- Trimming in the installer form, and the texts around the command.
- The branch of `buildCommand` for an empty list of flags: the list always has the runtime.
- The `metadata` and `data` rejection in `rows_from_json`: the loop before it has removed `data`, so it is never reached.
