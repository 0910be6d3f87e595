# Marie: a verified model of its replay, lease, command-line, key and messaging cores

Marie runs agent sessions as trees of frames. This project models the parts of it whose
correctness is a matter of logic rather than of I/O, and proves what those parts promise —
or, where the code does not keep the promise, exactly when it does.

* **Replay of suspended node bodies** (`RunLog`, `Script`, `Replay`, `Checkpoint`). A node body
  that asks for an expert, a tool, a subgraph or a human is stopped and later run again from
  scratch, answered requests being served from a positional log. A body is any deterministic
  function from what it has observed to its next action, of which each resume terminates over
  whatever channels — how long it takes may depend on the values it reads — and it may ask for
  ever. The result: under every schedule of re-runs and answers, a run is the uninterrupted
  execution against an answering oracle, given exactly the answers that found a request waiting.
  `Checkpoint` adds what the session does between runs — commits of the run's own updates, of
  what children exported, and re-runs without an answer — which changes the picture (see below).
* **Channels and specs** (`Channels`, `Spec`). Reducers over batches of contributions, the
  tracker that a body reads and writes, and the algebra of layered frame specifications.
* **Leases** (`Lease`, `LeaseStorage`). Fencing epochs over whole runs of requests, with the
  clock reading as an input of each; the in-memory Raft log as a refinement of a plain
  sequence; the state machine, its batches and its snapshots.
* **The command line** (`Text`, `Tokenizer`, `Args`, `Printer`, `Command`). The scanner, the
  argument splitter and the value grammar, each against a printer that it undoes.
* **Key epochs** (`Secrets`, `Vault`, `Rotation`). Epoch histories, stored secrets, and the
  rolling-rotation runbook as a protocol over any number of nodes. HKDF (section 2 of RFC 5869),
  HMAC (section 2 of RFC 2104) and ChaCha20-Poly1305 (section 2.8 of RFC 8439) are parameters
  with the laws they are used for: the key that sealed opens, no other key does, and derived
  keys and codes tell master keys, namespaces and nonces apart.
* **Rendezvous hashing** (`Mixer`, `Ranking`). The 64-bit mixer with its inverse, and a ranking
  that depends neither on listing order nor on who else is listed.
* **Remote calls** (`Rpc`). Call and reply over a medium that loses, duplicates and reorders.

Objects that the source updates in place are classes; each of their methods is proved against a
function of the old state, and the theorems are about those functions. `dafny verify dfyconfig.toml` checks the whole
project.

## Where the code and its documentation differ

The model follows the code.

* *Committed updates are visible to re-runs.* Each run's updates are committed into the frame's
  own channels, as are the exported channels of its children that its spec imports, and the next
  run starts from those; a failed child even lets the frame run again without any answer. All
  runs then go as replay promises exactly when each expected run reads as inherited only channels
  that everything committed before it leaves unchanged (`Checkpoint.CommittedRunsReplayIff`): an
  appending channel is left unchanged by nothing, one where the last write wins by a last write of
  the inherited value, one that takes the maximum by numbers up to the inherited float. A body
  that increments a counter and then asks once increments it twice
  (`Checkpoint.CounterIsIncrementedTwice`), and sees its own increment even without an answer
  (`Checkpoint.UnansweredCounterSeesItself`). Where replay is faithful, repeated commits still count
  an Append channel's contributions again (`Checkpoint.ChannelsAreFaithfulIff`).
* *Log indices are truncated to 32 bits.* Resolution by index reaches its entry exactly for
  positions below 2^32 (`RunLog.ResolutionReachesEntry`); the replay theorems hold for logs of at
  most that many entries.
* *The vault stamps epoch 0 on everything.* What it writes reads back exactly if epoch 0 was
  current at the write and has not been retired (`Vault.VaultReadsBackIff`).
* *A renewal may bring an expiry forward.* Validity windows as recorded never overlap, but a
  holder that missed such an answer may believe in its epoch after it was succeeded. Everything a
  holder was told is honoured exactly when nothing it was told lies beyond the last expiry
  announced to it (`Lease.ExpiriesAreHonoredIff`, `Lease.ShorteningWitness`). A renewal also
  revives an expired lease that nobody has taken over.
* *The clock is read while applying.* Two replicas agree on one request exactly when it is a
  release, a renewal by a non-holder, or an acquisition of a lease unexpired on both clocks
  (`Lease.ReplicasAgreeIff`); over whole runs they agree on who holds which epoch exactly as long as
  every acquisition's expiry test comes out alike (`Lease.ReplicasKeepTenantsIff`).
* *A received snapshot that cannot be decoded is replaced by an empty authority*, and epochs start
  again at 1 (`LeaseStorage.ReceivedSnapshotForgetsIff`, `LeaseStorage.ReceivedGrantsAreForgottenIff`).
* *The weighted score is not monotone in the hash.* Hashes are rounded to 53 bits, so different
  ones may tie, and for the greatest hashes the logarithm is 0 and the score −∞. The theorems on
  weighted scores assume only that equal hashes score alike (`Ranking.GradedHashesNeverTieIff`).
* *Quotes are unescaped twice*, by the scanner and then by the value parser: a string typed as
  a flag reads back exactly if it neither ends with a backslash nor holds one right before a
  quote (`Command.FlagStringReadsBackIff`). *Commas are split without regard to quotes*: the
  strings that survive inside lists are exactly the sheltered ones (`Printer.ListStringsReadBackIff`,
  `Printer.ShelteredIff`); typed as a flag, a list moreover has to be verbatim for the scanner
  (`Command.ListFlagIsKeptIff`). `parse_value` declares an error but never returns one. Bare words
  that spell a float are not kept as text (`Printer.WordReadsBack`); `nan` and `inf` are such
  words, and JSON holds neither, so they read as null: which value a float becomes is a parameter.
* *The post office sends every message with the default node as its source*
  (marie-core/src/post/mod.rs:223-228), so that is the caller an executor sees and the address that
  replies go to. The caller of a call is arbitrary here, the default node included.
* *`pick` takes the last of tied best candidates, `pick_top_n` the first*
  (`Ranking.PickAgreesWithTopIff`).
* *Layered specs combine associatively exactly when the middle layer repeats no channel name*
  (`Spec.AssociativeIffMiddleDistinct`).

## Model

| member | source | states |
|---|---|---|
| RunLog.RunLogs.constructor | marie-core/src/session/run_log.rs:71-74 | a run starts with the persisted entries and the cursor at zero |
| RunLog.RunLogs.ReserveLog | marie-core/src/session/run_log.rs:79-86 | returns the cursor's position and advances it; adds an unanswered entry only past the end, so a persisted entry keeps its own content |
| RunLog.RunLogs.Check | marie-core/src/session/run_log.rs:90-92 | the answer at a position, if there is one |
| RunLog.RunLogs.IntoNewLogs | marie-core/src/session/run_log.rs:98-100 | persisted entries followed by the new ones are the whole log |
| RunLog.PendingIsLastUnresolved | marie-core/src/session/frames/tree.rs:214-216 | the entry reported as pending is unanswered and everything after it is answered |
| RunLog.ResolutionReachesTruncated | marie-core/src/session/frames/tree.rs:231-237 | an answer by index lands at the position modulo 2^32 |
| RunLog.ResolutionReachesEntry | marie-core/src/session/frames/tree.rs:231-237 | an answer by index lands at its own entry, for every value, iff the position is below 2^32 |
| Script.Resume | marie-core/src/graph/script.rs:290 | between two suspensions the body's reads and writes act on the tracker alone; the log and cursor are untouched |
| Script.Execute | marie-core/src/graph/script.rs:277-322 | the driver loop terminates for every body, in one pass more than the answered requests it moves past and at most one more than the log is long; it ends where the run does, with exactly that run's updates and at most one new reservation, of what the body asks for |
| Script.CopierTerminates | marie-core/src/graph/script.rs:277-322 | a script that loops as often as the value it read says is a body, although no one bound covers all values |
| Script.RunFrame | marie-core/src/session/worker.rs:149-170 | the response is that of the run, told from the body and the log: a suspended run asks the session for the body's own request at that position and leaves one entry of that content behind if it is new; an ended run reports what the body returned; a body that fails loses its updates and reservations |
| Script.PendingResult | marie-core/src/graph/script.rs:481-487 | what a suspended run reports is what the session reads back as the request to log |
| Script.RunEndsAsBodySays | marie-core/src/graph/script.rs:277-322 | the outcome of a run is what the body does next after its trace: waits for what it asks, returns what it returns, fails as it fails |
| Script.ResponseReports | marie-core/src/session/worker.rs:149-170 | for every body, channels and log, the report reads back as the awaited request; no suspended run reports an end, no ended run a request |
| Script.RunShape | marie-core/src/graph/script.rs:292-321 | a run asks at most as often as the log is long and suspends only where the log has no answer |
| Script.RunPerforms | marie-core/src/graph/run_log_macros.rs:24-53 | an answered request continues the body with the logged answer, as reads and writes continue it with what they observe |
| Script.LookupIgnoresContributor | marie-core/src/session/channel.rs:124-136 | what a read observes does not depend on which frame contributes |
| Script.UpdatesGrow | marie-core/src/session/channel.rs:111-122 | the updates of a longer history extend those of a shorter one |
| Replay.DirectShape | marie-core/src/session/run_log.rs:43-59 | an execution given n answers asks at most n answered requests, and exactly n if it is left waiting |
| Replay.DirectResumes | marie-core/src/session/run_log.rs:43-59 | more answers continue a suspended execution from where it stopped, and change nothing in one that ended |
| Replay.DirectIsMonotone | marie-core/src/session/run_log.rs:43-59 | trace and requests with fewer answers are prefixes of those with more |
| Replay.RunFollowsDirect | marie-core/src/graph/script.rs:292-321 | from any history, a run against a log that holds the oracle's answers is the direct execution |
| Replay.RunOfRecord | marie-core/src/graph/script.rs:277-322 | a run against a log recording r answers is the direct execution with r answers |
| Replay.RerunKeepsRecord | marie-core/src/session/checkpointer/mod.rs:910-937 | a re-run persists the next reservation if it is missing and nothing else |
| Replay.ResolveAdvancesRecord | marie-core/src/session/checkpointer/mod.rs:510-544 | an answer turns the pending entry into one more recorded answer and touches no other |
| Replay.ReachableLogsRecord | marie-core/src/session/run_log.rs:43-59 | in every reachable state each entry sits at its index with the body's request at that position, all but possibly the last are answered, and one is pending exactly if a re-run came last and the execution is not over |
| Replay.ReportAsksForPending | marie-core/src/session/checkpointer/mod.rs:510-544 | in every reachable state, the next run leaves a pending entry iff it is suspended, it is the last one, and the report asks for exactly its content |
| Replay.ReplayEqualsDirectExecution | marie-core/src/session/run_log.rs:71-100 | under every schedule of re-runs and answers, the next run is the direct execution with exactly the answers that came right after a re-run |
| Replay.AnswerCountsIff | marie-core/src/session/checkpointer/mod.rs:510-544 | an answer has an effect iff a re-run came right before it and the direct execution is still waiting |
| Replay.LaterRunsExtendEarlier | marie-core/src/session/worker.rs:162-169 | trace and updates of each run are prefixes of those of every later run; an ended run is repeated unchanged |
| Replay.WaitingChangesNothing | marie-core/src/session/run_log.rs:43-59 | running again before the answer gives the same outcome and adds no entry |
| Replay.RoundsEqualDirectExecution | marie-core/src/session/run_log.rs:71-100 | n rounds of run, answer, re-run reach exactly what one execution with n answers reaches: suspended at request n+1, or the same result |
| Checkpoint.Commit | marie-core/src/session/checkpointer/mod.rs:553-599 | grouping by channel and reducing, in any order of channels, gives every channel its reducer applied to its own contributions in order |
| Checkpoint.UndeclaredTakesLast | marie-core/src/session/checkpointer/mod.rs:553-599 | an undeclared channel takes its last contribution |
| Checkpoint.FirstDeclarationCounts | marie-core/src/session/checkpointer/mod.rs:553-599 | a channel declared more than once goes by its first declaration, and one without contributions stays |
| Checkpoint.RunsAgreeIff | marie-core/src/session/channel.rs:124-136 | two channel maps give the same run iff they agree on what that run reads without having written it |
| Checkpoint.CommittedPartIsPreviousRun | marie-core/src/session/checkpointer/mod.rs:910-937 | what a run does before its last answered request is exactly what the run before it committed |
| Checkpoint.CommittedRunsReplayIff | marie-core/src/session/checkpointer/mod.rs:910-1097 | over every history of runs, answers and imports from children, all runs go as expected iff each expected run reads as inherited only channels that everything committed before leaves unchanged |
| Checkpoint.LeavesUnchangedIff | marie-core/src/session/channel.rs:62-85 | when a commit of given contributions leaves a channel as it was, reducer by reducer |
| Checkpoint.UntouchedReadsReplay | marie-core/src/session/checkpointer/mod.rs:910-1097 | that holds for every body that reads as inherited no channel that an earlier run wrote or a child exported, whatever the reducers |
| Checkpoint.ChannelsAreFaithfulIff | marie-core/src/session/checkpointer/mod.rs:465-599 | when replay is faithful, a channel ends as if everything had been committed once iff it takes the maximum, or appends and no run committed again what an earlier one had, or lets the last write win and the repetitions leave the same write last |
| Checkpoint.OwnWritesStayLast | marie-core/src/session/checkpointer/mod.rs:553-599 | on a channel that children never export to, repetitions leave the last write last |
| Checkpoint.CounterIsIncrementedTwice | marie-core/src/session/checkpointer/mod.rs:553-599 | a concrete body leaves 2 where a direct execution leaves 1 |
| Checkpoint.UnansweredCounterSeesItself | marie-core/src/session/checkpointer/mod.rs:1044-1067 | run again without an answer, that body reads its own increment before the request it is still waiting for |
| Channels.Reduce | marie-core/src/session/channel.rs:63-84 | the reducer loop computes the reduction, a missing or wrongly typed current value included |
| Channels.BestIsMaximum | marie-core/src/session/channel.rs:74-82 | the fold's result is one of the numbers seen and no seen number exceeds it; it is absent iff none was seen |
| Channels.MaxDependsOnlyOnValuesSeen | marie-core/src/session/channel.rs:74-82 | Max ignores order and repetition of contributions |
| Channels.AppendKeepsContributions | marie-core/src/session/channel.rs:66-73 | Append keeps the multiset of items under any reordering |
| Channels.AppendPlaces | marie-core/src/session/channel.rs:66-73 | the k-th contribution stands k places after what was there, which stays in front |
| Channels.LastWriteStands | marie-core/src/session/channel.rs:63-65 | the last contribution stands, without one the current value, without that null |
| Channels.MaxOfIntegers | marie-core/src/session/channel.rs:74-82 | over integers Max is the greatest of them, as a float |
| Channels.MaxIgnoresTheRest | marie-core/src/session/channel.rs:74-82 | values that are no numbers never count, and leave null if there is nothing else |
| Channels.BatchesReduceAlike | marie-core/src/session/channel.rs:62-85 | for every reducer, split and current value, reducing in batches is reducing at once |
| Channels.RecommittingPrefix | marie-core/src/session/channel.rs:62-85 | committing early contributions before committing all of them changes nothing iff the reducer is not Append |
| Channels.LookupSeesLatestWrite | marie-core/src/session/channel.rs:124-136 | a read returns the value of the last own update of the channel |
| Channels.LookupFallsBack | marie-core/src/session/channel.rs:124-136 | without an own update a read returns the inherited value |
| Channels.ChannelsTracker.constructor | marie-core/src/session/channel.rs:102-109 | a tracker starts without updates |
| Channels.ChannelsTracker.Write | marie-core/src/session/channel.rs:117-122 | a write is added at the end, tagged with the frame; inherited channels stay |
| Channels.ChannelsTracker.Read | marie-core/src/session/channel.rs:124-136 | the backward scan finds what the lookup specifies |
| Spec.Merge | marie-core/src/session/spec.rs:149-176 | the merging loops compute the layered spec |
| Spec.ComputeUnion | marie-core/src/session/spec.rs:179-186 | the union loop computes the duplicate-free extension |
| Spec.MergeLooksUpRightmost | marie-core/src/session/spec.rs:149-176 | every lookup finds the right-most definition, and distinct names stay distinct |
| Spec.MergedLooksUpRightmost | marie-core/src/session/spec.rs:149-176 | budget fields, both maps and channels are each looked up in the upper layer first, and only then in the lower one |
| Spec.AssociativeIffMiddleDistinct | marie-core/src/session/spec.rs:149-176 | layers combine associatively, list order included, for all outer layers iff the middle one repeats no channel name |
| Spec.DefaultIsIdentity | marie-core/src/session/spec.rs:149-176 | the default spec is a right identity always, and a left identity iff names are not repeated |
| Spec.UnionMembers | marie-core/src/session/spec.rs:179-186 | a union extends its first list, holds the names of both, and keeps them free of duplicates |
| Spec.UnionAssociative | marie-core/src/session/spec.rs:179-186 | unions combine associatively, order included |
| Lease.LeaseAuthority.HandleRequest | marie-core/src/lease/authority.rs:21-34 | dispatches each request to the transition it asks for, and echoes its id |
| Lease.LeaseAuthority.ReleaseLease | marie-core/src/lease/authority.rs:36-47 | removes the lease for its holder and epoch; otherwise refuses, naming the current holder |
| Lease.LeaseAuthority.RenewLease | marie-core/src/lease/authority.rs:49-60 | sets an expiry one ttl ahead for the holder and epoch, expired or not; otherwise refuses |
| Lease.LeaseAuthority.AcquireLease | marie-core/src/lease/authority.rs:62-81 | grants the next epoch unless an unexpired lease stands |
| Lease.LeaseAuthority.Snapshot | marie-core/src/lease/authority.rs:89-91 | leases and epochs, unchanged |
| Lease.LeaseAuthority.Restore | marie-core/src/lease/authority.rs:95-98 | leases and epochs become those of the snapshot |
| Lease.EpochsAreGapless | marie-core/src/lease/authority.rs:62-81 | over every run and any clock, grants of a session are numbered 1, 2, 3, ... and an entry stands exactly for the latest unreleased grant, with its last recorded expiry |
| Lease.OnlyLatestUnreleasedGrantActs | marie-core/src/lease/authority.rs:36-60 | a renewal or release succeeds iff it presents holder and epoch of the latest unreleased grant |
| Lease.GrantNeedsEndedTenure | marie-core/src/lease/authority.rs:62-81 | a grant is given iff the previous tenure was released or its last recorded expiry has passed |
| Lease.GrantedIffTermHasPassed | marie-core/src/lease/authority.rs:49-81 | over every run and any clock, while no later request of the session succeeds, an acquisition is granted iff the clock has reached the reading at the last successful acquisition or renewal plus the ttl it asked for |
| Lease.LeaseStandsAsAsked | marie-core/src/lease/authority.rs:36-81 | until then the lease stands with the holder, the epoch and the expiry that request was answered with |
| Lease.RenewedForItsTerm | marie-core/src/lease/authority.rs:49-60 | a successful renewal announces its own reading plus its own ttl |
| Lease.UnleasedIsGranted | marie-core/src/lease/authority.rs:62-81 | without an entry an acquisition is granted, for its own reading plus its own ttl |
| Lease.ReleasedIsUnleased | marie-core/src/lease/authority.rs:36-47 | a successful release leaves no entry and reports the epoch of time |
| Lease.RefusalNamesTenant | marie-core/src/lease/authority.rs:36-81 | over every run a refusal names holder and epoch of the latest unreleased tenure; without one it names the caller and epoch 0 |
| Lease.WindowsNeverOverlap | marie-core/src/lease/authority.rs:36-81 | with non-decreasing readings, validity windows of different epochs of a session never overlap |
| Lease.LastExpiryCounts | marie-core/src/lease/authority.rs:49-81 | the recorded expiry is the last one announced to the present holder |
| Lease.ExpiriesAreHonoredIff | marie-core/src/lease/authority.rs:49-81 | every succession comes after everything the holder was told iff nothing it was told lies beyond the last expiry announced to it |
| Lease.ShorteningWitness | marie-core/src/lease/authority.rs:49-60 | a run in which an epoch is succeeded at 60 although 100 had been announced |
| Lease.ReplicasAgreeIff | marie-core/src/lease/authority.rs:36-81 | two replicas in one state with different readings agree on a request iff it is a release, a renewal by a non-holder, or an acquisition of a lease unexpired on both clocks |
| Lease.ReplicasKeepTenantsIff | marie-core/src/lease/authority.rs:36-81 | over any run, replicas with their own clocks agree throughout on who holds which epoch iff each acquisition's expiry test comes out alike on both |
| Lease.UnequalReadingsDiverge | marie-core/src/lease/authority.rs:62-81 | one replica may grant what another refuses, and their states then differ |
| LeaseStorage.LeaseLogStore.TryGetLogEntries | marie-core/src/lease/storage.rs:52-59 | the stored entries of a range, in index order |
| LeaseStorage.LeaseLogStore.GetLogState | marie-core/src/lease/storage.rs:64-68 | the id of the greatest stored index, else the last purged id |
| LeaseStorage.LeaseLogStore.SaveVote | marie-core/src/lease/storage.rs:74-77 | stores the vote and leaves the log |
| LeaseStorage.LeaseLogStore.Append | marie-core/src/lease/storage.rs:83-96 | inserts every entry at its own index |
| LeaseStorage.LeaseLogStore.Truncate | marie-core/src/lease/storage.rs:98-103 | keeps exactly the entries before the given one |
| LeaseStorage.LeaseLogStore.Purge | marie-core/src/lease/storage.rs:105-110 | keeps exactly the entries after the given one and remembers it |
| LeaseStorage.StoreRefinesPlainLog | marie-core/src/lease/storage.rs:83-110 | every permitted sequence of appends, truncations and purges keeps the map a plain sequence with an offset, a purge past the end included |
| LeaseStorage.LogStateAgrees | marie-core/src/lease/storage.rs:64-68 | the reported state is that of the plain sequence, and only that |
| LeaseStorage.RangeReadAgrees | marie-core/src/lease/storage.rs:52-59 | a range read is the matching slice of the plain sequence, for any bounds |
| LeaseStorage.LeaseStateMachine.Apply | marie-core/src/lease/storage.rs:143-176 | the apply loop folds the entries, one response each |
| LeaseStorage.LastAppliedIsLast | marie-core/src/lease/storage.rs:143-176 | after any entries the last applied id is that of the last one |
| LeaseStorage.MembershipStands | marie-core/src/lease/storage.rs:143-176 | after any entries the membership is that of the last membership entry, with its id |
| LeaseStorage.MembershipKept | marie-core/src/lease/storage.rs:143-176 | entries without a membership leave it as it was |
| LeaseStorage.LeaseStateMachine.BuildSnapshot | marie-core/src/lease/storage.rs:213-228 | captures leases, last applied id and membership without changing them |
| LeaseStorage.SnapshotIsLabelled | marie-core/src/lease/storage.rs:213-228 | a snapshot after any entries carries the id of the last one, also in its name |
| LeaseStorage.LeaseStateMachine.InstallSnapshot | marie-core/src/lease/storage.rs:186-202 | replaces the whole state by the snapshot's |
| LeaseStorage.MachineRunsTheAuthority | marie-core/src/lease/storage.rs:143-176 | the machine's leases are those of the requests committed so far, so every theorem on runs of requests holds of it |
| LeaseStorage.ResponsesAreAnswers | marie-core/src/lease/storage.rs:143-176 | the response to a request is the authority's answer at its place among the requests, whatever else the log holds |
| LeaseStorage.BatchingIsInvisible | marie-core/src/lease/storage.rs:143-176 | how entries are cut into batches changes neither state nor responses |
| LeaseStorage.SnapshotPlusSuffixEqualsReplayIff | marie-core/src/lease/storage.rs:143-228 | for every suffix in any batches, installing a snapshot of a prefix and applying the suffix gives the state and responses of applying everything, iff that snapshot's bytes are read back as written |
| LeaseStorage.ReceivedSnapshotForgetsIff | marie-core/src/lease/storage.rs:186-202 | after any received snapshot every session is granted epoch 1 again iff it cannot be decoded or says that nothing was ever held |
| LeaseStorage.ReceivedGrantsAreForgottenIff | marie-core/src/lease/storage.rs:186-202 | once a session has been granted, a snapshot of those leases is forgotten by its receiver iff it is unreadable |
| Text.UnescapeUndoesEscape | marie-cli/src/repl/args.rs:41-48 | unescaping undoes escaping for every text, backslashes included |
| Text.UnescapeFixesIff | marie-cli/src/repl/args.rs:41-48 | unescaping leaves a text alone iff it holds no backslash before a quote |
| Text.TrimsBothEnds | marie-cli/src/repl/args.rs:131-132 | trimming takes whitespace off both ends and nothing else |
| Text.TrimSplits | marie-cli/src/repl/args.rs:131-132 | every text is what trimming leaves of it between whitespace, and that is empty or starts and ends with ink |
| Tokenizer.Tokenize | marie-cli/src/repl/tokenizer.rs:11-81 | the three-mode loop computes the scan, unclosed quotes and brackets included |
| Tokenizer.TokenizedFailsIff | marie-cli/src/repl/tokenizer.rs:11-81 | a line is refused iff it leaves a quote or a bracket open, and for that reason |
| Tokenizer.TokenizeUndoesRendering | marie-cli/src/repl/tokenizer.rs:11-81 | any tokens built from bare text, escaped quoted text and verbatim groups, separated by any whitespace, scan back to themselves |
| Tokenizer.BalancedGroupIsWritable | marie-cli/src/repl/tokenizer.rs:57-76 | groups with balanced brackets are verbatim, whatever else they hold |
| Tokenizer.TokenIsKeptIff | marie-cli/src/repl/tokenizer.rs:11-81 | a text is scanned into itself as one token iff it meets no whitespace outside quotes and brackets, nothing to unescape inside quotes, and closes both |
| Tokenizer.QuotedTextSurvivesIff | marie-cli/src/repl/tokenizer.rs:11-81 | escaped quoted text scans back iff it does not end with a backslash; otherwise the quote is reported unclosed |
| Args.ParseCommandArgs | marie-cli/src/repl/args.rs:18-39 | positional texts are unquoted, flags are split at the first equals sign; missing positionals, missing equals signs and repeated keys are errors |
| Args.ParsedArgsIff | marie-cli/src/repl/args.rs:18-39 | parsing fails iff there are too few tokens, or else with the error of the first token that lacks an equals sign or repeats a key; otherwise it yields exactly the unquoted positionals and the keys and raw values that the other tokens spell |
| Args.SplitTopLevelCommas | marie-cli/src/repl/args.rs:163-181 | the loop computes the substrings between commas at bracket depth zero, negative depths included |
| Args.PartsFit | marie-cli/src/repl/args.rs:163-181 | no part is longer than the text, so the value grammar's recursion ends |
| Args.ParseValue | marie-cli/src/repl/args.rs:131-161 | the recursive parser terminates and computes the value of the text; which value that is say the `Printer` lemmas |
| Args.ParseItems | marie-cli/src/repl/args.rs:142-152 | the pushing loop skips blank parts and parses the others in order |
| Printer.IntReadsBack | marie-cli/src/repl/args.rs:154-156 | every 64-bit integer reads back from its decimal spelling |
| Printer.IntSpellings | marie-cli/src/repl/args.rs:154-156 | signs and leading zeros are read, and no integer beyond 64 bits |
| Printer.OnlySpelledIntsParse | marie-cli/src/repl/args.rs:154-156 | whatever reads as an integer is a sign or none, zeros, and a decimal spelling |
| Printer.MarginsDoNotCount | marie-cli/src/repl/args.rs:41-48 | whitespace around a value or a positional text does not count, and alone it is the empty text |
| Printer.WordReadsBack | marie-cli/src/repl/args.rs:131-161 | text that is neither quoted nor bracketed nor an integer, whatever whitespace surrounds it, reads as the float it spells, else as itself |
| Printer.StringReadsBack | marie-cli/src/repl/args.rs:138-140 | every string, whatever it holds, reads back from its quoted spelling |
| Printer.SplitJoined | marie-cli/src/repl/args.rs:163-181 | splitting at depth zero undoes joining sheltered items with commas |
| Printer.ListedSplits | marie-cli/src/repl/args.rs:163-181 | splitting undoes joining with commas of any parts without a comma outside brackets whose brackets even out |
| Printer.ListReadsAll | marie-cli/src/repl/args.rs:142-152 | a list of such parts reads as what each of them does, blank ones left out |
| Printer.WordsReadBack | marie-cli/src/repl/args.rs:142-152 | bare words are list items as they are values |
| Printer.ParseUndoesPrint | marie-cli/src/repl/args.rs:131-161 | parsing undoes printing for integers, strings and arbitrarily nested lists with sheltered strings |
| Printer.ShelteredIff | marie-cli/src/repl/args.rs:163-181 | the shelter condition is exactly: at whatever depth the text stands, no comma of it is at depth zero and its brackets even out |
| Printer.ListStringsReadBackIff | marie-cli/src/repl/args.rs:131-181 | a string reads back from every nesting depth and from beside another item iff it is sheltered |
| Command.CommandScans | marie-cli/src/repl/tokenizer.rs:11-81 | a command scans into one token per positional, quoted or bare, and per flag |
| Command.FlagsReadBack | marie-cli/src/repl/args.rs:28-36 | flags with distinct bare keys are collected under their keys with their raw values |
| Command.CommandReadsBack | marie-cli/src/repl/args.rs:18-48 | a whole command — positionals quoted or bare, flags with printed values or bare words — scans, splits and parses back to its texts, its keys and its values |
| Command.BareReadsBack | marie-cli/src/repl/args.rs:131-161 | a bare flag word reads as the integer or the float it spells, else as itself, and as a positional as itself |
| Command.EnclosedIsTypable | marie-cli/src/repl/tokenizer.rs:57-76 | lists whose strings balance their brackets and hold no comma outside them are typable |
| Command.ListFlagIsKeptIff | marie-cli/src/repl/tokenizer.rs:11-81 | a flag with a printed list is scanned into itself iff the list is verbatim |
| Command.CrossedBracketsAreTypable | marie-cli/src/repl/tokenizer.rs:57-76 | strings in typed lists need not balance their brackets |
| Command.FlagStringReadsBackIff | marie-cli/src/repl/args.rs:131-140 | a string typed as a flag reads back iff it neither ends with a backslash nor holds one before a quote |
| Secrets.SecretManager.Build | marie-core/src/secret/mod.rs:278-295 | a manager is built iff some key is given and the current epoch is among them, with the matching error otherwise; it starts sound |
| Secrets.WithEpochsIff | marie-core/src/secret/mod.rs:278-295 | a ring is made iff the current epoch is among those given; it holds exactly the epochs given, each with the last key given for it |
| Secrets.SecretManager.Add | marie-core/src/secret/mod.rs:300-302 | loads the key, replacing one of the same epoch |
| Secrets.SecretManager.SetCurrent | marie-core/src/secret/mod.rs:307-314 | switches to a loaded epoch, else refuses |
| Secrets.SecretManager.Retire | marie-core/src/secret/mod.rs:325-337 | unloads an epoch that is neither current nor the last one |
| Secrets.StepEffect | marie-core/src/secret/mod.rs:300-337 | each operation takes effect exactly when it may and changes no other epoch; otherwise it changes nothing and names the reason |
| Secrets.SecretManager.DeriveKey | marie-core/src/secret/mod.rs:385-396 | a loaded epoch's key derives the namespace's; another epoch is reported unknown |
| Secrets.SecretManager.ProveMembership | marie-core/src/secret/mod.rs:441-447 | a proof is made with the current epoch's node key |
| Secrets.SecretManager.VerifyMembership | marie-core/src/secret/mod.rs:457-466 | a proof is checked with its own epoch's node key and refused if that epoch is not loaded |
| Secrets.ProofIsAcceptedIff | marie-core/src/secret/mod.rs:441-466 | between any two rings, a proof is accepted for a node and a nonce iff its epoch is loaded with the same master key and it was made for that node and that nonce |
| Secrets.AcceptedIffOwn | marie-core/src/secret/mod.rs:457-466 | any proof whatever is accepted iff the ring itself would make it under that epoch |
| Secrets.OneCodeIsAccepted | marie-core/src/secret/mod.rs:457-466 | at most one code is accepted per epoch, node and nonce |
| Secrets.CurrentEpochStaysLoaded | marie-core/src/secret/mod.rs:300-337 | over every history of epoch operations the current epoch is loaded |
| Secrets.KeysNeverChange | marie-core/src/secret/mod.rs:300-337 | adding only fresh epochs, an epoch once loaded is later gone or bound to the same key |
| Secrets.RetiredStaysRetired | marie-core/src/secret/mod.rs:325-337 | adding only fresh epochs, a retired epoch never comes back |
| Secrets.StoredReadsBackIff | marie-core/src/secret/mod.rs:419-430 | between any two rings, what is stored reads back iff its epoch is loaded with a key deriving the same storage key |
| Secrets.StoredReadsBackUntilRetired | marie-core/src/secret/mod.rs:419-430 | what is stored under the current storage key reads back by its own tag until that epoch is retired, and is then refused as unknown |
| Vault.Vault.Store | marie-core/src/secret/vault.rs:89-104 | writes the sealed secret under the new reference, or nothing |
| Vault.Vault.Update | marie-core/src/secret/vault.rs:106-121 | replaces the sealed secret, or nothing |
| Vault.Vault.Remove | marie-core/src/secret/vault.rs:128-131 | removes exactly that reference |
| Vault.Vault.GetDecrypted | marie-core/src/secret/vault.rs:133-138 | decrypts with the key of the stamped epoch; unknown references are refused |
| Vault.ReadsBackIff | marie-core/src/secret/mod.rs:144-164 | a secret reads back iff epoch 0 holds, at reading time, the master key current at writing time |
| Vault.NamespaceReadsBackIff | marie-core/src/secret/mod.rs:144-164 | a secret reads back iff it is asked for under its own namespace and epoch 0 holds the key that was current; under another namespace decryption fails |
| Vault.VaultReadsBackIff | marie-core/src/secret/vault.rs:89-138 | over histories with fresh epochs and distinct keys, a secret reads back iff epoch 0 was current at the write and is still loaded |
| Vault.RotationLosesNewSecrets | marie-core/src/secret/vault.rs:89-104 | after one rotation, with both keys loaded, what the vault writes it cannot read |
| Rotation.RotationKeepsInteroperable | marie-core/src/secret/mod.rs:217-245 | any number of nodes and rotations, in any interleaving that respects the two barriers, keeps every current epoch loaded everywhere with the same key |
| Rotation.ProofVerifiesIff | marie-core/src/secret/mod.rs:441-466 | between rings of issued keys a proof is accepted iff its epoch is loaded |
| Rotation.ProofsAreAcceptedUntilRetired | marie-core/src/secret/mod.rs:217-245 | a proof by any node is accepted by any node at once, and later exactly as long as its epoch is loaded there |
| Rotation.BarriersAreNecessary | marie-core/src/secret/mod.rs:217-245 | an effective switch or retirement keeps all proofs verifying iff its barrier allowed it |
| Mixer.Fnv1a | marie-core/src/hrw.rs:32-39 | the hashing loop computes FNV-1a on 64-bit words |
| Mixer.Fmix64 | marie-core/src/hrw.rs:43-50 | the mixing steps compute the mixer |
| Mixer.ComputeStableHash | marie-core/src/lease/raft.rs:73-85 | the lease id is the mixed FNV-1a hash |
| Mixer.XorShiftInvolution | marie-core/src/hrw.rs:43-50 | the xor-shift by 33 undoes itself |
| Mixer.XorIsBitwise | marie-core/src/hrw.rs:43-50 | each bit of an exclusive-or is the parity of the two bits |
| Mixer.XorShiftIsByThirtyThree | marie-core/src/hrw.rs:44-48 | the xor-shift adds in the quotient by 2^33 |
| Mixer.MixerByNumbers | marie-core/src/hrw.rs:43-50 | the mixer told by quotients, remainders and its two constants |
| Mixer.FnvOfOneByte | marie-core/src/hrw.rs:29-39 | nothing hashes to the published basis; a byte is folded in before the product with the published prime |
| Mixer.FnvOfOneMore | marie-core/src/hrw.rs:32-39 | bytes are folded in one after the other |
| Mixer.MixerIsBijective | marie-core/src/hrw.rs:43-50 | the mixer has a two-sided inverse on 64-bit words |
| Mixer.TieIffHashesEqual | marie-core/src/hrw.rs:58-62 | two nodes tie for a key iff their FNV-1a hashes are equal, hence for one key iff for all |
| Mixer.KeysCombineAlikeIff | marie-core/src/hrw.rs:58-62 | two keys combine alike with a node iff their FNV-1a hashes are equal |
| Mixer.CombinedUnmixed | marie-core/src/hrw.rs:58-62 | unmixed, the combined hash is the exclusive-or of the node's hash with that of the key followed by a zero byte |
| Mixer.LeaseIdsCollideIffNodesTie | marie-core/src/lease/raft.rs:73-85 | lease ids collide iff the FNV-1a hashes do, iff the nodes tie for a key |
| Ranking.RankedSorts | marie-core/src/hrw.rs:93-100 | the ranking is a descending rearrangement of the candidates |
| Ranking.TopNIsBest | marie-core/src/hrw.rs:93-100 | as many as asked for or there are, in descending order, and no candidate left out beats one chosen |
| Ranking.RankingIsStable | marie-core/src/hrw.rs:93-100 | tied candidates keep their listing order |
| Ranking.OrderIsInvisibleIff | marie-core/src/hrw.rs:93-100 | the ranking is the same for every listing order iff no two different candidates tie |
| Ranking.RankingCommutesWithLeaving | marie-core/src/hrw.rs:93-100 | when nodes leave, the ranking only loses them: no other relative order changes |
| Ranking.LosersLeaveUnnoticed | marie-core/src/hrw.rs:93-100 | nodes outside the chosen ones leave without changing the choice |
| Ranking.PickAgreesWithTopIff | marie-core/src/hrw.rs:81-100 | the single pick is the last best candidate, the top of the ranking the first; they agree iff those are the same |
| Ranking.PickedIffAny | marie-core/src/hrw.rs:81-87 | a pick exists iff there is a candidate with the best score |
| Ranking.DistinctHashesNeverTie | marie-core/src/hrw.rs:66-68 | by the unweighted score, candidates never tie iff their FNV-1a hashes differ |
| Ranking.GradedHashesNeverTieIff | marie-core/src/hrw.rs:72-78 | by the score that one weight makes of the hash, however rounded, candidates never tie iff their FNV-1a hashes differ and grading keeps their combined hashes apart |
| Ranking.Annuary.PeerConnected | marie-core/src/annuary/mod.rs:278-291 | a new peer is entered; a known one keeps its entry |
| Ranking.Annuary.PeerDisconnected | marie-core/src/annuary/mod.rs:274-276 | removes exactly that peer |
| Ranking.Annuary.NodesWith | marie-core/src/annuary/mod.rs:165-178 | lists the capable peers, and the local node if capable, each as often as entered, in whatever order the table yields |
| Ranking.IncludesIffEachBit | marie-core/src/annuary/capabilities.rs:37-39 | capabilities are included iff each single one is |
| Ranking.Annuary.PickTopN | marie-core/src/annuary/mod.rs:143-156 | the n best candidates, the same for every table order unless candidates tie |
| Rpc.RpcClient.Track | marie-core/src/rpc/client.rs:116-118 | the call is awaited |
| Rpc.RpcClient.HandleReply | marie-core/src/rpc/client.rs:105-109 | an awaited call is resolved and no longer awaited; any other reply changes nothing |
| Rpc.RpcClient.HandleMessage | marie-core/src/rpc/client.rs:66-82 | only replies have an effect |
| Rpc.RpcServer.Register | marie-core/src/rpc/server.rs:119-129 | the executor stands under its name, replacing another |
| Rpc.RpcServer.ExecuteCall | marie-core/src/rpc/server.rs:105-114 | the named executor applied to the arguments and the caller, or the report that there is none |
| Rpc.RpcServer.HandleCall | marie-core/src/rpc/server.rs:95-103 | the reply carries the id of the call and its result |
| Rpc.RunsCorrelate | marie-core/src/post/mod.rs:181-196 | in every reachable state of clients, servers and medium, what travels was issued or computed for its id, and each client awaits and has resolved only its own calls |
| Rpc.ResolvedWithOwnResult | marie-core/src/rpc/client.rs:156-177 | under loss, duplication and reordering, a resolved call was delivered at some step, and its result is that of the executor registered last under its name before that step, applied to its own arguments and to that step's caller; it is the report that there is none iff no registration came before |
| Rpc.ResolvedOnce | marie-core/src/rpc/client.rs:105-109 | a call is resolved at most once: its first result stands and it is never awaited again |
| Rpc.ReplyMattersIffAwaited | marie-core/src/rpc/client.rs:105-109 | in every state, a reply changes anything iff its call is awaited by the client it reaches |
| Rpc.AwaitedReplyResolves | marie-core/src/rpc/client.rs:105-109 | an awaited reply resolves its call with its result and no other call |
| Rpc.IssuedIsAwaited | marie-core/src/rpc/client.rs:156-177 | an issued call is awaited whether or not it was sent |

## Left out

- Replay.ReplayEqualsDirectExecution: for logs of at most 2^32 entries, because beyond them answers land on the wrong entry (see `RunLog.ResolutionReachesEntry`).
- Checkpoint.CommittedRunsReplayIff: like the replay theorems, for logs of at most 2^32 entries; which values children export is an input of the history, the children themselves are not modelled.
- Command.CommandReadsBack: for lists it asks that the scanner keeps them as printed; some lists that it changes, by unescaping quotes outside brackets, happen to read back all the same.
- Lease.LeaseAuthority.AcquireLease: epochs are unbounded and instants and durations are integers; overflow of a 64-bit epoch and the range limits of the calendar library are not modelled.
- Rpc.RunsCorrelate: each client or server operation is one step and ids are assumed fresh; interleavings inside an operation, acknowledgements (which have no effect), deserialisation of a reply's payload and a call abandoned by its caller are not modelled.
- Ranking.GradedHashesNeverTieIff: the weighted score is any function of the combined hash, the same for nodes of equal weight; its floating-point formula, unequal weights and NaN are not modelled.
- Args.ParseValue: floating-point literals are a parameter, and the bracket depth is an unbounded integer where the source has 32 bits.
- Channels.Reduce: floats are reals; loss of precision when large integers are read as floats is not modelled.
- Secrets.ProofIsAcceptedIff: that derived keys and codes never collide is a law of the parameters, as it is of no function with bounded outputs.
- Vault.Vault.Store: key derivation and encryption always succeed for a loaded epoch; nonce generation, wiping of memory and re-encryption of old secrets are not modelled.
- Script evaluation: compiling and evaluating Rune, value conversions and the arity decoding of the request macros; a body is a function from its observations to its next action.
- The rest of the checkpointer: superstep compare-and-swap, the frame tree, which policy resumes a frame when, and the human-in-the-loop path, which ends in an unfinished branch; a frame's history is any sequence of runs, answers and imports.
- Consensus itself: elections and replication belong to openraft; only what it promises its storage is used.
- Network routers, databases, model calls, the user interfaces, peer liveness and expiry: input and output.
- Flag accessors, preset specs, proc-macros, catalogues and id formatting: they would only add easy members.
