# Verified model of stacks-bench-github

stacks-bench-github runs benchmarks of Stacks node builds for pull requests, branches, tags and chat commands, on a
fleet of workers, and reports the results. This project models the parts of it where correctness is hardest to see
from the code, as Dafny modules, and proves what those parts are for:

- **ripcat**, the parallel range downloader (`RangePlan`, `ResponseHeaders`, `RangeTransfer`, `OrderedWindow`,
  `DownloadRuns`, `TaskRuns`, `DownloadReach`). A download is a step system: a bounded window of range requests that can be refused, cut short,
  retried and resumed in any order, spool files on disk, and a loop that copies finished chunks to the writer. Every
  run outputs a prefix of the object, a reported run output all of it, the window never holds more than the
  configured bytes, every run ends, it succeeds exactly when nothing local failed and no range was lost, and each range
  task is the sequential resume loop against the answers it got. The window does fill, its ranges finish in any order,
  and against a server that sends what it is asked for a run reports.
- **Promotion of staged artifacts** (`Promotion`, `PromotionRuns`) from a staging key to their logical key, by head,
  copy and delete requests of which each can fail before or after its effect, or be applied long after its caller gave
  up, with any number of promoters and re-uploads interleaved; and `MirrorFetch`, concurrent downloads of a key into the
  local mirror.
- **Benchmark arguments and workloads** (`BenchArgs`, `Workload`, `RequestValidation`, `MemorySize`): the argument
  normal form that identifies a workload, its round trips, and which requests are accepted.
- **Comparison** (`Comparison`, `MultiVariant`) and **run numbering** (`RunNumbering`) of multi-variant submissions.
- **Pinned builds** (`LsRemote`, `Pins`, `BinaryCache`, `CacheRuns`, `Warming`, `WarmRuns`, `PinManager`): resolving pinned refs,
  protecting their binaries from eviction, and queueing builds for those that are missing, over whole runs.
- **Reporting and waiting** (`ReportSurface`, `WaitLoops`) and the **package dependency check** (`PackageDag`).

`Wrappers`, `Decimal` and `Text` hold the shared option and result types, decimal numerals and string helpers.

Objects whose methods change fields are classes (`Promotion.Bucket`, `ReportSurface.GitHubReportSurface`,
`BinaryCache.Store`, `Warming.JobQueue`, `PinManager.Manager`), loops are methods with invariants, and concurrent or
fault-prone behaviour is a step system whose steps are chosen freely. Network replies, clocks, store failures and
the trigger matcher are parameters.

## Where the code does less than it seems to promise

Each of these is stated by a lemma with the exact condition under which the property holds.

- The attempt count in the retry-exhausted error is right exactly when `max_retries` is below `u32::MAX`
  (`RangeTransfer.ExhaustionCountExact`; `RangeTransfer.NoAnswerReportsZero` is the case in which 0 is reported).
- A block range's `--count` is right for every range except the whole of `u64`, which is rendered with count 0
  (`Workload.FullRangeCountWraps`). It still identifies the workload, since no other range is rendered so
  (`Workload.ArgsIdentifyTheWorkload`).
- A parsed memory size is the written number of units exactly when that product fits `u64`; larger ones wrap in a
  build without overflow checks (`MemorySize.AcceptedSpellingIsStable`, `MemorySize.ParseScaled`).
- The cap on lifecycles is exact below `u32::MAX`; at `u32::MAX` the saturating product never exceeds it
  (`RequestValidation.LifecycleCapIsExact`).
- A resolved argument snapshot re-resolves to itself under every later default exactly when it is not empty
  (`BenchArgs.SnapshotIsStable`), and the argument string splits back to its tokens exactly when nothing is stored or
  the stored tokens that are kept are non-empty words (`BenchArgs.ArgStringRoundTrip`).
- A promoter can answer `false` although all its requests were served and its artifact is promoted. Whatever the
  requests of others do, it does so exactly when it was overtaken: after it saw the staging object and before its copy,
  a delete for the same artifact removed that object, and no upload put it back (`PromotionRuns.FalseExactly`,
  `PromotionRuns.FalseMeansOvertaken`; `PromotionRuns.FalseIsPossibleWithoutFaults` is such a run).
- A cache hit loads its entry's metadata before it takes the lock and writes it back after. So the pins a recompute
  sets last exactly when the entry is gone or no hit on it is in flight with the other flag
  (`CacheRuns.PinsHoldExactly`; `CacheRuns.StaleHitUnpins` is a run in which they do not), and a published entry's
  record keeps naming its own binary exactly when no hit on it is in flight with another record
  (`CacheRuns.RecordHoldsExactly`; `CacheRuns.StaleHitMislabels` is a run in which it does not).
- Nothing keeps two warming passes apart between a pass's query and its submission, and a recompute runs at the end of
  every job, so one commit can be built twice at once for one repository (`WarmRuns.TwoPassesBuildTwice`). Builds are
  kept apart over a whole run exactly when no submission finds a build that blocks it queued since its own query
  (`WarmRuns.SubmitExactly`, `WarmRuns.ApartExactly`).
- In a build without overflow checks a submission's run total is right exactly when it fits `i32`, and then every
  run's number is right too (`RunNumbering.NumbersFitExactly`).
- The warming dedup is per repository and commit while the cache is per commit, so two repositories pinning one commit
  get it built twice (`Warming.TwoReposBuildTwice`). When a commit is queued is `Warming.QueuedExactly`.

A promotion whose staging key equals its logical key would delete the only copy
(`Promotion.CleanAttemptKeepsArtifact`). That is unreachable: uploads lie below `staging/<attempt>/` and logical keys
below `<job>/`, and no id begins like `staging` (`Promotion.AcceptedIsSeparate`).

## Model

| member | source | states |
|---|---|---|
| RangePlan.ValidOptionsFillTheWindow | crates/ripcat/src/lib.rs:77-95 | Accepted options give a chunk of at least 64 KiB, and as many chunks as connections fill the window up to less than one byte per connection |
| RangePlan.ValidateExactly | crates/ripcat/src/lib.rs:77-95 | Options are accepted if and only if there are 1 to 256 connections, 64 KiB of window for each and an idle timeout; each error if and only if it is the first check to fail |
| RangePlan.PlanRanges | crates/ripcat/src/source.rs:378-389 | The planned ranges tile the object: contiguous from zero to the last byte, every range full but the last, none for an empty object |
| RangePlan.TilingIsUnique | crates/ripcat/src/source.rs:378-389 | There is only one such tiling, so the plan is determined by its description |
| RangePlan.TileStart | crates/ripcat/src/source.rs:378-389 | Closed form of the k-th range |
| RangePlan.TileCount | crates/ripcat/src/source.rs:378-389 | The number of ranges is the object's length divided by the chunk, rounded up |
| RangePlan.JoinedIsPrefix | crates/ripcat/src/source.rs:378-389 | The first n ranges' slices concatenate to a prefix of the object |
| RangePlan.PlanReassembles | crates/ripcat/src/source.rs:378-389 | All slices in order give back the object |
| ResponseHeaders.ParseContentRange | crates/ripcat/src/source.rs:413-433 | An accepted Content-Range has start at most end, end below total, all within u64 |
| ResponseHeaders.ContentRangeRoundTrip | crates/ripcat/src/source.rs:413-433 | Parsing a rendered Content-Range gives it back exactly when it is possible, and is refused otherwise |
| ResponseHeaders.ContentLengthRoundTrip | crates/ripcat/src/source.rs:198-216 | Every u64 length is read back, with or without a plus sign; a negative one is invalid |
| ResponseHeaders.LengthExactly | crates/ripcat/src/source.rs:198-216 | Only a missing header leaves the length open; one that is not text or not a number is invalid |
| RangeTransfer.BodyOutcome | crates/ripcat/src/source.rs:218-251 | A completed body has exactly the expected length, a cut one stopped short of it, and a refused one is never counted as exhausted |
| RangeTransfer.BodyCompletesExactly | crates/ripcat/src/source.rs:222-251 | The body loop completes if and only if some chunks at the front of the body reach the disk and are exactly the missing bytes |
| RangeTransfer.BodyEndsExactly | crates/ripcat/src/source.rs:224-250 | After the chunks that arrived the next event decides: too many bytes are refused, a failed write is fatal, and a stall, a break or the end leaves what came |
| RangeTransfer.AttemptOutcome | crates/ripcat/src/source.rs:156-252 | A completed attempt brings the range to its end, and a cut one stops short of it |
| RangeTransfer.AttemptCompletesExactly | crates/ripcat/src/source.rs:156-252 | An attempt completes if and only if a 206 with exactly the missing part of the range, the same ETag and no other length arrives, the seek works, and its body brings the missing bytes |
| RangeTransfer.AttemptVerdicts | crates/ripcat/src/source.rs:173-217 | Silence, 408, 429 and every 5xx are retried from the same byte; every other status and every 206 that does not fit are fatal |
| RangeTransfer.OthersAreHonest | crates/ripcat/src/source.rs:173-197 | Nothing is assumed of an answer that is not a partial response of the object |
| RangeTransfer.CutIsHonest | crates/ripcat/src/source.rs:224-239 | A body may break off or stall anywhere |
| RangeTransfer.OverrunIsHonest | crates/ripcat/src/source.rs:240-244 | A body may run past its range with any bytes |
| RangeTransfer.DownloadAttempt | crates/ripcat/src/source.rs:156-252 | Whatever the server answers, the spool file holds the object's slice up to what the attempt reports received |
| RangeTransfer.StreamBody | crates/ripcat/src/source.rs:218-251 | Streaming a body never writes past the range and extends the held slice by exactly the written count |
| RangeTransfer.Append | crates/ripcat/src/source.rs:245-249 | Writing the next bytes of the object extends the held slice |
| RangeTransfer.RetryDelayMonotone | crates/ripcat/src/source.rs:456-462 | Backoff never decreases and never exceeds 30 s |
| RangeTransfer.DelaysDouble | crates/ripcat/src/source.rs:456-462 | The first delay is the base, the next five each double the one before, the rest stay, and all are capped at 30 s |
| RangeTransfer.TotalDelayBound | crates/ripcat/src/source.rs:456-462 | All sleeps of a transfer are at most 30 s times the retries |
| RangeTransfer.DownloadTo | crates/ripcat/src/source.rs:105-154 | A finished transfer's file is the object's slice; at any end the received part is; attempts and time slept are exact and bounded by the retry budget |
| RangeTransfer.ResumeFrom | crates/ripcat/src/source.rs:120-153 | From any retry on, the transfer ends at the first attempt that is not transient, with that attempt's verdict, or with the budget used up |
| RangeTransfer.ResumeStopsAtFirstDecision | crates/ripcat/src/source.rs:120-153 | Success exactly when the first decided attempt completed and the flush worked; exhaustion exactly when every attempt of the budget was transient |
| RangeTransfer.ExhaustionCountExact | crates/ripcat/src/source.rs:134-146 | The reported attempt count is the true one if and only if max_retries is below u32::MAX |
| RangeTransfer.NoAnswerReportsZero | crates/ripcat/src/source.rs:130-138 | Against a server that never answers, the largest retry limit is reported as 0 attempts |
| OrderedWindow.PlannedConfigValid | crates/ripcat/src/source.rs:256-300 | The planner and the option checks produce a configuration the step system accepts, whose window fits the options |
| OrderedWindow.InitialInv | crates/ripcat/src/source.rs:279-324 | The invariant holds before the first step |
| OrderedWindow.StartKeeps | crates/ripcat/src/source.rs:105-119 | Counting a task as running, and then opening and sizing its file or failing to, keep the invariant |
| OrderedWindow.ReplyKeeps | crates/ripcat/src/source.rs:105-217 | Any reply to a range request keeps it |
| OrderedWindow.BodyKeeps | crates/ripcat/src/source.rs:218-252 | Any body event keeps it, with the spool file holding the object's slice |
| OrderedWindow.WrittenHolds | crates/ripcat/src/source.rs:218-252 | A body event's write leaves the task's spool file holding what the task counts |
| OrderedWindow.PullKeeps | crates/ripcat/src/source.rs:293-324 | Refilling the window, taking the next chunk and finishing keep it |
| OrderedWindow.CopyKeeps | crates/ripcat/src/source.rs:325-333 | Copying a piece of a spool file to the writer keeps the output a prefix of the object |
| OrderedWindow.EndCopyKeeps | crates/ripcat/src/source.rs:328-343 | Ending a chunk's copy and removing its file keeps the invariant |
| OrderedWindow.StepKeepsInv | crates/ripcat/src/source.rs:256-358 | Every step keeps the invariant |
| DownloadRuns.OutputIsAlwaysAPrefix | crates/ripcat/src/source.rs:256-358 | In every run, under any replies, cuts, retries and completion order, the output is a prefix of the object; a report means it is the object, with bytes, chunks and summed retries exact |
| DownloadRuns.InternalChecksNeverFail | crates/ripcat/src/source.rs:327-351 | The length checks on a spool file and on the whole output never fire |
| DownloadRuns.WindowNeverOverflows | crates/ripcat/src/source.rs:268-343 | In every run at most `connections` chunks are in the window and on disk, their bytes fit `window_bytes`, and `active_chunks` counts the running tasks and stays within 0 and `connections` |
| DownloadRuns.CounterIsExact | crates/ripcat/src/source.rs:304-315 | In every run `active_chunks` is the number of tasks that have started and not ended |
| DownloadRuns.ProgressNeverFalls | crates/ripcat/src/source.rs:335-376 | Between any two points of a run the shown bytes, chunks and retries never fall, stay within the object and its chunks, and the bytes are those of the completed chunks |
| DownloadRuns.FilesInWindow | crates/ripcat/src/source.rs:293-343 | Spool files exist only inside the window, each at most a chunk long |
| DownloadRuns.ActiveInWindow | crates/ripcat/src/source.rs:304-318 | Running tasks are inside the window |
| DownloadRuns.RequestsPerRange | crates/ripcat/src/source.rs:120-153 | Requests sent and attempts left never exceed max_retries + 1 for any range, at any point of a run |
| DownloadRuns.StepDecreases | crates/ripcat/src/source.rs:256-358 | Every step lowers a well-founded measure of requests, unread bodies and remaining work |
| DownloadRuns.NeverStuck | crates/ripcat/src/source.rs:256-358 | A run that is not over has a next step |
| DownloadRuns.FinalIsFinal | crates/ripcat/src/source.rs:344-358 | A reported or aborted run has none |
| DownloadRuns.AbortHasCause | crates/ripcat/src/source.rs:324-351 | A run aborts only on a local fault in its last step or on the failed range at the head of the window, with that range's error |
| DownloadRuns.SuccessExactly | crates/ripcat/src/source.rs:256-358 | A run that has come to its end reported if and only if no local operation failed and no range was lost |
| DownloadRuns.FaultAborts | crates/ripcat/src/source.rs:324-351 | A local fault anywhere in a run is its end |
| DownloadRuns.EveryRunEnds | crates/ripcat/src/source.rs:256-358 | No infinite run exists, whatever the schedule |
| TaskRuns.TaskRefinesResume | crates/ripcat/src/source.rs:105-154 | In every interleaved run each task stands where the sequential resume loop stands against the answers the run gave it: a finished one is finished by the loop with the same retries, a dead one has its error or never got its file |
| TaskRuns.ReplyFollows | crates/ripcat/src/source.rs:156-217 | One answer moves a task as it moves the loop |
| TaskRuns.BodyFollows | crates/ripcat/src/source.rs:218-252 | So does one body event, whatever other tasks do in between |
| TaskRuns.RequestsExact | crates/ripcat/src/source.rs:120-153 | The requests a run sent for a range: none before the start, one per retry while waiting, one more when streaming or finished, the whole budget when exhausted |
| TaskRuns.ReportCountsRequests | crates/ripcat/src/source.rs:321-357 | A reported run sent exactly one request per range and one per reported retry |
| TaskRuns.DeadWithoutRequest | crates/ripcat/src/source.rs:105-119 | A range lost without a request could not open or size its spool file |
| TaskRuns.FinishedWasFlushed | crates/ripcat/src/source.rs:143-151 | A range is done only when its file was flushed |
| DownloadReach.PullsFill | crates/ripcat/src/source.rs:293-318 | As many ranges as there are connections are in the window before any of them is done |
| DownloadReach.AnythingCanHappen | crates/ripcat/src/source.rs:105-252 | Whatever the others do, a task in the window can meet any file fault, any honest answer and any body |
| DownloadReach.CopyIsFree | crates/ripcat/src/source.rs:326-334 | The copy to the writer can be cut into any pieces and fail at any of them |
| DownloadReach.TaskCanFinish | crates/ripcat/src/source.rs:293-318 | Any range in the window can be the next to finish, with no other task changed |
| DownloadReach.AnyOrderIsPossible | crates/ripcat/src/source.rs:293-318 | The ranges of a full window can finish in every order |
| DownloadReach.SomeRunReports | crates/ripcat/src/source.rs:256-358 | Against a server that sends the range it is asked for, a run reports the whole object |
| Promotion.Bucket.FleetObjectMatches | crates/sbgh-daemon/src/artifact_store.rs:491-526 | True exactly for a safe key, an answered head, and an object of the right size and checksum |
| Promotion.MatchesAgree | crates/sbgh-daemon/src/artifact_store.rs:491-526 | Objects that match one artifact have one size and one digest, and one without a digest matches none |
| Promotion.MatchIgnoresCase | crates/sbgh-daemon/src/artifact_store.rs:491-526 | The case of a digest does not matter |
| Promotion.SafeKeyStaysInside | crates/sbgh-daemon/src/artifact_store.rs:319-330 | No prefix of a safe key leaves the mirror root |
| Promotion.PlainKeyIsSafe | crates/sbgh-daemon/src/artifact_store.rs:319-330 | Every path of plain names is a safe key |
| Promotion.Bucket.DeleteFleetStaging | crates/sbgh-daemon/src/artifact_store.rs:784-801 | Removes the safe key if the delete takes effect, nothing else |
| Promotion.Bucket.PromoteFleetUpload | crates/sbgh-daemon/src/artifact_store.rs:734-782 | The bucket and the answer after one attempt, for every combination of faults, are those of the specification function |
| Promotion.Bucket.PromoteArtifacts | crates/sbgh-daemon/src/fleet/service.rs:1037-1061 | Promoting an accepted manifest loses no artifact under any faults; `true` means all are promoted and recorded; without faults all are promoted, and the answer is `true` if the record is written |
| Promotion.PromoteOutcome | crates/sbgh-daemon/src/artifact_store.rs:734-782 | An attempt keeps the artifact, `true` means promoted, a promoted artifact stays so, and a clean attempt succeeds and empties staging |
| Promotion.PromoteKeepsOthers | crates/sbgh-daemon/src/fleet/service.rs:1037-1050 | Promoting one artifact of an accepted manifest neither loses nor demotes another |
| Promotion.AcceptedIsSeparate | crates/sbgh-daemon/src/fleet/service.rs:832-846 | In an accepted manifest no staging key is a logical key: derived from the attempt prefix of the one and the job prefix, service.rs:704-706, of the other |
| Promotion.CleanAttemptKeepsArtifact | crates/sbgh-daemon/src/artifact_store.rs:734-782 | The artifact survives a clean attempt if and only if its staging key differs from its logical key, which it does in every accepted manifest |
| PromotionRuns.EffectGrows | crates/sbgh-daemon/src/artifact_store.rs:734-801 | A copy or delete that takes effect late, after its caller gave up, still loses nothing |
| PromotionRuns.NothingIsRuledOut | crates/sbgh-daemon/src/artifact_store.rs:734-801 | Requests may be served, fail or be answered without effect, failed ones may take effect at any time, promoters join and start over at will, and uploads may come again |
| PromotionRuns.FailedRequestsLinger | crates/sbgh-daemon/src/artifact_store.rs:734-801 | A failed copy or delete changes nothing at once and is kept to take effect later |
| PromotionRuns.AdvanceKeeps | crates/sbgh-daemon/src/artifact_store.rs:734-782 | A promoter's next request keeps the invariant, whatever becomes of it |
| PromotionRuns.StepKeepsInv | crates/sbgh-daemon/src/artifact_store.rs:734-801 | So does every step of the interleaved system |
| PromotionRuns.RunInv | crates/sbgh-daemon/src/artifact_store.rs:734-801 | The invariant holds after every run, and the set of promoted artifacts only grows |
| PromotionRuns.ArtifactsAreNeverLost | crates/sbgh-daemon/src/artifact_store.rs:734-801 | In every interleaving of promoters, faults and late effects, staging or the logical key holds a matching object, and a promoter that answered `true` left its artifact promoted |
| PromotionRuns.PromotionIsPermanent | crates/sbgh-daemon/src/artifact_store.rs:734-801 | Once promoted at any point of a run, promoted at its end |
| PromotionRuns.RetryConverges | crates/sbgh-daemon/src/artifact_store.rs:734-782 | From any reachable state one failure-free attempt answers `true`, promotes, and empties staging |
| PromotionRuns.ServedReturnMeansPromoted | crates/sbgh-daemon/src/artifact_store.rs:734-782 | A promoter whose own requests since it started over were served knows a promoted artifact once it is past its copy, whatever became of the requests of others |
| PromotionRuns.FalseExactly | crates/sbgh-daemon/src/artifact_store.rs:756-782 | A served request of such a promoter ends in `false` if and only if it is a copy whose staging object is absent |
| PromotionRuns.GoneExactly | crates/sbgh-daemon/src/artifact_store.rs:734-801 | Between two points of any run a staging object disappears if and only if a delete for its artifact, served or late, removed it and no later upload put it back |
| PromotionRuns.FalseMeansOvertaken | crates/sbgh-daemon/src/artifact_store.rs:734-782 | A promoter whose own requests are served answers `false` if and only if it saw the staging object, then a delete for the same artifact removed it, and no upload came before its own copy |
| PromotionRuns.FalseIsPossibleWithoutFaults | crates/sbgh-daemon/src/artifact_store.rs:734-782 | A fault-free race in which one promoter answers `true` and the other `false` |
| PromotionRuns.SoloRunIsPromote | crates/sbgh-daemon/src/artifact_store.rs:734-782 | One promoter running alone computes exactly the sequential attempt, for all faults |
| MirrorFetch.PathIsNeverTruncated | crates/sbgh-daemon/src/artifact_store.rs:554-613 | Under any number of concurrent, cut, cancelled and failed downloads, the key path holds nothing, what it held at first, or the whole of an object that was fetched |
| MirrorFetch.FinishIsWhole | crates/sbgh-daemon/src/artifact_store.rs:587-613 | A download that returns the path has put its whole object there |
| MirrorFetch.NothingIsRuledOut | crates/sbgh-daemon/src/artifact_store.rs:554-613 | Downloads may begin at any time and be cut, die or get any part of what is left at any time |
| MirrorFetch.DownloadCanFinish | crates/sbgh-daemon/src/artifact_store.rs:587-613 | A download that is not cut puts its object in place |
| MirrorFetch.CutCleansUp | crates/sbgh-daemon/src/artifact_store.rs:605-609 | A cut download removes at most its own part file and leaves the path alone |
| MirrorFetch.StepKeepsInv | crates/sbgh-daemon/src/artifact_store.rs:97-108 | Every live part file holds the start of its own object, since no two downloads share one |
| BenchArgs.NormalizeInProcessRepetitions | crates/sbgh-core/src/bench_args.rs:133-160 | The peeking loop computes the recursive two-token-lookahead normal form |
| BenchArgs.StripKeepsTheRest | crates/sbgh-core/src/bench_args.rs:133-160 | Stripping keeps, in order, exactly the tokens that are neither a repetition flag nor its value |
| BenchArgs.StripKeepsMode | crates/sbgh-core/src/bench_args.rs:162-173 | Stripping does not change whether the arguments select a range |
| BenchArgs.RangeModeExactly | crates/sbgh-core/src/bench_args.rs:162-173 | Arguments select a range if and only if they give a start and a count or an end, alone or with an equals sign, and neither blocks nor transactions |
| BenchArgs.NormalizeMeaning | crates/sbgh-core/src/bench_args.rs:133-160 | The normal form is the kept tokens, clean of repetitions, plus one repetition exactly when one was given outside range mode; only the empty list becomes empty |
| BenchArgs.NormalizeIdempotent | crates/sbgh-core/src/bench_args.rs:133-160 | Normalising twice is normalising once |
| BenchArgs.SnapshotIsStable | crates/sbgh-core/src/bench_args.rs:111-127 | A resolved snapshot re-resolves to itself under every later default if and only if it is not empty |
| BenchArgs.ArgStringRoundTrip | crates/sbgh-core/src/bench_args.rs:97-127 | Splitting the joined arguments gives the tokens back if and only if nothing is stored or the kept stored tokens are all non-empty words |
| BenchArgs.WordsRoundTrip | crates/sbgh-core/src/bench_args.rs:97-127 | Stored words always round-trip, for the override and the default path |
| BenchArgs.SnapshotRoundTrip | crates/sbgh-core/src/bench_args.rs:40-86 | A resolved snapshot stored in a queued event is read back unchanged |
| BenchArgs.StoredResolvesAsQueued | crates/sbgh-core/src/bench_args.rs:40-86 | A stored event resolves to the arguments it was queued with, or to the default if it had none, and only an unreadable one to nothing |
| BenchArgs.StoredIsNormal | crates/sbgh-core/src/bench_args.rs:74-86 | What is read back from storage is in normal form |
| Workload.ToBenchArgs | crates/sbgh-core/src/workload.rs:66-100 | The pushing loops render the arguments the lemmas below are about |
| Workload.RenderedByName | crates/sbgh-core/src/workload.rs:66-100 | Looked up by name, every flag of a rendered workload has exactly the values the workload gives it, in order, and no other flag has a value |
| Workload.NormalForm | crates/sbgh-core/src/workload.rs:66-100 | Normalising the rendered arguments of any accepted workload moves the repetition to the end and changes nothing else |
| Workload.DecodeRecoversWorkload | crates/sbgh-core/src/workload.rs:66-100 | A decoder that reads the flags recovers target and warmup, including the end of every range, the full one too, from start and count |
| Workload.ArgsIdentifyTheWorkload | crates/sbgh-core/src/workload.rs:66-100 | Two workloads have the same normalised arguments if and only if target and warmup agree, whatever their repetitions, repository and revision |
| Workload.OneInProcessRepetition | crates/sbgh-core/src/workload.rs:66-100 | Exactly one in-process repetition, at the end, for txid and block targets, none for ranges |
| Workload.FullRangeCountWraps | crates/sbgh-core/src/workload.rs:66-100 | The block count is exact if and only if the range is not all of u64 |
| RequestValidation.ValidateBenchmarkRequest | crates/sbgh-core/src/workload.rs:210-266 | The checks, in order, and the trimmed request are those of the specification function |
| RequestValidation.SingleExactly | crates/sbgh-core/src/workload.rs:214-221 | A single request is accepted, unchanged, if and only if it is within the repetition cap |
| RequestValidation.ReasonExactly | crates/sbgh-core/src/workload.rs:214-240 | Which of the first four checks refuses a comparison, if and only if it is the first to fail |
| RequestValidation.LifecycleReason | crates/sbgh-core/src/workload.rs:241-251 | Too many lifecycles are reported as their product, or as u32::MAX if it does not fit |
| RequestValidation.FirstBadRef | crates/sbgh-core/src/workload.rs:253-262 | The first empty or repeated ref is the one reported |
| RequestValidation.TrimRefs | crates/sbgh-core/src/workload.rs:253-262 | The in-place trim with its growing `seen` set reports the first empty or repeated ref |
| RequestValidation.RefsPassIffDistinct | crates/sbgh-core/src/workload.rs:253-262 | No error if and only if the trimmed refs are non-empty and pairwise distinct |
| RequestValidation.NewLimits | crates/sbgh-core/src/workload.rs:153-164 | Limits built from any 32-bit settings are positive, 32-bit and no tighter than asked |
| RequestValidation.LifecycleCapIsExact | crates/sbgh-core/src/workload.rs:241-251 | The saturating product passes the cap if and only if the true product does, or the cap is u32::MAX |
| RequestValidation.AcceptedComparison | crates/sbgh-core/src/workload.rs:210-266 | What an accepted comparison is: the given one with its refs trimmed and distinct, two to max_variants of them, and the true product within a lifecycle cap below u32::MAX |
| RequestValidation.ComparisonAcceptedExactly | crates/sbgh-core/src/workload.rs:210-266 | A comparison is accepted if and only if its trimmed refs are distinct and non-empty, it has no shared revision, and it is within its caps, by the true product unless the lifecycle cap is u32::MAX |
| RequestValidation.ValidationIdempotent | crates/sbgh-core/src/workload.rs:210-266 | Validating an accepted request again returns it unchanged |
| MemorySize.DropTailTable | crates/sbgh-core/src/memory.rs:122-136 | Which suffixes reduce to a unit letter: with nothing, `b`, `i` or `ib` after it |
| MemorySize.MultiplierTable | crates/sbgh-core/src/memory.rs:88-136 | The multiplier of every suffix, and that all others are refused |
| MemorySize.UnitsAreBinary | crates/sbgh-core/src/memory.rs:31-34 | The units are 2^10, 2^20, 2^30 and 2^40 |
| MemorySize.RefusedExactly | crates/sbgh-core/src/memory.rs:88-118 | Each refusal if and only if its cause is the first: blank, no number, a number beyond u64, an unknown suffix |
| MemorySize.UnitIsLargest | crates/sbgh-core/src/memory.rs:138-151 | The printed unit divides the size and no larger one does |
| MemorySize.ParseScaled | crates/sbgh-core/src/memory.rs:88-120 | A number with a unit letter parses to the product modulo 2^64 |
| MemorySize.DisplayRoundTrip | crates/sbgh-core/src/memory.rs:88-151 | Parsing a displayed size returns it, for every u64 |
| MemorySize.AcceptedSpellingIsStable | crates/sbgh-core/src/memory.rs:88-151 | Any accepted spelling is stable under display and parse, and means its product if and only if that fits u64 |
| RunNumbering.MeasuredRunCount | crates/sbgh-core/src/models.rs:512-531 | Zero exactly for build-only specs; otherwise the requested count raised to at least one |
| RunNumbering.ListingOrderIrrelevant | crates/sbgh-daemon/src/job_source.rs:648-661 | The total and every run's number do not depend on the order the store lists the specs |
| RunNumbering.RunIndexInRange | crates/sbgh-daemon/src/job_source.rs:648-661 | Every run's number is below the submission's total |
| RunNumbering.RunIndexFollowsOrder | crates/sbgh-daemon/src/job_source.rs:648-661 | Numbers order runs exactly by spec index, then run index, and are equal only for the same run |
| RunNumbering.EveryNumberIsUsed | crates/sbgh-daemon/src/job_source.rs:648-661 | Every number below the total belongs to a run |
| RunNumbering.RunNumberingIsABijection | crates/sbgh-daemon/src/job_source.rs:648-661 | The numbering is a bijection onto 0 up to the total |
| RunNumbering.NumbersFitExactly | crates/sbgh-daemon/src/job_source.rs:652-661 | The 32-bit total is the true one if and only if that fits i32, and then every run's number is true too |
| Comparison.AggregateValues | crates/sbgh-daemon/src/comparison.rs:259-291 | Count, minimum, maximum, mean and sample variance of the totals, none for no runs |
| Comparison.AggregateMeaning | crates/sbgh-daemon/src/comparison.rs:259-291 | The mean lies between minimum and maximum, the variance is not negative, and zero exactly when all runs are equal |
| Comparison.VarianceIsSample | crates/sbgh-daemon/src/comparison.rs:271-283 | The variance times n - 1 is the sum of the squares less n times the squared mean |
| Comparison.MeanCountsBothTimes | crates/sbgh-daemon/src/comparison.rs:50-54 | A variant's mean times its runs is all the execution and commit time measured |
| Comparison.AggregatePermutes | crates/sbgh-daemon/src/comparison.rs:259-291 | The aggregate depends only on the multiset of totals |
| Comparison.StatsFromMetrics | crates/sbgh-daemon/src/comparison.rs:207-247 | A variant's statistics, consistent exactly when all runs have one workload shape |
| Comparison.StatsPermute | crates/sbgh-daemon/src/comparison.rs:207-247 | They do not depend on the order of the runs |
| Comparison.SquaredVerdict | crates/sbgh-daemon/src/comparison.rs:388-398 | Judging the squared sigma gives the verdict of the sigma |
| Comparison.VerdictBands | crates/sbgh-daemon/src/comparison.rs:388-398 | The verdict bands end at one, two and three sigmas, and an infinite sigma is strong |
| Comparison.RepeatedRunSigma | crates/sbgh-daemon/src/comparison.rs:331-355 | With repeated runs the squared form is the square of delta over the standard error in percent, with its verdict |
| Comparison.NoiseFloorSigma | crates/sbgh-daemon/src/comparison.rs:357-365 | With single runs it is the square of delta over root two times the noise floor |
| Comparison.ProvisionalExactly | crates/sbgh-daemon/src/comparison.rs:331-365 | A verdict is provisional, without a sigma, if and only if a side has a single run and there is no positive noise floor |
| Comparison.NoSpreadDecides | crates/sbgh-daemon/src/comparison.rs:348-354 | Repeated runs without spread: no difference is inconclusive, any difference is strong |
| Comparison.PairwiseMeans | crates/sbgh-daemon/src/comparison.rs:66-99 | A pairwise comparison exists if and only if shapes agree and the baseline is positive, and its delta is the excess in percent of the baseline |
| Comparison.CompareVariant | crates/sbgh-daemon/src/comparison.rs:293-329 | Exactly one of the comparison and the reason it is unavailable is set |
| Comparison.UnavailableExactly | crates/sbgh-daemon/src/comparison.rs:293-315 | Each reason for no comparison if and only if it is the first that holds, and a comparison if and only if none does |
| Comparison.ComparisonMeans | crates/sbgh-daemon/src/comparison.rs:317-329 | The delta times the baseline mean is the difference of the means times 100, positive exactly when the variant is slower, and the shown totals are within one half of the means |
| Comparison.OneRunIsPairwise | crates/sbgh-daemon/src/comparison.rs:293-365 | With one run each, the multi-variant path gives the pairwise comparison, or the reason there is none |
| Comparison.RunOrderIrrelevant | crates/sbgh-daemon/src/comparison.rs:207-365 | The comparison does not depend on the order of either side's runs |
| MultiVariant.SortIgnoresListing | crates/sbgh-daemon/src/comparison.rs:157-170 | With distinct indices the sorted specs do not depend on the listing |
| MultiVariant.FromSpecs | crates/sbgh-daemon/src/comparison.rs:157-204 | None below two specs; otherwise the first in order is the baseline and every other is compared with it |
| MultiVariant.BaselineIsSmallest | crates/sbgh-daemon/src/comparison.rs:157-185 | The baseline has the smallest index, and every other spec appears as a variant |
| MultiVariant.VariantsUseTheirRuns | crates/sbgh-daemon/src/comparison.rs:188-204 | Every variant is judged on the runs recorded for it, and on none if there are none |
| MultiVariant.OutcomesIgnoreOrder | crates/sbgh-daemon/src/comparison.rs:157-204 | Baseline and outcomes are the same under any permutation of specs and of runs within specs |
| LsRemote.ParseLsRemote | crates/sbgh-daemon/src/pin_manager.rs:387-433 | All branches in output order, then every tag exactly once, at its peeled commit if it has one, else its direct one |
| LsRemote.ClassifyExactly | crates/sbgh-daemon/src/pin_manager.rs:397-420 | A ref is a branch, a peeled tag, a tag or of no interest if and only if its full name says so |
| LsRemote.BranchesExactly | crates/sbgh-daemon/src/pin_manager.rs:397-404 | The branches are exactly the branch lines, each at its commit |
| LsRemote.TagCommitExactly | crates/sbgh-daemon/src/pin_manager.rs:422-431 | A tag stands for the commit on its peeled line if it has one, else for the object on its own line |
| LsRemote.LastIsTheOne | crates/sbgh-daemon/src/pin_manager.rs:387-433 | With each ref listed once, what is recorded for it is what its line says |
| LsRemote.TagsIgnoreLineOrder | crates/sbgh-daemon/src/pin_manager.rs:387-433 | A tag's commit does not depend on the order of the lines |
| Pins.PinnedTargets | crates/sbgh-daemon/src/pin_resolver.rs:78-103 | The targets are exactly the unexpired policies with the refs of their own repository that they select |
| Pins.PinEndsOnTime | crates/sbgh-daemon/src/pin_resolver.rs:83-119 | A pin holds until its time and not at it, and only for refs of its own repository |
| Pins.Resolve | crates/sbgh-daemon/src/pin_manager.rs:163-215 | Targets are returned if and only if every pinned repository resolves, and then all of them |
| BinaryCache.Evict | crates/sbgh-worker/src/binary_cache.rs:231-270 | Eviction takes only unpinned, unprotected entries, least recently used first, until the store fits or nothing more may go, and no entry more than needed; sizes are conserved |
| BinaryCache.EvictionReachesBudget | crates/sbgh-worker/src/binary_cache.rs:231-270 | After an eviction the store fits its budget or holds only what is pinned or may not go; a store within budget loses nothing |
| BinaryCache.IntactTotal | crates/sbgh-worker/src/binary_cache.rs:231-236 | The sizes added up are the true disk use while every record names its own binary |
| BinaryCache.Store.SetPinnedByCommit | crates/sbgh-worker/src/binary_cache.rs:202-213 | Every entry's flag, and nothing else, follows commit and environment, except where the metadata cannot be written |
| BinaryCache.RepinsExactly | crates/sbgh-worker/src/binary_cache.rs:202-213 | An entry is pinned exactly when its commit is wanted and it was built for this environment |
| BinaryCache.Store.EvictToBudget | crates/sbgh-worker/src/binary_cache.rs:191-194 | The store after eviction |
| BinaryCache.Store.Publish | crates/sbgh-worker/src/binary_cache.rs:145-185 | The new entry replaces the old one of its digest and survives the eviction that follows; a failure before the swap changes nothing, one at the rename leaves no entry |
| BinaryCache.Store.HasEntryFor | crates/sbgh-worker/src/binary_cache.rs:221-226 | True exactly when an entry of that commit and environment is stored |
| BinaryCache.Store.Get | crates/sbgh-worker/src/binary_cache.rs:103-133 | A hit that nothing comes between is served exactly when an intact entry is stored, and changes only its time |
| CacheRuns.EvictionKeepsPins | crates/sbgh-worker/src/binary_cache.rs:231-270 | Eviction neither drops nor makes a pin |
| CacheRuns.WriteBackPins | crates/sbgh-worker/src/binary_cache.rs:103-133 | After a hit writes its copy back an entry is pinned exactly as the copy says if it is still there, and no other entry changes |
| CacheRuns.StepPins | crates/sbgh-worker/src/binary_cache.rs:103-270 | For every step, repinning and eviction apart, exactly when a binary is pinned after it |
| CacheRuns.NothingIsRuledOut | crates/sbgh-worker/src/binary_cache.rs:103-270 | Every step has an outcome in every state: eviction always ends, and nothing others do is ruled out |
| CacheRuns.WithoutExactly | crates/sbgh-worker/src/binary_cache.rs:178-182 | Replacing an entry takes out that entry and no other |
| CacheRuns.LastsExactly | crates/sbgh-worker/src/binary_cache.rs:103-133 | What an entry shows lasts through every continuation that does not itself change it if and only if the entry is gone or no copy in flight disagrees |
| CacheRuns.PinsHoldExactly | crates/sbgh-daemon/src/pin_manager.rs:163-224 | After a resolved recompute the entry has the wanted flag, and keeps it through every run of hits, evictions, other publishes and abandoned recomputes, if and only if there is no entry or every copy of it in flight carries that flag |
| CacheRuns.RecordHoldsExactly | crates/sbgh-worker/src/binary_cache.rs:103-185 | After a publish the entry names its own binary, and keeps naming it until its next publish if and only if no copy in flight records another |
| CacheRuns.StepKeepsOneMeta | crates/sbgh-worker/src/binary_cache.rs:99-101 | Every step keeps one metadata file per digest |
| CacheRuns.StaleHitUnpins | crates/sbgh-worker/src/binary_cache.rs:103-133 | A three-step run in which a hit undoes a pin |
| CacheRuns.StaleHitMislabels | crates/sbgh-worker/src/binary_cache.rs:103-185 | A three-step run in which a hit writes an old record over a newly published binary |
| Warming.JobQueue.RecentBuildAttempt | crates/sbgh-postgres/src/stores/jobs.rs:1635-1670 | True exactly when a build of that repository and commit is in flight or failed since the given time |
| Warming.BlocksExactly | crates/sbgh-postgres/src/stores/jobs.rs:1635-1670 | A build in flight blocks its repository and commit, a failed one does for six hours, and a completed one does not |
| Warming.JobQueue.WarmMissing | crates/sbgh-daemon/src/pin_manager.rs:246-338 | Whatever others do to the queue and the cache before each query and between query and submission, and however queries and submissions fail, the loop with its seen set makes the decisions of the specification |
| Warming.QueuedExactly | crates/sbgh-daemon/src/pin_manager.rs:246-338 | Without faults of its own a pass queues a commit if and only if some target pinning it is uncached and unblocked at the moment the pass comes to it |
| Warming.QueuedOnce | crates/sbgh-daemon/src/pin_manager.rs:257-331 | A commit whose submission was acknowledged is not submitted again in the same pass |
| Warming.LogMeans | crates/sbgh-daemon/src/pin_manager.rs:257-335 | What each outcome of a target says of the cache, the pass, the query and the queue at that moment |
| Warming.EveryTargetIsServed | crates/sbgh-daemon/src/pin_manager.rs:246-338 | After a faultless pass every target was cached, blocked by a build of its own repository, or is queued |
| Warming.TwoReposBuildTwice | crates/sbgh-daemon/src/pin_manager.rs:246-338 | Two repositories pinning one commit get it queued in two successive passes |
| WarmRuns.PassMakesTheseSteps | crates/sbgh-daemon/src/pin_manager.rs:262-335 | Where the loop submits it asked before and what it found was true; elsewhere the queue is only what others made of it |
| WarmRuns.NothingIsRuledOut | crates/sbgh-daemon/src/pin_manager.rs:246-338 | Passes may ask at any time unless a build blocks them, requests may be carried out or lost at any time, and builds may end in any way |
| WarmRuns.StepKeepsInv | crates/sbgh-postgres/src/stores/jobs.rs:1635-1670 | What a query found stays true of the jobs there were then, whatever passes and builds do since |
| WarmRuns.SubmitExactly | crates/sbgh-daemon/src/pin_manager.rs:270-318 | A submission keeps builds of one repository and commit apart, in time and by the six hours after a failure, if and only if no build queued since its own query blocks it |
| WarmRuns.ApartExactly | crates/sbgh-daemon/src/pin_manager.rs:246-338 | Over every run of any number of passes, with submissions that fail and land late, builds are kept apart all along if and only if no submission was raced |
| WarmRuns.SerialIsUnraced | crates/sbgh-daemon/src/pin_manager.rs:270-318 | A submission with nothing queued since its query is not raced |
| WarmRuns.TwoPassesBuildTwice | crates/sbgh-daemon/src/pin_manager.rs:270-318 | Two passes that both ask before either submits build one commit twice for one repository |
| PinManager.Manager.RecomputePins | crates/sbgh-daemon/src/pin_manager.rs:163-224 | If any repository fails to resolve no pin changes and nothing is evicted; otherwise the cache makes exactly the two steps of a resolved recompute, and a stored entry is pinned exactly when a target is at its commit and it was built for this environment |
| PinManager.Manager.Recompute | crates/sbgh-daemon/src/pin_manager.rs:116-151 | After a recompute without query or submission faults every pinned ref is served when the pass comes to it: cached, building, cooling down, or queued, whatever other jobs do to cache and queue meanwhile |
| PinManager.SurvivorIsPinned | crates/sbgh-worker/src/binary_cache.rs:191-213 | An entry left after a recompute whose metadata could be written is pinned exactly when the recompute wants it |
| ReportSurface.GitHubReportSurface.Update | crates/sbgh-daemon/src/report.rs:332-415 | A phase or progress call's requests, error and new state are those of the specification step, whatever fails |
| ReportSurface.PhaseIsAlwaysSent | crates/sbgh-daemon/src/report.rs:544-550 | A durable phase tries every surface that applies |
| ReportSurface.SurfacesAreIndependent | crates/sbgh-daemon/src/report.rs:373-404 | A call that goes out updates each surface it uses as that surface's own delivery has it, whatever becomes of the other |
| ReportSurface.ErrorExactly | crates/sbgh-daemon/src/report.rs:373-415 | The comment's failure if and only if that was lost, the check run's if and only if only that was, none if and only if every used update was delivered |
| ReportSurface.DebounceExactly | crates/sbgh-daemon/src/report.rs:344-356 | Only progress within 30 s of the remembered update is held back, and then nothing happens at all |
| ReportSurface.OkMeansShown | crates/sbgh-daemon/src/report.rs:332-415 | An un-debounced success means every configured surface shows the update, the check run unless the phase is terminal |
| ReportSurface.LastUpdateIsLatest | crates/sbgh-daemon/src/report.rs:332-415 | Over every sequential run, the remembered time is that of the latest fully successful update |
| ReportSurface.ProgressIsDebouncedExactly | crates/sbgh-daemon/src/report.rs:558-632 | A progress update is withheld if and only if a fully successful update ended less than 30 s before |
| ReportSurface.PhasesAreNeverLost | crates/sbgh-daemon/src/report.rs:332-415 | In every run no phase is suppressed, and a phase's success means it is shown |
| WaitLoops.WaitInner | crates/sbgh-cli/src/lifecycle.rs:75-139 | The outcome of a worker wait over every sequence of snapshots, errors and a timeout |
| WaitLoops.WaitForScheduler | crates/sbgh-cli/src/scheduler.rs:99-120 | The outcome of a scheduler wait over every sequence of polls |
| WaitLoops.OutcomeIsUnique | crates/sbgh-cli/src/lifecycle.rs:75-139 | The polls determine the outcome and when it is reached |
| WaitLoops.EndingStops | crates/sbgh-cli/src/lifecycle.rs:75-139 | A wait stops early only on an ending snapshot, and times out only when none came |
| WaitLoops.SuccessMeans | crates/sbgh-cli/src/lifecycle.rs:110-135 | What a successful wait has reached, spelled out for each milestone |
| WaitLoops.ReachedEnds | crates/sbgh-cli/src/lifecycle.rs:110-135 | A snapshot on course that shows all of it ends the wait at once |
| WaitLoops.FailureMeans | crates/sbgh-cli/src/lifecycle.rs:83-130 | Each failure if and only if the last snapshot has that fault first |
| WaitLoops.OneGenerationOneSession | crates/sbgh-cli/src/lifecycle.rs:75-139 | Every snapshot up to a success had the same generation and session, the requested ones if given, and the required cordon state, and the returned one is the first to meet the milestone |
| WaitLoops.OnePause | crates/sbgh-cli/src/scheduler.rs:99-120 | Every poll up to a success was paused in one generation, and the returned one is the first quiescent |
| WaitLoops.SchedulerEndMeans | crates/sbgh-cli/src/scheduler.rs:99-120 | What success, each failure and a timeout of a scheduler wait say of the polls |
| PackageDag.TransitiveIds | scripts/check-package-dag.py:126-136 | The worklist ends on every graph, cycles included, with exactly the packages reachable by one or more edges |
| PackageDag.EdgesReach | scripts/check-package-dag.py:126-136 | Every dependency of the root, and of a package it reaches, is reached |
| PackageDag.ForbiddenNames | scripts/check-package-dag.py:138-164 | The forbidden names found are exactly those of reachable packages |
| PackageDag.ClosedUnderWalks | scripts/check-package-dag.py:126-136 | A set closed under dependencies holds every package a walk from the root ends in |

## Left out

- HTTP, TLS, S3 request signing, the async runtime and the file system: replies, effects and local faults are chosen freely by the environment. The server is assumed to send the object's bytes inside the range that its Content-Range names under the object's entity tag (sections 8.8.1, 13.1.1, 14.4 and 15.3.7 of RFC 9110).
- Bodies are finite sequences of chunks: a server that sends empty chunks forever without tripping the idle timeout is not modelled.
- The probe request that finds an object's length and entity tag, and temporary directory creation.
- The mirror's `put`: it copies in place, so `MirrorFetch` says nothing of a path while a put to it is under way.
- MirrorFetch: a response stream is taken to end without an error only when the whole object has come.
- `workload_key`: SHA-256 and JSON encoding are left out; equality and injectivity are proved on the tokens.
- Comparison: arithmetic is over reals, not f64; squared sigma replaces the square root, and the printed coefficient of variation is not modelled.
- BinaryCache.Evict: the u64 sum of entry sizes is unbounded here, and directories are removed whole or not at all.
- CacheRuns: a hit's metadata read and its hash check are one step, and the hash is taken to identify the binary.
- Pins.Resolve: repositories are visited in any order rather than by ascending id, which changes only the order of the targets; a store error and a failed listing both leave the pins alone and are not told apart in the result.
- Pins.PinnedTargets: the trigger matcher is a parameter.
- PinManager.Manager.Recompute: the timeout of a slow listing is the same as a failed one.
- WaitLoops: the timeout is the end of the given polls; sleeping between polls is not modelled.
- ReportSurface: comment and check-run texts are opaque; finding a marked comment and heartbeats are not modelled.
- The progress meter of ripcat's command line, and rate and remaining-time texts.
- The job store's claim and lease states, fleet leases, scheduler policy, guest planning, configuration, command lines, DTOs, and Markdown or Slack rendering: outside this model.
