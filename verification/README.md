# Verified models of the tftpos services

Dafny models of the stateful services and text transforms of the `tftpos` library, and proofs of what they
guarantee over whole runs, every interleaving or unbounded input. `dafny verify dfyconfig.toml` checks all of it.

| file | models |
|---|---|
| `Common.dfy` | options, results, ASCII lower case, filtering |
| `TokenBucket.dfy`, `RateLimiter.dfy` | the token-bucket limiter: one bucket, the keyed limiter object, clean-up |
| `Staging.dfy`, `StageCode.dfy` | firmware staging: concurrent calls as a state machine, and the code of one call tied to it |
| `Cache.dfy`, `CacheRuns.dfy`, `Memo.dfy` | the TTL cache object, runs of it, the memo decorator |
| `Cluster.dfy`, `ClusterWorkflow.dfy`, `ClusterRuns.dfy` | provisioning order, the cluster manager over its store, runs with crashes |
| `Records.dfy`, `Tracker.dfy`, `TrackerRuns.dfy` | provisioning records and their stored forms, three backends, the tracker, the migration, runs with saves that may fail |
| `EscapeXml.dfy`, `Secrets.dfy` | XML escaping, secret references |
| `Matcher.dfy` | host rule selection |

Objects that the source mutates are classes whose methods are proved against pure functions on their abstract
values; the lemmas are about those functions. Clocks are parameters of the operations that read them. Where a
clock is read before a lock is taken (the limiter) the values may arrive in any order; where it is read under the
lock (the cache) they never go back. Tokens, times and rates are reals.

## Where the code falls short

Some properties one would expect do not hold of the code. For each the exact condition is proved.

- With `burst` below one the check that creates a bucket is admitted against the rule
  (`TokenBucket.RuleHoldsIffBurstPositive`), `remaining` of an unknown key is wrong (`TokenBucket.RemainingIsExact`),
  and `retry_after` can name a time at which the check is still denied (`TokenBucket.RetryAfterSucceeds`).
- Forgetting stale buckets is invisible only if `burst >= 1`, the rate is positive and `rate * max_age >= burst`
  (`RateLimit.CleanupInvisibleIff`). With the defaults of the authentication group (10 per minute, burst 5) and
  `max_age` 3600 it holds; with a rate of 0.05 per minute it does not.
- A `stage` call that returns can leave a temporary behind, when closing or freeing it failed before the fall-back
  (`Staging.ReturnedWithTempLeft`); it does so exactly if a close or unlink failed (`Staging.TempsLeftIffLeaked`).
- Staging a firmware onto its own name through a symlink loses it (`Staging.SelfStagingLosesFirmware`); a returned
  symlink can be read exactly when `Staging.LinkReaches` holds.
- A backend save that raises leaves a tracker's memory ahead of its backend (`TrackerRuns.StillAgreesIff`,
  `TrackerRuns.BackendBehindIff`) until the next saved write of that MAC (`TrackerRuns.BackendCatchesUp`). It also
  leaves the history ahead of the callbacks fired: a missed callback is never fired later, so this lasts until the MAC
  is registered again or the tracker is cleared (`TrackerRuns.FiringsMatchHistoryIff`).
- A workflow whose order repeats a role can report PARTIAL although every host is COMPLETE
  (`ClusterRuns.WorkflowClassifiesIff`).
- A call of a memoised function whose cached value is None is recomputed if the entry expires between the two looks
  (`Memo.NoneCanExpireIff` says when this can happen, the contract of `Memo.Memoised.Call` when it does).
- `docs/CONTRACT.md` line 69 says that the tracker enforces the lifecycle drawn above it. The code accepts any state
  after any other (`TrackerRuns.AnyStateMayFollowAny`, `TrackerRuns.InstallationSkipped`). A record keeps to the lifecycle
  exactly if all its transitions since its registration were ones the lifecycle allows (`TrackerRuns.LifecycleKeptIff`).

## Model

| member | source | states |
|---|---|---|
| Common.LowerIff | tftpos/state.py:98 | The lower-case form of a text is the one text that is the same but for ASCII case and has no upper-case letter |
| TokenBucket.FoundIsWindowMinimum | tftpos/rate_limit.py:101-107 | The tokens a check finds are the minimum, over all windows ending at it, of burst + rate * elapsed less the admissions in the window; for clock values in any order |
| TokenBucket.AdmittedIffWithinEveryWindow | tftpos/rate_limit.py:87-112 | A check is admitted exactly when every window ending at it has room for it |
| TokenBucket.RuleHoldsIffBurstPositive | tftpos/rate_limit.py:90-99 | The admission rule holds of all checks of a non-empty run exactly when burst is at least one |
| TokenBucket.NoWindowExceeds | tftpos/rate_limit.py:56-60 | Under ordered clocks no window admits more than burst + rate * length, also when it ends in a denied check |
| TokenBucket.MostPermissive | tftpos/rate_limit.py:101-112 | No other policy that respects all windows has admitted more after any prefix of the same checks |
| TokenBucket.RemainingIsExact | tftpos/rate_limit.py:114-126 | `remaining` is exactly the number of back-to-back checks that are admitted before denials begin, if and only if the bucket exists or burst is at least one |
| TokenBucket.RetryAfterSucceeds | tftpos/rate_limit.py:128-145 | A check at the announced time is admitted, if and only if the key has no bucket, or a token, or rate and burst are positive |
| TokenBucket.EarlyCheckIsDenied | tftpos/rate_limit.py:128-145 | Every check of a bucket before the announced time is denied, whatever the rate and burst |
| TokenBucket.PollingUntilRetryAfter | tftpos/rate_limit.py:101-145 | Any number of checks before the announced time, in any clock order, are all denied; after them a check at that time is admitted if and only if burst is at least one |
| RateLimit.RateLimiter.constructor | tftpos/rate_limit.py:62-70 | A new limiter has no buckets and a rate of requests per minute over sixty |
| RateLimit.RateLimiter.Check | tftpos/rate_limit.py:81-112 | The in-place update of the key's bucket gives the decision and bucket of the specification and changes no other key |
| RateLimit.RateLimiter.Remaining | tftpos/rate_limit.py:114-126 | Returns the specified number and, having no modifies clause, changes nothing |
| RateLimit.RateLimiter.RetryAfter | tftpos/rate_limit.py:128-145 | Returns the specified time and changes nothing |
| RateLimit.RateLimiter.Reset | tftpos/rate_limit.py:147-150 | Leaves no bucket |
| RateLimit.RateLimiter.Cleanup | tftpos/rate_limit.py:152-168 | The loop removes exactly the stale buckets and counts them |
| RateLimit.OtherKeysDoNotMatter | tftpos/rate_limit.py:88-112 | In a run over many keys, each answer for a key is the window rule on that key's own clock values since its bucket was created |
| RateLimit.ResetStartsAfresh | tftpos/rate_limit.py:147-150 | After a reset anywhere in a run every later answer is that of a new limiter |
| RateLimit.SimulationStep | tftpos/rate_limit.py:81-168 | One operation gives a forgetful limiter and one that never forgets the same answer and keeps them related |
| RateLimit.CleanupInvisibleIff | tftpos/rate_limit.py:152-168 | Clean-up with a given age changes no answer of any in-order run if and only if burst >= 1, rate > 0 and rate * age >= burst |
| RateLimit.CleanedLimiterObeysRule | tftpos/rate_limit.py:81-168 | A limiter that cleans up anywhere in an in-order run still decides by the window rule over all checks ever made on the key |
| Staging.DoKeepsInv | tftpos/staging.py:133-193 | Every step of every call and every unstage keeps the protocol invariant: what each temp holds at each point, and whose it is |
| Staging.EntryChangesOnlyWhole | tftpos/staging.py:147-168 | A served name changes in one step only by an unstage of it or by the rename with which a call for it returns |
| Staging.EntriesAreInitialOrPublished | tftpos/staging.py:133-193 | In every interleaving with any failures, a served name denotes its initial node or one that a call for it published |
| Staging.PublishedIsWhole | tftpos/staging.py:143-168 | What a call published is a symlink to its firmware or a copy of all the firmware held when that call opened it |
| Staging.EntryStaysPresent | tftpos/staging.py:133-213 | A served name once present is never absent until it is unstaged |
| Staging.ReadersSeeWholeFiles | tftpos/staging.py:133-213 | In every interleaving with any failures, reading a served name, through any number of links, gives nothing or the whole content of a file that stood in the directory at the start |
| Staging.ReturnServesFirmware | tftpos/staging.py:136-195 | When a call returns its target reads as the copied content, or, through a symlink, as the firmware exactly when the firmware's own path avoids the target and leaves a link to follow |
| Staging.ReturnedCopyIsOfThisCall | tftpos/staging.py:162-195 | In every run, when a call returns and its target holds a copy, the target reads as the firmware did when this call opened it |
| Staging.SelfStagingLosesFirmware | tftpos/staging.py:143-147 | A run from one firmware file in which staging it onto itself returns and the name can no longer be read |
| Staging.UnreturnedCallChangedNothing | tftpos/staging.py:148-174 | No move of a call that raised or crashed changed any served name |
| Staging.TempsLeftIffLeaked | tftpos/staging.py:138-174 | A finished call leaves temps of its own exactly if one of its closes or unlinks failed on an existing temp |
| Staging.ReturnedWithTempLeft | tftpos/staging.py:138-168 | A run in which a call returns through the fall-back and its first temp remains |
| Staging.OutcomeIff | tftpos/staging.py:136-193 | In every interleaving a finished call raised exactly if its checks or a system call of the copy phase failed; if it returned, it serves a symlink exactly if one was asked for and nothing in the symlink phase failed, otherwise a copy |
| Staging.FirmwareWasChecked | tftpos/staging.py:109-117 | A call that got beyond its checks found its firmware readable at its own first move |
| Staging.MoveMakesProgress | tftpos/staging.py:133-193 | Every move of an unfinished call, failing or not, brings it nearer to its end |
| StageCode.Directory.Stage | tftpos/staging.py:66-195 | The nested control flow of the source, system call by system call, is a series of moves of the state machine and ends in its returned or raised state |
| StageCode.Directory.StageLink | tftpos/staging.py:137-153 | The symlink block: any failure in it ends where the fall-back copy begins |
| StageCode.Directory.StageCopy | tftpos/staging.py:162-193 | The copy block: any failure in it raises |
| StageCode.Directory.Copy2 | tftpos/staging.py:167 | The copy is many writes, any of which may fail, and ends with the whole content written |
| StageCode.Directory.CleanUp | tftpos/staging.py:148-153 | The failure handler's unlink, whose own failure is swallowed |
| StageCode.Directory.Unstage | tftpos/staging.py:198-213 | True exactly if the entry was there and is now removed, false exactly if there was none, raises exactly if the unlink failed otherwise; it is the unstage step of the state machine |
| StageCode.DriveIsRun | tftpos/staging.py:66-195 | A call driven alone is a run of the system, so what is proved of runs holds of the code |
| Cache.CacheStats.constructor | tftpos/cache.py:19-23 | Counters start at zero |
| Cache.TTLCacheWrapper.Get | tftpos/cache.py:96-116 | A live entry is returned and counted as a hit, an expired one is dropped; global counters grow alike |
| Cache.TTLCacheWrapper.OldestKey | tftpos/cache.py:123-125 | The loop finds a key with the least timestamp |
| Cache.TTLCacheWrapper.Put | tftpos/cache.py:118-130 | Stores the entry, evicting an oldest one from a full cache; raises exactly when maxsize is not positive |
| Cache.TTLCacheWrapper.Invalidate | tftpos/cache.py:132-140 | Drops exactly the key's entry, counts an eviction if there was one, and says whether there was |
| Cache.TTLCacheWrapper.InvalidateMatching | tftpos/cache.py:142-158 | Drops, counts and counts as evictions exactly the entries whose key satisfies the predicate |
| Cache.TTLCacheWrapper.Clear | tftpos/cache.py:160-163 | Drops all entries and leaves the counters |
| CacheRuns.NeverExceedsMaxsize | tftpos/cache.py:118-130 | The cache never holds more than maxsize entries, none if maxsize is not positive |
| CacheRuns.EntryLeavesIff | tftpos/cache.py:96-163 | Except in a put, an entry leaves exactly by a get that finds it older than ttl, an invalidation of its key, or a clear; in a put only a least recent one leaves a full cache; all others stay as they are |
| CacheRuns.AnswersTell | tftpos/cache.py:96-116 | A get counts a hit exactly if its entry is there and at most ttl old, and else a miss |
| CacheRuns.EvictionsTell | tftpos/cache.py:96-158 | Evictions grow by the number of entries that leave, except in a clear |
| CacheRuns.InvalidatedIsGone | tftpos/cache.py:132-163 | In every run a key invalidated, alone or by a predicate, or cleared, and not put since is not resident and a get of it misses |
| CacheRuns.ResidentIffSpared | tftpos/cache.py:96-163 | In every run what was put last for a key is resident exactly as long as no operation has dropped it |
| CacheRuns.GetHitsIff | tftpos/cache.py:96-116 | In every run a get hits exactly if what was put last for its key has been spared since and is at most ttl old |
| CacheRuns.ResidentIsLatestPut | tftpos/cache.py:96-163 | Every resident entry is the latest put for its key |
| CacheRuns.LostIsNoNewer | tftpos/cache.py:121-128 | Under clocks that may stand still, a key lost to capacity and not put again was last written no later than any resident |
| CacheRuns.LostWasWrittenBeforeResidents | tftpos/cache.py:121-128 | Under strictly increasing clocks its last put came before the last put of every resident |
| CacheRuns.ResidentIffMostRecent | tftpos/cache.py:118-130 | With puts alone a written key is resident exactly when fewer than maxsize keys were written after it |
| CacheRuns.AnswersAreConserved | tftpos/cache.py:96-116 | In every run hits and misses add up to the gets |
| CacheRuns.InsertsAreConserved | tftpos/cache.py:96-163 | In every run the keys inserted add up to the size, the evictions and the entries cleared |
| CacheRuns.GlobalIsSumOfCaches | tftpos/cache.py:72-77 | The global counters are the sum over all caches ever created |
| Memo.Memoised.Call | tftpos/cache.py:209-226 | One call recomputes exactly when no entry answers it at its two looks, and stores what it computed; pure functions are answered exactly, cached None included; what it does is a series of steps of one caller of the interleaved system |
| Memo.NextKeepsInv | tftpos/cache.py:202-230 | Every step of every concurrent call, and any invalidation, keeps it true that each entry was stored under its timestamp by a call for its key that computed it, and that answers are justified |
| Memo.AnswersAreJustified | tftpos/cache.py:202-230 | In every interleaving an answer was computed during its call, or was stored, at most ttl before it was read, by another call for the same key as the value which that call had computed |
| Memo.CachedAnswerWasComputed | tftpos/cache.py:202-230 | For each cached answer the call that computed it: same key, same value, evaluated between its begin and its store, and stored at most ttl before the read |
| Memo.PureAnswersAreExact | tftpos/cache.py:202-230 | For a function that does not vary with time every answer is its value |
| Memo.NoneCanExpireIff | tftpos/cache.py:211-226 | A cached None can be live at the first look of a call and expired at its second exactly if maxsize is at least one, ttl is not negative and the function ever gives None for the key |
| Cluster.OrderedGroups | tftpos/cluster.py:174-196 | The loop builds non-empty groups, each the hosts of one role or those not listed, that flatten to the visiting order |
| Cluster.EveryHostIsVisited | tftpos/cluster.py:184-196 | Every host is in the visiting order, whatever the order lists |
| Cluster.VisitsAreOrdered | tftpos/cluster.py:174-196 | Without a repeated populated role the visits are strictly ordered by role position, unlisted roles last, then by host position |
| Cluster.VisitsByGroup | tftpos/cluster.py:174-196 | Also with repeated roles: the visits are, for each entry of the order in turn, all hosts with that role by position, then those with unlisted roles |
| Cluster.VisitedOnceIff | tftpos/cluster.py:184-187 | A host is visited twice exactly when a populated role is repeated; otherwise the visits are a permutation of the hosts |
| ClusterWorkflow.FindHost | tftpos/cluster.py:511-516 | The first host with the MAC, letter case aside |
| ClusterWorkflow.SafeNameIff | tftpos/cluster.py:29-46 | A safe name is, but for one line feed at its end, letters, digits, dots, underscores and hyphens, the first a letter or digit, and no two dots together |
| ClusterWorkflow.FirstErrorIff | tftpos/cluster.py:427-433 | The outcome of a visit is what the least raising callback raises, and success exactly if none raises |
| ClusterWorkflow.CompleteAtIs | tftpos/cluster.py:524-537 | The marked host is COMPLETE and all else about the hosts as before; the cluster is COMPLETE if all hosts are, else PARTIAL if one has failed, else as before |
| ClusterWorkflow.FailAtIs | tftpos/cluster.py:563-582 | The marked host is FAILED with the error and all else about the hosts as before; the cluster is PARTIAL if a host is complete, else FAILED if all have failed, else as before |
| ClusterWorkflow.ClusterManager.CreateCluster | tftpos/cluster.py:357-396 | Accepts exactly clusters with a safe and new name, at least one host, and distinct MACs and hostnames |
| ClusterWorkflow.ClusterManager.StartProvisioning | tftpos/cluster.py:398-463 | Refuses exactly unsafe names, unknown clusters and running clusters; otherwise saves exactly the specified records in order, calls exactly the specified callbacks, and stores the final record |
| ClusterWorkflow.ClusterManager.VisitHost | tftpos/cluster.py:423-442 | Two saves around the callbacks of one host, which ends COMPLETE exactly if none of them raises and else FAILED with the first error |
| ClusterWorkflow.ClusterManager.RunCallbacks | tftpos/cluster.py:427-433 | The callback loop stops at the first callback that raises, and succeeds exactly if none raises |
| ClusterWorkflow.ClusterManager.FindByMac | tftpos/cluster.py:511-516 | The search loop returns the first host with the MAC |
| ClusterWorkflow.ClusterManager.MarkHostComplete | tftpos/cluster.py:501-540 | The stored record becomes the specified one; unsafe names, unknown clusters and unknown hosts are refused |
| ClusterWorkflow.ClusterManager.MarkHostFailed | tftpos/cluster.py:542-585 | The stored record becomes the specified one; unsafe names, unknown clusters and unknown hosts are refused |
| ClusterRuns.CalledUntilFirstError | tftpos/cluster.py:427-433 | A callback is called on a visit exactly when all before it returned |
| ClusterRuns.EveryHostFinishes | tftpos/cluster.py:421-442 | After a workflow every host is COMPLETE or FAILED, whatever failed before it |
| ClusterRuns.HostOutcome | tftpos/cluster.py:421-442 | After a workflow a host is FAILED exactly if a callback raised on its last visit, else COMPLETE, and keeps its name, MAC and role |
| ClusterRuns.HostError | tftpos/cluster.py:427-433 | The error of a host is what the first raising callback raised on the last of its visits on which one raised, also if a later visit succeeded |
| ClusterRuns.HostErrorUnchanged | tftpos/cluster.py:427-433 | If no callback ever raised for a host its error is the one it had |
| ClusterRuns.WorkflowState | tftpos/cluster.py:444-455 | The cluster ends COMPLETE exactly if no callback raised on any visit, else PARTIAL exactly if a host is COMPLETE, else FAILED |
| ClusterRuns.CallNumber | tftpos/cluster.py:421-433 | The callbacks are called visit after visit, on each visit one after the other for its host, up to and including the first that raises |
| ClusterRuns.SavesShowProgress | tftpos/cluster.py:415-458 | There are 2n + 1 saves; every save before the last is PROVISIONING with all earlier hosts finished and all later hosts untouched |
| ClusterRuns.OneHostProvisioning | tftpos/cluster.py:422-442 | In save t the host of visit t / 2, and no other, is PROVISIONING, exactly for even t |
| ClusterRuns.MarkClassifies | tftpos/cluster.py:524-582 | A mark that leaves no host pending or provisioning leaves the exact classification |
| ClusterRuns.WorkflowClassifiesIff | tftpos/cluster.py:444-455 | Every finished workflow reports the exact classification if and only if no populated role is repeated |
| ClusterRuns.StoredStateIsHonest | tftpos/cluster.py:398-585 | In every sequence of workflows, cut off after any save, and marks: COMPLETE means all hosts COMPLETE, FAILED means all hosts FAILED |
| ClusterRuns.OverlappingStateIsHonest | tftpos/cluster.py:398-585 | The same however many workflows and marks overlap, save by save |
| ClusterRuns.StepIsAlone | tftpos/cluster.py:398-458 | A workflow that nothing overlaps leaves exactly its save number t in the store |
| Records.DictRoundTrip | tftpos/db.py:145-183 | A record read back from its dictionary is the record |
| Records.DictDecodesIff | tftpos/db.py:164-183 | A dictionary is read back exactly if it has the five texts, the name of a state and a history, if any, that is read back; each attribute comes from its own key, with the defaults of the source |
| Records.HistoryDecodesIff | tftpos/db.py:66-73 | A stored history is read back, entry for entry, exactly if each has the name of a state and a time |
| Records.StateNames | tftpos/state.py:14-20 | Exactly the six stored names are read back as states |
| Records.RowRoundTrip | tftpos/db.py:66-108 | A record read back from its row is the record with its MAC in lower case |
| Records.RowDecodesIff | tftpos/db.py:66-85 | A row is read back exactly if its state and history are, each attribute from its own column |
| Records.UpdateRow | tftpos/db.py:259-274 | Updating an existing row leaves the row that inserting the record would make |
| Records.MemoryBackend.Save | tftpos/db.py:433-434 | The store is updated at the lower-case MAC |
| Records.MemoryBackend.Get | tftpos/db.py:436-437 | Answers as the store |
| Records.MemoryBackend.ListAll | tftpos/db.py:439-440 | Lists every record of the store once |
| Records.MemoryBackend.Delete | tftpos/db.py:442-443 | Removes the record and says whether it existed |
| Records.MemoryBackend.Clear | tftpos/db.py:445-446 | Empties the store |
| Records.JSONBackend.Save | tftpos/db.py:371-375 | The file encodes the store updated at the lower-case MAC |
| Records.JSONBackend.Get | tftpos/db.py:377-383 | Decodes the answer of the store |
| Records.JSONBackend.ListAll | tftpos/db.py:385-388 | Decodes every record of the store once |
| Records.JSONBackend.Delete | tftpos/db.py:390-397 | Removes the record and says whether it existed |
| Records.JSONBackend.Clear | tftpos/db.py:399-401 | Empties the store |
| Records.SQLAlchemyBackend.Save | tftpos/db.py:253-280 | The table encodes the store updated at the lower-case MAC, whether a row was inserted or updated |
| Records.SQLAlchemyBackend.Get | tftpos/db.py:282-288 | Decodes the answer of the store |
| Records.SQLAlchemyBackend.ListAll | tftpos/db.py:290-298 | Decodes every record of the store once, the latest updated first |
| Records.SQLAlchemyBackend.Delete | tftpos/db.py:300-308 | Removes the record and says whether it existed |
| Records.SQLAlchemyBackend.Clear | tftpos/db.py:310-314 | Empties the store |
| Tracker.ProvisionTracker.constructor | tftpos/state.py:66-78 | A tracker over a backend answers every get as the store the backend mirrors, up to MAC letter case |
| Tracker.ProvisionTracker.Register | tftpos/state.py:80-102 | Memory, backend and fired callbacks follow the specification, also when the save raises: then memory has changed and nothing else |
| Tracker.ProvisionTracker.Transition | tftpos/state.py:104-125 | The same for transitions; raises exactly for unknown MACs and failed saves |
| Tracker.ProvisionTracker.SetNetboot | tftpos/state.py:151-169 | The same for enabling and disabling netboot |
| Tracker.ProvisionTracker.Clear | tftpos/state.py:171-175 | The same for clearing |
| Tracker.ProvisionTracker.Get | tftpos/state.py:127-129 | Looks the record up by lower-case MAC |
| Tracker.ProvisionTracker.IsNetbootEnabled | tftpos/state.py:141-149 | Unknown MACs count as enabled |
| Tracker.MirroredStoresAgree | tftpos/state.py:75-78 | Any two stores one backend mirrors answer every get alike, so a restarted tracker answers as the old one did if all its saves succeeded |
| TrackerRuns.EveryHistoryTells | tftpos/state.py:80-125 | In every run, whatever saves fail, from any tracker whose histories do, each history starts with REGISTERED at started_at, ends with the current state at updated_at, and completed_at is the time of its last COMPLETE entry |
| TrackerRuns.AgreeingHistoriesTell | tftpos/state.py:75-78 | What a new tracker loads has histories that tell if what was stored had |
| TrackerRuns.HistoriesTellAcrossRestarts | tftpos/state.py:66-125 | In any number of sessions, each loading what the backend holds after the one before, the histories tell after every operation, in memory and in the backend, whatever saves fail |
| TrackerRuns.HistoryOnlyGrows | tftpos/state.py:104-125 | A history only grows until the MAC is registered again or the tracker is cleared |
| TrackerRuns.RecordIsOfRegistration | tftpos/state.py:80-102 | A record has the MAC as given, the profile and the system of its last registration, netboot on until it is set, and no error until one is given |
| TrackerRuns.NetbootIsLastSet | tftpos/state.py:151-169 | The netboot flag is what it was last set to since the registration |
| TrackerRuns.ErrorIsLastGiven | tftpos/state.py:120-121 | The error message is the last one given since the registration, also after a later success |
| TrackerRuns.FiringsMatchHistoryIff | tftpos/state.py:95-125 | From any tracker, the callbacks fired for a MAC since the operation that last registered it match its history entry for entry if and only if no save failed that came with one of its entries; if the run does not register it, the same of what the run fires and adds |
| TrackerRuns.BackendHoldsLastSaved | tftpos/state.py:97-175 | In every run the backend holds for a MAC what memory held after its last saved write |
| TrackerRuns.BackendCatchesUp | tftpos/state.py:97-175 | Whatever saves failed before, if the last write of a MAC was saved, memory and backend agree on it |
| TrackerRuns.StillAgreesIff | tftpos/state.py:97-175 | One operation leaves memory and backend in agreement on a MAC if and only if it does not write it, is saved, or changes nothing; a transition always changes something |
| TrackerRuns.BackendBehindIff | tftpos/state.py:97-175 | In every run, for a MAC not registered since its last saved write, memory and backend agree if and only if it has had no transition since and has the same netboot flag, or, if cleared since, was unknown then |
| TrackerRuns.UnsavedRegistrationDisagrees | tftpos/state.py:80-102 | For a MAC whose last registration was not saved, and no write since, memory and backend disagree unless the stored record was registered at the same time |
| TrackerRuns.SavedRunsMirror | tftpos/state.py:80-175 | If no save fails, the backend holds exactly the records in memory after every run |
| TrackerRuns.AnyStateMayFollowAny | tftpos/state.py:104-125 | For any two states a run in which the tracker accepts the one after the other |
| TrackerRuns.InstallationSkipped | tftpos/state.py:104-125 | A record registered and then at once COMPLETE is accepted and off the documented lifecycle |
| TrackerRuns.LifecycleKeptIff | docs/CONTRACT.md:61-69 | In every run a history is a path of the documented lifecycle if and only if each transition since the registration was allowed from the state of that moment, and, if registered before the run, the history was such a path then; from any tracker where such an earlier history ends with the state of its record |
| Tracker.MigrateJsonToSqlite | tftpos/db.py:455-493 | The loop imports well-formed entries, skips malformed ones, and returns the number of the former |
| Tracker.LastWellFormedWins | tftpos/db.py:455-493 | For any entries, the last well-formed one for a MAC is what the target holds for it |
| Tracker.OthersAreKept | tftpos/db.py:455-493 | For a MAC without a well-formed entry the target holds what it held |
| Tracker.MigrationPreserves | tftpos/db.py:455-493 | Migrating a file the JSON backend wrote, into any database, counts every entry; its MACs then answer as the file did, up to letter case, and all others as before |
| EscapeXml.Escape | tftpos/validation.py:164-168 | The loop makes the replacements one after the other |
| EscapeXml.SequentialConcat | tftpos/validation.py:164-168 | Escaping distributes over concatenation, for any map |
| EscapeXml.EscapeIsPerCharacter | tftpos/validation.py:155-168 | The successive replacements equal one substitution per character |
| EscapeXml.EscapeByCharacter | tftpos/validation.py:155-168 | The escape of a text is, character by character, one of the five entities or the character itself |
| EscapeXml.PerCharacterIffAmpersandFirst | tftpos/validation.py:155-161 | Among all orders of the map this holds if and only if the ampersand comes first |
| EscapeXml.DecodeUndoesEscape | tftpos/validation.py:164-168 | Decoding the five predefined entities of section 4.6 of XML 1.0 gives the text back |
| EscapeXml.EscapeIsInjective | tftpos/validation.py:164-168 | Different texts have different escapes |
| EscapeXml.EscapedHasNoMarkup | tftpos/validation.py:164-168 | An escaped text contains no angle bracket and no quote |
| Secrets.KeyAtStartIff | tftpos/secrets.py:23 | The pattern matches exactly texts that start with a written reference |
| Secrets.TokensAreLossless | tftpos/secrets.py:226-239 | The split into characters and references loses nothing |
| Secrets.LiteralsHoldNoReference | tftpos/secrets.py:239 | No stretch of literal text contains a complete reference |
| Secrets.EveryReferenceIsToken | tftpos/secrets.py:239 | Every reference is found whatever surrounds it, and the text on both sides is split as if it stood alone |
| Secrets.SecretIsInsertedOnce | tftpos/secrets.py:229-239 | A secret is inserted once and not scanned again, whatever it contains |
| Secrets.PlainTextIsKept | tftpos/secrets.py:239 | A text in which the pattern matches nowhere resolves to itself, whatever the provider knows |
| Secrets.ResolveAroundReference | tftpos/secrets.py:226-239 | Around any reference, the text before it is resolved by itself, then the reference, then the text after it; the first failure is the result |
| Secrets.SecretBetweenPlainTexts | tftpos/secrets.py:229-239 | A reference between two texts without any is replaced by its secret and the texts are kept |
| Secrets.ResolveTokensIff | tftpos/secrets.py:229-239 | A text resolves to its rendering, or fails with the first reference whose key is missing |
| Secrets.ResolveFailsIffMissing | tftpos/secrets.py:210-224 | A nested value fails exactly when some referenced key is missing, with the first in document order and its path |
| Secrets.ResolvedAtEveryPath | tftpos/secrets.py:210-224 | At every path the resolved value has the same kind, keys, length or non-text, and each text is rendered |
| Secrets.ListResolves | tftpos/secrets.py:219-223 | A list whose elements all resolve resolves to the list of what they resolve to |
| Secrets.ListFails | tftpos/secrets.py:219-223 | Any other list fails as its first element that does |
| Secrets.DictResolves | tftpos/secrets.py:214-218 | A dictionary whose values all resolve resolves to one with the same keys and what they resolve to |
| Secrets.DictFails | tftpos/secrets.py:214-218 | Any other dictionary fails as its first value that does |
| Secrets.ResolveProfile | tftpos/secrets.py:179-206 | The loop over the fields resolves them all or fails with the first failure |
| Matcher.StableSortProperties | tftpos/matcher.py:15 | The sort is sorted and a permutation |
| Matcher.StableSortIsStable | tftpos/matcher.py:41 | The sort keeps the order of elements with one key |
| Matcher.HostMatcher.Match | tftpos/matcher.py:17-42 | The method returns the earliest rule with the least (tier, priority) among those given, or none |
| Matcher.BestIsLeast | tftpos/matcher.py:28-42 | The single-pass minimum is none exactly when no rule matches, and otherwise precedes every other matching rule by (tier, priority, position) |
| Matcher.TwoSortsAreOneMinimum | tftpos/matcher.py:14-42 | The two stable sorts select what the single pass selects |
| Matcher.NormalizedAt | tftpos/matcher.py:26 | Position by position, letter case is dropped and a hyphen becomes a colon |
| Matcher.AnswerIsLeast | tftpos/matcher.py:28-42 | The answer is a matching rule with the least tier, then priority, then position; there is none exactly if no rule matches |
| Matcher.AnswerHolds | tftpos/matcher.py:44-98 | The first criterion that the answer shares with the query holds, or the answer has no criteria; so a rule whose first shared criterion fails is never selected |
| Matcher.ExactMacWins | tftpos/matcher.py:54-58 | If a rule has the query's MAC, up to letter case and separators, the answer has too |
| Matcher.PrefixWins | tftpos/matcher.py:60-64 | If a rule without MAC has a prefix of the query's MAC, the answer has the MAC or a prefix of it |
| Matcher.HostnameWins | tftpos/matcher.py:66-69 | Next come host name patterns |
| Matcher.SubnetWins | tftpos/matcher.py:71-74 | Next come subnets |
| Matcher.SerialWins | tftpos/matcher.py:76-79 | Next come serial numbers |
| Matcher.GroupWins | tftpos/matcher.py:81-84 | Next come groups |
| Matcher.ArchWins | tftpos/matcher.py:86-89 | Next come architectures |
| Matcher.CatchAllMatches | tftpos/matcher.py:91-98 | A rule without criteria matches every query |
| Matcher.AddedRuleIsHarmlessIff | tftpos/matcher.py:28-42 | A rule added anywhere leaves the selected rule selected if and only if it does not match, has a greater (tier, priority), or has the same and stands later; then the answer is the same |

## Left out

- Webhook delivery (`tftpos/webhooks.py`): HTTP and the thread pool are outside; the backoff sum and the bounded log would only add easy members.
- MAC, hostname, URL and package validation, and `normalize_mac`: pattern tests that would only add easy members.
- Hypervisors, power drivers, consoles, TLS, repositories, cloud images, cloud-init, ISO detection, configuration, logging, metrics, audit, keys: subprocesses, sockets, libraries or plain lookups.
- SQL, JSON and TOML text, file permissions: a stored value reads back equal, and a table is a map by lower-case MAC.
- The order in which the in-memory and JSON backends list records, and where SQL puts rows without `updated_at`, is left open.
- Letter case beyond ASCII: `Lower` is `str.lower` on ASCII.
- Floating-point rounding: reals are used, and the hit rate is not modelled.
- Staging: the path and traversal checks, directories among the entries, several directories, and a firmware file that is overwritten in place while it is copied. `mkstemp` is assumed never to issue a name twice and callers never to use its names.
- StageCode.Directory.Stage: models one caller; interleavings are proved for the state machine of `Staging`.
- Exceptions that are not `OSError` in `stage`, and not `Exception` in cluster callbacks: covered only as a crash, which is a call that is never moved again or a workflow cut off after a save.
- Cache entries are a map, so which of several entries with the same oldest timestamp is evicted is left open.
- `clear_all_caches` resets the global counters and is not an operation of the runs.
- A memoised function that raises, and puts made directly into a memoised function's cache.
- Cluster hosts are values named by their position in the loaded record; callbacks that change the cluster or re-enter the manager are not modelled. Timestamps, profiles, shared configuration and webhook lists of clusters are not modelled.
- Tracker.ProvisionTracker.Register: the in-memory backend is modelled as holding a copy of the record, while in the source it shares the tracker's object.
- A save of the tracker's backend that fails leaves the backend as it was; half-written files are not modelled. The saves of the migration do not fail.
- A callback of the tracker that raises: the firing is recorded, and the state is the same as if it had returned.
- Globs and subnet tests of the matcher are abstract predicates, and the library sort is modelled by an insertion sort that is proved stable.
- The firmware field of a profile, which `resolve_profile` sets aside and puts back unchanged.
