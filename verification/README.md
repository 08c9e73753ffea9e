# A verified model of the duplicacy agent

A Dafny model of the parts of the backup agent that are hard to get right by reading them
one function at a time, with proofs about every input, every run and every reachable state:

- the persistent cache of `list -files` output: size evictor, background warmer and sweep
  reconcile, as the feedback loop they form;
- the directory-size gatherer, a recursive walk over a cache that may be cut off anywhere;
- the job registry with its semaphores, as an interleaving protocol;
- the streaming and serving path of a listing, with its two gates;
- filter rendering, the storage rollup and the mount guard.

`dafny verify dfyconfig.toml` checks the whole project.

## How it is organised

| file | holds |
|---|---|
| `Collections`, `Sums`, `Options`, `Text` | facts about sets and sequences, sums over finite maps and groups of them, optional values, lines of text |
| `CacheModel` | the two cache tables as data; what one eviction, put, attempt or reconcile may do to them |
| `Eviction` | what eviction keeps, and that it settles at once |
| `Sweeps` | sweeps as traces of atomic events, with what client requests do in between |
| `Settling` | why warmer and evictor cannot chase each other |
| `Protection` | why a repo whose outcome is unknown loses nothing |
| `Plans` | what a sweep learns from vends and listings, and what it therefore deletes |
| `FilesCache` | the store as a class: the operations on the tables, with their loops |
| `Newest`, `Warmer` | the sweep as methods on that class |
| `Accounting` | why whatever a sweep attempts in time ends up cached or marked, and what lets a marked revision back in |
| `WarmerRuns` | the theorems of `Settling`, `Protection` and `Accounting` for the sweeps those methods perform |
| `Flapping` | two runs that never settle, on the other side of the conditions of the settling theorem |
| `TreeSizes`, `TreeFiles` | the size gatherer as a class over a fixed tree; what its totals mean, told from the files |
| `Jobs` | the registry as a state machine, and the ring of terminated jobs as a class |
| `Streaming`, `Listing`, `Serving` | tail ring, spool and child run; what a run means to the cache; the handler and the warmer at the gates |
| `Filters`, `Precedence` | rendering and reading back; which lines stand in a file and which scope decides |
| `Rollup`, `CheckHistory` | the rollup queries; their figures as sums over the lines of all check runs |
| `Mountinfo` | the mount guard |

Each method is proved against a specification that does not mention its body, and the main
theorems are about those specifications. The sweep is the largest instance: `FilesCache`
methods are proved to make the steps of `Sweeps.Step`, `Warmer.WarmListCacheSweep` is proved
to produce a trace of such steps of the shape `Warmer.IsSweep`, and `WarmerRuns` carries the
theorems about traces over to traces of that shape.

## What the proofs found

- **The warmer settles under one condition.** Pruned revisions may be cached when the first
  sweep starts. Rows older than the live revisions never matter, and rows that the reconcile
  judges matter only until it has run. What must not happen is that strays, rows newer than a
  live revision that belong to a known repo which no longer lists the storage, are so many that
  together with the newer live revisions they fill the warm window
  (`WarmerRuns.RoomDespiteStrays`, `WarmerRuns.WarmerSettles`). No relation between
  `ListCacheWarmN` and the store's own window is needed. The bound is tight: for every
  window, as many strays as it has room for and one live revision make a plan without failures
  on which n sweeps list n times, for every n (`Flapping.FlapsForStrays`).
- **A listing can cross the spool ceiling unmarked.** When the ceiling is crossed only by the
  bytes that closing the gzip writer emits, the run is reported as a spool failure and no
  marker is left (`snapshot_files_stream.go:285-292`). `Streaming.RunDecides` says exactly when,
  `Streaming.CeilingCrossedUnseen` gives a script, and `Flapping.LateCeilingFlaps` shows such a
  revision listed in every sweep.
- **Switching the row cap off lets nothing back in.** A limit that changes brings the revisions it
  kept out back within one sweep (`WarmerRuns.ChangedLimitsReadmit` says exactly when). A row cap
  of 0 means that there is none (`snapshot_files_stream.go:327`), but the warmer compares sizes with
  it all the same (`snapshot_files_warm.go:236-238`), so revisions marked for an earlier row cap
  stay unlisted (`WarmerRuns.NoRowCapReadmitsNothing`).
- **A successful cancel can be lost.** `Jobs.CancelledExactly` says which jobs end as cancelled;
  `Jobs.CancelCanBeLost` is a run in which a queued copy is cancelled and ends as failed, although
  the comment at `jobs.go:1037-1041` says that it never spawns.
- **A hang-up drops a sound row.** Any failure to deliver a cached listing, a client that leaves
  included, removes the row (`duplicacy.go:319-325`; `Serving.ServeCached`, and
  `Serving.HangUpDropsSoundRow` for one row and one client).
- **The entry cap can uncover a picker.** It keeps entries by file count alone.
  `TreeSizes.CapCoversExactly` says for which caches no way of enforcing it takes away a shown
  directory, and `TreeSizes.CapCanUncover` gives a tree that no capped cache covers.
- **A mount without a source can slip past the guard.** Linux prints an empty source as nothing
  between two blanks. Without an optional field the record then has nine fields and is ignored
  (`Mountinfo.EmptySourceSlipsThrough`); with one, the super options are taken for the source.
  `Mountinfo.RecordReadsBack` says exactly what is read.
- **An empty filter line.** The comment at `filters.go:404-406` says that a rule naming the
  root itself is dropped. For the root `/` the rule `/` is emitted, with an empty pattern
  (`Filters.EmptyPatternExactly`).
- **A mount point can be misread.** The kernel escapes space, tab, newline and backslash; the
  reader splits at any Unicode white space. `Mountinfo.MountPointReadsBackExactly` says for
  which paths that matters, `Mountinfo.CarriageReturnTears` gives one. File-system types are
  printed escaped but never unescaped (`Mountinfo.TypeReadsBackExactly`); this never changes
  what the guard decides (`Mountinfo.TypeIsJudgedRight`). White space the kernel does not escape
  in the root of a bind mount shifts the later fields; such records are left out.
- **A filtered rollup can count more.** A rollup for some repos counts an older revision of a
  snapshot whose newest revision another repo has recorded; `Rollup.SelectionIsExact` says
  exactly when it does not, `Rollup.SelectionCanCountMore` gives a table on which it does.

## Model

| member | source | states |
|---|---|---|
| FilesCache.PinPolicy | snapshot_files_cache.go:271-287 | The depth is the largest one between the floor and the warm window whose running sum fits the cap, else the floor; without a cap it is the window. |
| FilesCache.RunSumIsPrefix | snapshot_files_cache.go:290-318 | The running sums over per-rank totals are the sizes of the newest-k prefixes of all partitions together. |
| FilesCache.FilesCache.EffectivePinN | snapshot_files_cache.go:290-318 | The depth read from the tables is the pin depth of the cache as it is. |
| FilesCache.FilesCache.RankedScan | snapshot_files_cache.go:440-453 | Exactly the rows beyond the pin, once each; of two in the scan the first is deeper, or as deep and used no later. |
| FilesCache.FilesCache.MarkCapEvicted | snapshot_files_cache.go:226-241 | Writes one marker with size and cap for every item, later items winning, and touches no other marker. |
| FilesCache.FilesCache.CollectVictims | snapshot_files_cache.go:455-481 | The victims are a shortest initial part of the scan over unshielded rows that frees enough, or all of them; the recorded ones are exactly those inside the warm window. |
| FilesCache.FilesCache.EvictBySize | snapshot_files_cache.go:424-498 | The new tables are those of one eviction: at most the cap or no eligible row left, minimal in scan order, markers for exactly the victims inside the window. |
| FilesCache.FilesCache.PutGzipped | snapshot_files_cache.go:392-413 | An upsert that keeps an existing rowid or takes the one after the largest, with the owner, size and access time given, followed by one eviction without exemptions. |
| FilesCache.EvictionExists | snapshot_files_cache.go:424-498 | For all tables, configurations and exemptions there is a pin depth and a victim set, so there is an eviction. |
| FilesCache.FilesCache.MaxRowid | snapshot_files_cache.go:44-61 | The fence is the largest rowid in the table, 0 for an empty table. |
| FilesCache.FilesCache.SweepBegin | snapshot_files_cache.go:44-61 | All repos become pending under the current fence; the tables stay. |
| FilesCache.FilesCache.SweepRepoDone | snapshot_files_cache.go:63-70 | Exactly the finished repo stops being pending. |
| FilesCache.FilesCache.SweepEnd | snapshot_files_cache.go:72-79 | Nobody is pending any more. |
| FilesCache.FilesCache.Touch | snapshot_files_cache.go:337-357 | A hit sets the access time of its row to now and changes nothing else; without a row nothing changes. |
| FilesCache.HitDefersEviction | snapshot_files_cache.go:337-357 | A row served to a client goes after every equally deep unshielded row that was used before. |
| FilesCache.FilesCache.Drop | snapshot_files_cache.go:361-368 | A row that could not be served in full is removed and nothing else. |
| FilesCache.FilesCache.DeleteByRowID | snapshot_files_cache.go:645-662 | Deleting by the rowids of some keys deletes exactly the rows of those keys, because rowids identify rows. |
| FilesCache.FilesCache.ReconcileMarkers | snapshot_files_cache.go:538-586 | Exactly the markers that are judged and not in the keep-set go. |
| FilesCache.FilesCache.ReconcileAgainstKeep | snapshot_files_cache.go:598-640 | Exactly the rows and markers that are judged and not in the keep-set go; the result counts the rows. |
| Eviction.DeepRowHasShallowNewer | snapshot_files_cache.go:424-498 | A row beyond depth d has at least d newer rows within depth d, the counting fact behind pin stability. |
| Eviction.PrefixUntouched | snapshot_files_cache.go:264-318 | Removing any rows beyond the pin leaves the rows within every depth up to the pin as they were. |
| Eviction.PinNeverDecreases | snapshot_files_cache.go:264-318 | Eviction beyond the pin never lowers the recomputed pin depth. |
| Eviction.EvictionIsIdempotent | snapshot_files_cache.go:424-498 | A second eviction with the same exemptions deletes and marks nothing. |
| Eviction.OverflowMeansFloor | snapshot_files_cache.go:264-287 | When what is pinned alone exceeds the cap, the pin is the floor. |
| Eviction.EvictionQuiets | snapshot_files_cache.go:424-498 | An eviction that shields nobody leaves a cache that fits, or only the floor of every partition. |
| Eviction.QuietEvictsNothing | snapshot_files_cache.go:424-498 | From such a cache no eviction does anything, whoever is exempt. |
| Eviction.ShieldedRowSurvives | snapshot_files_cache.go:467-472 | Pinned rows, exempt rows and pending rows at or below the fence survive every eviction unchanged. |
| Eviction.DeeperGoesFirst | snapshot_files_cache.go:440-481 | No shallower row goes while a deeper unshielded row stays. |
| Eviction.LeastRecentGoesFirst | snapshot_files_cache.go:440-481 | Of two equally deep rows the one used last does not go while the other, unshielded, stays. |
| Eviction.EvictionStopsInTime | snapshot_files_cache.go:455-481 | The evicted row that comes last by depth and use had to go: with it the cache would exceed its cap. |
| Eviction.OverflowIsShielded | snapshot_files_cache.go:467-472 | When the cache still exceeds its cap, what is left beyond the pin belongs to an exempt repo, or to a pending one from before its sweep. |
| Eviction.EvictionMarksExactly | snapshot_files_cache.go:473-497 | The markers afterwards are the old ones and, for exactly the evicted rows inside the warm window and their owners, new ones with size and cap. |
| Eviction.FittingPrefixStays | snapshot_files_cache.go:264-287 | The newest revisions of all snapshots, to any depth within the window, survive every eviction when together they fit the cap. |
| Eviction.TwoNewestRemain | snapshot_files_cache.go:415-424 | When the two newest of every snapshot alone exceed the cap, exactly they remain of an unshielded eviction (fewer under a smaller window). |
| Eviction.RoomyPutEvictsNothing | snapshot_files_cache.go:392-413 | A put that fits changes one row and nothing else. |
| Settling.EvictionKeepsSettled | snapshot_files_cache.go:226-241 | A settled candidate that is evicted carries a truthful marker afterwards, if the newer rows that are no longer live leave it inside the warm window. |
| Settling.StepSettles | snapshot_files_warm.go:217-255 | With that room, listing a candidate settles it, and no event of a clean sweep unsettles it. |
| Settling.ReadmissionEvictsNothing | snapshot_files_warm.go:239-249 | A settled candidate is listed again only when it fits: it becomes a row, every other row and all markers stay. |
| Settling.QuietStep | snapshot_files_warm.go:164-186 | A quiet cache only gains candidates until an unsettled one is listed. |
| Settling.Progress | snapshot_files_warm.go:164-186 | At every point of a sweep, listings of unsettled candidates are paid for by fewer unsettled ones; in a quiet cache the others by fewer missing ones. |
| Settling.SweepCost | snapshot_files_warm.go:164-205 | One sweep lists at most once per candidate and leaves the cache quiet; from a quiet cache its listings lower a potential. |
| Settling.OrphansUpTo | snapshot_files_cache.go:598-640 | During a sweep the rows that are no longer live only get fewer and keep their owners, and from the reconcile on none is left that the sweep judges. |
| Settling.SweepMakesRoom | snapshot_files_cache.go:598-640 | After a sweep there is room for a revision if counting only the rows the sweep does not judge there was room before. |
| Settling.Settles | snapshot_files_cache.go:264-270 | Any number of clean sweeps on a fixed live set list at most 2n^2 + 2n times for n candidates, from any tables in which the newer rows that are neither live nor judged leave every candidate inside the warm window. |
| Settling.ListedStaysSettled | snapshot_files_warm.go:217-255 | What was listed in a sweep that began with room for it is cached or marked in every later state of that sweep and of all later sweeps. |
| Flapping.FlapsForStrays | snapshot_files_cache.go:525-535 | For every window of at least one and every n a run of n completed sweeps over a plan without failures that lists n times, from exactly as many strays as the window has room for. |
| Flapping.LateCeilingFlaps | snapshot_files_warm.go:305-328 | For every n a run of n completed sweeps that lists n times a revision whose stream crosses the ceiling when it is closed. |
| Newest.NewestRevisionsPerSnapshot | snapshot_files_warm.go:364-378 | For any listing, of every snapshot a longest run of at most N newest revisions, newest first; without repetitions exactly the revisions with fewer than N newer ones, each after exactly its newer ones. |
| Warmer.WarmWanted | snapshot_files_warm.go:217-255 | Wanted exactly when the rank is within the current pin depth, the revision is not cached and no marker forbids it; the rank counts up. |
| Warmer.WarmOneListing | snapshot_files_warm.go:305-328 | A listing becomes a row or the marker that says why not; a failed child changes nothing. |
| Warmer.WarmCandidates | snapshot_files_warm.go:164-186 | Attempts distinct candidates with their rank among the live revisions, all of them unless the budget of the sweep is spent. |
| Warmer.WarmRepo | snapshot_files_warm.go:135-187 | What the sweep learns from a repo and which revisions it attempts; it is cut off exactly when a look before one of the storages finds the context ended. |
| Warmer.WarmListCacheSweep | snapshot_files_warm.go:102-210 | The whole sweep is a trace of store events of a fixed shape; it is cancelled exactly when one of its looks at the context finds it ended; exactly the repos whose vend and listings succeeded before that are released; it attempts all that is offered unless cancelled or out of budget, lists at most 200 revisions that count, and reports how many rows the reconcile deleted. |
| Warmer.WarmedAreSuccesses | snapshot_files_warm.go:164-186 | What counts against the budget of a sweep are the listings that ended well and could be spooled. |
| Protection.UnknownRepoKeepsItsRows | snapshot_files_cache.go:44-93 | Through all evictions of a sweep and of requests served meanwhile, the reconcile and the last eviction, a repo that never finished keeps every row it had, under its rowid, unless another repo's request stores that revision or a request drops the row. |
| Protection.TakenOver | snapshot_files_cache.go:392-413 | After such a request the row is not the repo's any more. |
| Protection.LaterRowIsNotProtected | snapshot_files_cache.go:44-61 | A row stored after the sweep began, above all rowids of that moment, is not protected. |
| WarmerRuns.SweepProtects | snapshot_files_warm.go:116-205 | The same for the code's sweeps with client requests falling anywhere before `sweepEnd`: a repo whose vend or any listing failed, or that a cancelled sweep did not finish, keeps its rows. |
| WarmerRuns.UninterruptedSweepProtects | snapshot_files_warm.go:116-205 | Without client requests it keeps all of them. |
| WarmerRuns.RankAgrees | snapshot_files_warm.go:164-186 | The rank the sweep counts in one listing is the rank among all live revisions it has seen. |
| WarmerRuns.SweepIsClean | snapshot_files_warm.go:102-210 | A completed sweep over a plan without failures satisfies what the settling theorem asks for. |
| WarmerRuns.StraysAreUnjudged | snapshot_files_cache.go:525-535 | On a plan without failures the newer rows a sweep does not judge are exactly those of known repos that do not list the storage. |
| WarmerRuns.WarmerSettles | snapshot_files_cache.go:264-270 | Any number of completed sweeps of the code over a plan without failures list at most 2n^2 + 2n times, if strays leave every candidate inside the warm window. |
| WarmerRuns.WarmedStaysSettled | snapshot_files_warm.go:217-255 | What one of them listed is cached or marked ever after, if there was room for it: in the first sweep counting all newer rows that are no longer live, later only the strays. |
| Accounting.AccountedStays | snapshot_files_cache.go:424-498 | A revision that is cached or marked stays so through every event of a clean sweep that began with room for it. |
| WarmerRuns.WarmerWarms | snapshot_files_warm.go:95-101 | A completed sweep over a plan without failures that attempted all it was offered attempts every offered revision, and leaves each that was within the pin depth when its turn came, with room for it, cached or marked, and settled if listed. |
| WarmerRuns.ChangedLimitsReadmit | snapshot_files_warm.go:217-255 | In a completed sweep over a plan without failures a revision that its repo had marked and not cached is listed exactly when it is within the pin at its turn, not cached, and the marker is from another cap or ceiling, a row cap that it now meets, or a lack of room that is over; if its listing fits it is then cached. |
| WarmerRuns.NoRowCapReadmitsNothing | snapshot_files_warm.go:236-238 | A revision marked for the row cap is not listed while no row cap is set. |
| WarmerRuns.OfferedMeans | snapshot_files_warm.go:150-186 | What a sweep offers to the warmer are exactly the revisions with fewer than N newer ones in a successful listing of a vended repo. |
| Accounting.TooLargeIsMarked | snapshot_files_warm.go:305-328 | A listing above the ceiling or the row cap leaves all rows and all other markers alone and its own marker with what it was too large for. |
| Plans.LearnedMeans | snapshot_files_warm.go:124-162 | The bookkeeping of the sweep, said as what was vended, listed and seen, in both directions. |
| Plans.ReconcileIsExact | snapshot_files_cache.go:522-640 | Rows and markers deleted are exactly those judged by their own repo's listing (any listing of the storage for unknown repos) that no listing shows. |
| Plans.OthersDoNotJudge | snapshot_files_cache.go:525-535 | A known repo loses no row because another repo listed the same storage. |
| TreeSizes.SizeGatherer.Walk | tree_sizes.go:668-782 | It is cut off exactly when one of its looks at the context finds it ended; otherwise it returns the reference total. Every entry left behind is its directory's reference total, nothing outside the directory changes, an entry younger than the refresh time that applies to it is returned as it is, a total computed anew is kept exactly when the directory is shallow, has enough files or was slow, and a complete walk over due entries covers all a picker can show. |
| TreeSizes.SizeGatherer.WalkEntries | tree_sizes.go:702-737 | The sum over the entries of a directory is its reference total; the children walked are covered. |
| TreeFiles.SizeMeasuresFiles | tree_sizes.go:702-737 | The reference total of a directory is the number, and the sum of the sizes, of the regular files, not excluded, in readable directories that can be reached from it without entering anything excluded or mounted. |
| TreeFiles.OnePathEach | tree_sizes.go:702-737 | No two files that count have one path. |
| TreeFiles.VisitedAreReached | tree_sizes.go:702-737 | The directories a complete walk visits are exactly those that can be reached that way. |
| TreeSizes.SizeGatherer.Throttle | tree_sizes.go:668-782 | Pauses once every so many directories and looks at the context again after it; fails exactly when a look finds it ended. |
| TreeSizes.SizeGatherer.Put | tree_sizes.go:123-127 | One entry changes; entries stay truthful. |
| TreeSizes.SizeGatherer.Drop | tree_sizes.go:133-137 | One entry goes; entries stay truthful. |
| TreeSizes.SizeGatherer.Prune | tree_sizes.go:186-200 | Exactly the entries at or below a prefix go, and they are counted. |
| TreeSizes.SizeGatherer.EnforceCap | tree_sizes.go:156-181 | Exactly as many entries stay as the cap allows, unchanged, and none that goes has more files than one that stays. |
| TreeSizes.SizeGatherer.RebuildAnchors | tree_sizes.go:625-641 | The anchors are exactly the roots and the repo paths. |
| TreeSizes.SizeGatherer.RunPass | tree_sizes.go:518-584 | Entries stay truthful and the entry cap is enforced; of roots apart from each other the complete ones are due roots whose turn came and whose context had not ended, and all of those whose context never ends; a complete root whose entries were due is covered before the cap, and after it if the cap spares what is shown. |
| TreeSizes.CapCoversExactly | tree_sizes.go:156-181 | Every way to enforce the cap keeps a covered root covered if and only if for every shown directory at most as many entries as the cap allows have no fewer files. |
| TreeSizes.CapCanUncover | tree_sizes.go:156-181 | A tree and a cap such that no cache within the cap covers what the picker shows. |
| TreeSizes.DepthIsAnchorDistance | tree_sizes.go:668-676 | The depth the walk carries is the distance to the nearest enclosing anchor or the walk root. |
| TreeSizes.CoverageUp | tree_sizes.go:725-780 | Coverage of the children and the directory's own entry make coverage of the directory. |
| TreeSizes.PickerCoverage | tree_sizes.go:648-658 | After a complete walk over due entries every visited directory within the keep depth of an enclosing anchor has an entry. |
| Jobs.Retention.MarkTerminated | jobs.go:1001-1010 | The ring keeps the last fifty ids in order and the map loses exactly the ids that leave the ring. |
| Jobs.AdvanceKeepsJobOk | jobs.go:764-932 | No step of a job's goroutine breaks what holds of its slot, counts, state and events. |
| Jobs.StepKeepsInv | jobs.go:715-932 | Every step of every goroutine, cancellation and background listing keeps the registry's invariant. |
| Jobs.Reachable | jobs.go:595-932 | The invariant holds in every state of every interleaving. |
| Jobs.SlotSafety | jobs.go:595-643 | Live copies never exceed the copy cap; live checks and prunes with background listings never exceed the maintenance cap. |
| Jobs.SlotsAreAvailable | jobs.go:595-643 | Only copies, checks and prunes ever queue, and only under a cap; a queued job or a background listing can go on exactly when fewer are under way than the cap allows. |
| Jobs.Lifecycle | jobs.go:789-932 | A job is recorded terminal at most once, cleans up once, emits one terminal event that names its stored state, and returns the slot it took once; which state that is `EndsAsItWent` and `CancelledExactly` say. |
| Jobs.TerminalStateIsFinal | jobs.go:1029-1053 | A terminal state written under the lock never changes, whatever cancellations race with it. |
| Jobs.RegistryRetains | jobs.go:1001-1010 | The map answers for exactly the jobs not recorded terminal and the last fifty recorded, which the ring holds in order. |
| Jobs.EverySlotReturned | jobs.go:745-785 | When all goroutines are over and no background listing runs, both semaphores are empty. |
| Jobs.CancelledExactly | jobs.go:837-924 | A job that is over ended as cancelled exactly when it gave up the queue, or was cancelled while the running state stood and its process then failed. |
| Jobs.EndsAsItWent | jobs.go:837-924 | A job that is over ended as completed exactly when its process ended well, as failed exactly when its process could not be started or ended badly without a cancel while it ran; its events are the start, if it started, and the end. |
| Jobs.ShownState | jobs.go:1029-1053 | A job that has not ended shows as cancelled exactly when it was cancelled in its present phase, otherwise as pending or running. |
| Jobs.CancelCanBeLost | jobs.go:1029-1053 | A run in which a queued job is cancelled, gets its slot, fails to start and ends as failed. |
| Streaming.TailRing.Write | snapshot_files_stream.go:205-223 | The ring represents everything written so far, for writes of any length. |
| Streaming.TailRing.String | snapshot_files_stream.go:225-230 | The last bytes of all that was ever written, as many as the window holds. |
| Streaming.ListSpool.Write | snapshot_files_stream.go:116-134 | The contents grow by the bytes written, in memory, across the spill and in the file; what fits in memory is always taken, the ceiling is blamed only for a stream that fits neither, and I/O only when the file system fails. |
| Streaming.ListSpool.Spill | snapshot_files_stream.go:136-151 | Moving to the file loses nothing. |
| Streaming.ListSpool.Seal | snapshot_files_stream.go:154-162 | After it the file holds everything. |
| Streaming.ListSpool.ReadAll | snapshot_files_stream.go:164-177 | Reads back exactly the contents. |
| Streaming.RunListFiles | snapshot_files_stream.go:243-299 | For every chunking, spill point and pattern of I/O failures a completed run holds the compressed whole output and its length; any other run yields the fault that explains it and the tail of the output up to and including the chunk in which it was stopped. |
| Streaming.RunDecides | snapshot_files_stream.go:282-292 | With a working file system a run completes, is blamed on the ceiling, on the spool or on the child exactly according to the exit, the size before closing and the size in all. |
| Streaming.FailureShowsTheEnd | snapshot_files_stream.go:293-297 | The tail of a child that failed by itself is the last 64 KiB of its whole output, or all of it. |
| Streaming.CeilingCrossedUnseen | snapshot_files_stream.go:285-292 | A listing over the ceiling that is reported as a fault of the spool. |
| Listing.RunIsChild | snapshot_files_warm.go:305-328 | The result of a run is the one the sweeps assume of the revision: cached or row-capped, marked for the ceiling, or neither when it failed or crossed late. |
| Listing.LateIsNeitherCachedNorMarked | snapshot_files_warm.go:317-323 | A listing over the ceiling that ends well and counts neither as listed nor as failed. |
| Serving.WriteListing | snapshot_files_stream.go:360-379 | The body is what the row yields as far as the client takes it, under the announced length; whole exactly when the row is intact and the client stays; nothing is sent without a gzip header. |
| Serving.ServeCached | duplicacy.go:298-326 | The request is finished exactly when a row is streamed or the hit gate refuses; an intact row is delivered whole to a client who stays; the row is dropped exactly when it could not be delivered in full. |
| Serving.AcquireOrServe | duplicacy.go:331-354 | A hit seen after a granted wait is delivered; the refusal of a wait it makes, at either gate, is its answer; it ends with the slot exactly after a granted wait that saw no row, or at the fourth; a hit is served after the slot is given back. |
| Serving.ServeSnapshotFiles | duplicacy.go:278-429 | A hit at the first look or after any wait is delivered without running the child, whatever marks and vends say; a refused wait is the answer; a request that misses gets the answer for a marked revision or a failed vend without running the child, and otherwise runs it once and answers as its exit and sizes decide; every body comes from a row that was read or from the completed child; a row is dropped exactly when a look could not deliver it; the row or mark left behind is the right one; all slots are returned. |
| Serving.OneOfThree | duplicacy.go:298-354 | Every request meets a hit, a refusal or a miss. |
| Serving.HangUpDropsSoundRow | duplicacy.go:319-325 | An intact row and a client who takes one byte of three: the row is dropped. |
| Serving.StoreListing | snapshot_files_stream.go:323-337 | A complete listing is stored as it is, or marked with its size exactly when it exceeds the row cap. |
| Serving.SmoothRequestIsServed | duplicacy.go:278-429 | A request that meets no refusal and no failure gets the whole output, hit or miss. |
| Serving.RowIsTheListing | snapshot_files_stream.go:323-337 | Over any history of requests, background listings, evictions and drops, the row of a revision is absent or holds the compressed output under its length. |
| Serving.HitsAndMissesAgree | duplicacy.go:278-429 | In any such history every body is the output as far as the client took it, under its length. |
| Serving.ServeMiss | duplicacy.go:393-429 | The child runs once under the listing slot; with a working file system it completes exactly when it ends well and its stream can be spooled, and leaves the ceiling mark exactly when what it wrote before closing cannot; its result is stored and streamed after the slot is given back. |
| Serving.Request.ReleaseList | snapshot_files_stream.go:74-99 | Explicit and deferred release together free the slot once. |
| Serving.DisciplineMeans | duplicacy.go:298-429 | In every disciplined trace no listing slot and hit slot are held together, nothing is streamed under a listing slot and no slot is released that is not held. |
| Serving.RunWarmListing | snapshot_files_warm.go:335-360 | The warmer never waits without bound at the gate while holding a maintenance slot, pauses with neither slot, lists once exactly when it is admitted before giving up, and returns both slots. |
| Filters.AnchorIsExact | filters.go:413-432 | Under a root other than `/` an absolute rule is emitted exactly when it is root, slash and a nonempty rest, which is the pattern emitted. |
| Filters.EmptyPatternExactly | filters.go:413-432 | An empty pattern is emitted exactly for the rule `/` under the root `/`. |
| Precedence.AnchorMeans | filters.go:413-432 | What is emitted of any pattern, for a root with or without a slash at its end: a relative pattern as it is, an absolute one exactly when it is the root, a slash and a rest. |
| Filters.StableOrder | filters.go:307-351 | Every position once, by key, equal keys in their original order. |
| Filters.RuleLineReadsBack | filters.go:444-466 | The line written for a newline-free rule reads back as the rule's directive, or as none when it is dropped. |
| Filters.WriteRules | filters.go:444-466 | Appends lines whose directives are the rules in stable position order. |
| Filters.ComputeMerged | filters.go:307-351 | The directives read from the text are those of all rules, repo first, then sets by scope and name, then position, stably. |
| Filters.FirstMatchDecides | filters.go:307-351 | The first match over an increasing list of places is the decision of the first matching rule. |
| Filters.RenderingPreservesPrecedence | filters.go:307-466 | For any matcher the first match in the rendered file is the decision of the first matching anchored rule in precedence order; none exactly when no rule matches. |
| Precedence.LinesAreRules | filters.go:444-466 | A line of a plus and a pattern stands in the file exactly when some rendered include rule comes to that pattern, one of a minus and a pattern exactly when some other rule does. |
| Precedence.MostSpecificDecides | filters.go:307-364 | For any matcher the first matching line decides as the repo's own rules, else the site sets, else the org sets, else the rest; within a scope by set name, within a set by lowest position; none exactly when no rule matches. |
| Text.SplitUnlines | filters.go:307-351 | Newline-free lines are read back as written. |
| Rollup.StatsStore.UpsertCheckRun | snapshot_stats.go:31-92 | The rows of a run are written, the last of several with one key wins, no other row changes. |
| CheckHistory.RowIsLastLine | snapshot_stats.go:31-92 | Over any history of check runs every row holds, field by field, what the last line about its revision said. |
| Rollup.StatsStore.QueryDestinations | snapshot_stats.go:272-344 | One summary per destination over the highest selected revision of every snapshot on every storage. |
| Rollup.StatsStore.ListRepoDestinations | snapshot_stats.go:444-488 | The same over all rows, apart by snapshot and repo. |
| CheckHistory.DestinationsFromLines | snapshot_stats.go:272-305 | Over any history a rollup answers exactly the destinations of the lines that count, the highest revision asked for of each snapshot on each storage, with the sums of their total and unique bytes and their number. |
| CheckHistory.SharesFromLines | snapshot_stats.go:444-463 | The same for the breakdown by snapshot and repo. |
| Rollup.OnePerSnapshot | snapshot_stats.go:286-291 | Every snapshot on every storage counts through exactly one row, its highest revision. |
| Rollup.SelectionIsExact | snapshot_stats.go:272-305 | A rollup for some repos counts just their newest rows exactly when no snapshot of theirs has its highest revision elsewhere. |
| Rollup.SelectionCanCountMore | snapshot_stats.go:272-305 | A table on which a rollup for one repo counts a revision that is not the newest. |
| Rollup.RollupConserves | snapshot_stats.go:444-463 | The per-repo rows of a destination add up to its referenced bytes, unique bytes and revisions: always without selection, and for a selection that is exact. |
| Sums.GroupsAddUp | snapshot_stats.go:292-305 | Summing group by group is summing everything. |
| Mountinfo.Unescape | mountguard.go:220-238 | The loop decodes exactly the escapes of three octal digits that make a byte. |
| Mountinfo.UnescapeUndoesEscape | mountguard.go:218-238 | Decoding restores every byte string, whatever is escaped besides the backslash. |
| Mountinfo.ParseMountinfoLine | mountguard.go:178-203 | The loop finds the first separator from the seventh field on and rejects what the code rejects. |
| Mountinfo.DeviceReadsBack | mountguard.go:205-216 | Every device number of 32-bit parts is read back. |
| Mountinfo.RecordReadsBack | mountguard.go:171-203 | A record with any number of optional fields is read back to its device, mount point, printed type and nonempty source; it is not read at all exactly when it has neither a source nor an optional field. |
| Mountinfo.TypeReadsBackExactly | mountguard.go:198-203 | The type is read back exactly when printing it escaped nothing. |
| Mountinfo.MountPointReadsBackExactly | mountguard.go:178-203 | A mount point is read back exactly when every white space in it is one the kernel escapes and the record has a source or an optional field. |
| Mountinfo.CarriageReturnTears | mountguard.go:178-203 | A path with a carriage return is not. |
| Mountinfo.TypeIsJudgedRight | mountguard.go:57-65 | Escaping neither makes nor hides a pseudo file system. |
| Mountinfo.MountGuard.constructor | mountguard.go:115-128 | A path is skipped exactly when some line says so, for the reason of the last such line; all parsable lines are counted. |
| Mountinfo.MountGuard.SkipReason | mountguard.go:163-169 | The reason the last line of the mount table that keeps the walker out of the path gives, or none. |
| Mountinfo.MayDescend | mountguard.go:115-169 | On a table the kernel printed the guard lets the walker into a path exactly when no readable mount there is pseudo, loop-backed or orphaned. |
| Mountinfo.GuardIsExact | mountguard.go:115-158 | For any printed mount table the guard skips exactly the mount points of readable pseudo, loop-backed and orphaned mounts and counts every readable mount. |
| Mountinfo.SkippedTypes | mountguard.go:53-65 | On any printed table a path is skipped exactly when a readable mount there is of one of the 27 synthetic types, loop-backed or orphaned. |
| Mountinfo.LastMountGivesReason | mountguard.go:115-158 | Of several mounts on one path the last that the walker must stay out of gives the reason: its type, or that it is loop-backed or orphaned and its source. |
| Mountinfo.DataStaysWalkable | mountguard.go:67-69 | A path where only data file systems on sound devices are mounted is not skipped. |
| Mountinfo.EmptySourceSlipsThrough | mountguard.go:178-203 | A tmpfs without source and optional fields that the guard does not skip. |

## Left out

- HTTP, WebSocket and JSON handling, write deadlines, log lines and metrics: input and output.
- The scheduler, outbox, job store and fleet hub of `agent-kit-go`: not part of this model.
- `trees.go`, regular-expression line parsers, size formatting, config loading, storage URLs, argument building, `AbsoluteExcludePrefixes`: easy case splits, or no law to state.
- Secrets, known hosts, SFTP, key conversion and credential vending: only whether vending succeeded is modelled.
- Log subscribers and live log streaming in `jobs.go`: best effort by design.
- SQL errors, schema migration and `retryMissingTable`: the tables are maps and statements succeed; `MaxRowid + 1` is the rowid SQLite allocates.
- Gzip: any pair of functions that invert each other; a damaged stream may fail at its header or later.
- Timers and clocks: a timeout may happen at any wait, and time passes by any amount between two steps.
- Integer width: sizes and counters are unbounded; device numbers are limited to 32 bits as the code limits them.
- Settling.Settles: sweeps with failures, client puts or dropped rows in between are not bounded, because each of these can cause a listing again; a listing that crosses the spool ceiling only when the gzip writer is closed is such a failure.
- WarmerRuns.RoomDespiteStrays: the condition is sufficient and its bound on the strays is tight for every window; for a given store it is not necessary, because strays that fill the window do no harm while the cap leaves room for all.
- Warmer.WarmListCacheSweep: repo ids, storage names within a repo and revisions within a listing are taken to be distinct, because the repo index and the storages hold each once; an attempt decides and stores in one step; a client that stores the same revision in between only makes the put an update of the same row.
- WarmerRuns.WarmerSettles: asks that all listings of one storage agree on each snapshot they show, because the sweep has no single live list otherwise.
- Protection.UnknownRepoKeepsItsRows: client puts after `sweepEnd` and before the last eviction are not covered, because nothing protects a row in that window; a row stored during the sweep is not claimed to be protected.
- TreeSizes.SizeGatherer.Walk: the file system does not change meanwhile; what reading a directory returns is taken as its entries, so a partial read is not told apart; what the looks at the context find is an input.
- Jobs: pipe-creation failure (`jobs.go:824-835`) is outside the protocol; jobs are values that atomic steps replace, because the proofs are about interleavings; `countActive` and progress parsing are left out.
- Streaming.RunListFiles: removal of temp files, failures to read a spooled file back and the wording of errors are left out.
- Serving.ServeSnapshotFiles: the status codes are reduced to kinds of answers; a failed cache read is a look that finds nothing; a body that the server cuts at a chunk boundary is one whose client took less.
- Filters.ComputeMerged: rules and names with newlines are outside the claim, as the file format has no way to write them; in comment lines only ASCII letters are upper-cased.
- Rollup.StatsStore.ListRepoDestinations: the time of the last check and the order of the result are left out, because they are a plain aggregate and a sort.
- Rollup.StatsStore.QueryDestinations: pool bytes and chunks, snapshot counts, the time of the last check and the order of the result are left out, because they are plain aggregates.
- Mountinfo.ParseMountinfoLine: the device is kept as its two numbers instead of the packed form, which only the same library packs and unpacks.
- TreeSizes.SizeGatherer.RunPass: loading and saving the cache file and the schedule between passes are not modelled; coverage is stated for roots none of which lies below another, because a root walked inside another one finds entries that are no longer due.
- Mountinfo.GuardIsExact: tables with a root or mount point that holds white space the kernel does not escape are left out, because the pieces of such a path may be taken for other fields.
- Mountinfo.MountGuard.constructor: what sysfs says of a device is a parameter.
