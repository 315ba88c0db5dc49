# Houston: verified models of its stateful core

Houston is a desktop shell (Rust, with a little JavaScript and Python around it). This
project models the parts of it that keep state over many calls, or compute something in a
way that is not obviously right, and proves what they are for. `dafny verify dfyconfig.toml`
checks everything.

| file | models |
|---|---|
| `PathIndexCache.dfy` | the path index cache and the loader's two critical sections, in place |
| `PathIndexProtocol.dfy` | every interleaving of requests, scans, cancelled waiters, invalidations and forgets |
| `PathIndexRefinement.dfy` | the loader's classes taking the protocol's steps in place |
| `PathIndexService.dfy` | what a request for an index gets, and for how long an index is served |
| `PathSearch.dfy` | fuzzy matching and the bounded top-k search over an index |
| `SearchOrder.dfy` | which entries a search shows, in which order, under which names and offsets |
| `Walks.dfy` | the two explicit-stack directory walks over a tree of directories |
| `WalkedPaths.dfy` | the text under which a walk indexes a file |
| `WalkMeasures.dfy` | what the totals of the walks are totals of |
| `WatchBatches.dfy` | the bounded set of pending changes, the one-slot wake-up channel and the publisher |
| `WatchLeases.dfy` | reference counts of watched directories against a stack of leases |
| `WindowBackground.dfy` | the park, write and settle protocol over the background directory |
| `GeminiToml.dfy` | printing a skill as TOML, and reading it back |
| `Utf8Truncation.dfy` | the two truncation loops, and the name a dropped file is stored under |
| `AllowedRoots.dfy` | the peeling path resolver and the two gates built on it |
| `ResolvedPlaces.dfy` | when the resolver's answer is where a file system with links leads |
| `PathSpelling.dfy` | which spellings of a path the resolver can be trusted with in every file system |
| `NotificationTargets.dfy` | the two capped maps that forget, against an unbounded history |
| `LaunchArguments.dfy` | the two argument scanners, and the checks that ignore both |
| `LaunchChannels.dfy` | which tokens are accepted, where they stand, and which channel they mean |
| `Reassembly.dfy` | the out-of-order buffer of the bench page's channel |
| `UpdateManifest.dfy` | accepting the set of artifacts of a release |
| `ManifestAssembly.dfy` | what each platform key of the manifest points at |
| `ReleaseNames.dfy` | a release and its manifest spelled out in file names and keys |
| `Collections.dfy` | distinct sequences, their members, sizes of subsets |
| `Wrappers.dfy` | Option and Result |

Code that changes fields step by step is a class or a loop proved against a value-level
specification; the theorems are about that specification, over every input, every run or
every interleaving. For each main operation there are theorems that tell its results without
naming the specification's own functions: about the entries shown, the files found, the paths
reported, the texts written. What comes from outside (canonicalization, lower-casing, blanks, the
refusals of the operating system, signature checks, the time) is a parameter, and the proofs
hold for every choice of it.

Five properties one would expect do not hold as such. Each has inputs that show it and the
condition under which it does hold, proved in both directions:

- Freshness needs unique generations. Every run that issues at most n generations keeps all
  answers and cached indexes fresh if and only if n is at most 2^64 (`FreshnessBound`); beyond
  that, invalidations during one scan can carry the counter full circle and a stale index is
  taken for a current one (`WrappedGenerationCachesAStaleIndex`).
- A failed index build is not always retried by the next request: when all its waiters were
  cancelled (`CancelledWaiterLeavesFailure`), the next request joins the failure and gets it
  as its answer. This happens exactly while the cache records the failed build
  (`FailureIsJoinedIffRecorded`), and the answer takes the record away.
- TOML printing does not bring every content back: `\d` makes a file that is no TOML at all,
  and `\t` comes back as a tab (`BackslashesAreReadAsEscapes`). What every content is read back
  as, and whether it can be read, is told by the content alone (`FileIsReadAs`); it is the
  content itself if and only if it has no character TOML forbids and every backslash in it is
  the last character or stands directly before three quotes (`RoundTripIffFaithful`).
- With a repeated `--channel`, the value of an overridden one is nobody's token and still
  matches a check over the whole argument vector (`OverriddenValueIsStillMatched`); what such
  a check sees beyond the tokens is exactly the taken values (`RequestedBeyondTokens`).
- A resolved path need not be where the system leads: a `..` behind a missing component is
  folded lexically (`FoldedParentLeadsElsewhere`), and a slash after something that is no
  directory is dropped (`TrailingSlashLeadsElsewhere`). In one file system the answer fails to be
  its own canonical form or absent exactly when one of the two happened and there is a link on
  the way to the folded place (`ResolvedPlacesSettle`); for the slash, exactly when the path
  without it ends at a link (`DroppedSlashSettles`). The spelling alone tells which paths are
  safe everywhere: a path settles in every file system if and only if no slash stands after a
  last name and no name is left once everything from a name's own `..` on is folded
  (`SettlingIsSpelled`).

## Model

| member | source | states |
|---|---|---|
| PathIndexCaches.PathIndexCache.Touch | src-tauri/src/fs.rs:185-200 | the loop of removals and the new generation turn the cache into `Touched` of it |
| PathIndexCaches.TouchEvictsOnlyTheOldest | src-tauri/src/fs.rs:185-200 | a touch removes exactly the least recently used other root, only when eight others are cached, moves the touched root to the end and changes nothing else |
| PathIndexCaches.TouchKeepsValid | src-tauri/src/fs.rs:184-200 | uses are duplicate-free, at most eight, the same roots as the generations; indexes and builds carry the current generation; a touch keeps that |
| PathIndexCaches.LookupGenerationsAgree | src-tauri/src/fs.rs:553-562 | after a touch the generation checks of a lookup never fail |
| PathIndexCaches.PathIndexCache.Invalidate | src-tauri/src/fs.rs:202-209 | in place, what `Invalidated` says |
| PathIndexCaches.InvalidateKeepsValid | src-tauri/src/fs.rs:202-209 | an invalidation keeps the structure, drops the root's index and build, and neither adds nor removes a root |
| PathIndexCaches.PathIndexCache.Forget | src-tauri/src/fs.rs:211-216 | in place, what `Forgotten` says |
| PathIndexCaches.ForgetKeepsValid | src-tauri/src/fs.rs:211-216 | forgetting keeps the structure and removes exactly that root |
| PathIndexCaches.LateInvalidateChangesNothing | src-tauri/src/fs.rs:202-216 | an invalidation that comes after a forget cannot bring the root back |
| PathIndexCaches.PathIndexLoader.Begin | src-tauri/src/fs.rs:549-593 | the first critical section hits, joins, refuses or takes a permit and spawns, as decided on the touched cache |
| PathIndexCaches.PathIndexLoader.Finish | src-tauri/src/fs.rs:594-612 | the second critical section drops the build it waited on and publishes a success of the current generation |
| PathIndexCaches.PathIndexLoader.Release | src-tauri/src/fs.rs:571-576 | a scan that ends gives its permit back, waited for or not |
| PathIndexRefinement.BeginIsTheLoaders | src-tauri/src/fs.rs:549-593 | the protocol's first step is the loader's first critical section, and records the request with what the lookup gave it |
| PathIndexRefinement.BeginInPlace | src-tauri/src/fs.rs:549-593 | running it on the objects takes them to the world after the step |
| PathIndexRefinement.ResumeInPlace | src-tauri/src/fs.rs:595-612 | so does running the second critical section for a waiter that resumes |
| PathIndexRefinement.FinishScanInPlace | src-tauri/src/fs.rs:571-576 | and giving a permit back when a scan ends |
| PathIndexRefinement.InvalidateInPlace | src-tauri/src/fs.rs:202-209 | and an invalidation |
| PathIndexRefinement.ForgetInPlace | src-tauri/src/fs.rs:211-216 | and a forget |
| PathIndexRefinement.OtherStepsLeaveTheLoader | src-tauri/src/fs.rs:571-595 | a scan that gets its thread and a waiter that is dropped leave both objects as they are |
| PathIndexService.CachedIndexIsServed | src-tauri/src/fs.rs:553-558 | in every reachable state a request for a cached root is answered with exactly that index and starts no scan |
| PathIndexService.UncachedRootJoinsOrScans | src-tauri/src/fs.rs:559-591 | otherwise it joins the recorded build; without one it starts one scan, recorded as the build, while fewer than two are under way |
| PathIndexService.RefusedIffBusy | src-tauri/src/fs.rs:563-570 | a request is refused if and only if neither an index nor a build is recorded for its root and two scans are under way |
| PathIndexService.ResumedSuccessIsCached | src-tauri/src/fs.rs:595-612 | a waiter gets its scan's answer, no other request changes, and a success under an unchanged generation is cached |
| PathIndexService.OtherRootsStay | src-tauri/src/fs.rs:202-216 | an invalidation or a forget drops its own root's index and build and leaves every other root's entries |
| PathIndexService.EachRootHasOneSource | src-tauri/src/fs.rs:549-612 | in every reachable state no root has both an index and a build, and no scan of its current generation that has not failed goes unrecorded |
| PathIndexService.IndexIsServedUntilInvalidated | src-tauri/src/fs.rs:549-612 | through every interleaving a cached index stays the same and is served without a scan until its root is invalidated, forgotten or pushed out |
| PathIndexProtocol.StepKeepsInv | src-tauri/src/fs.rs:549-612 | every step of every thread keeps the invariant: structure, currency, single flight, permits, soundness of all requests |
| PathIndexProtocol.RunKeepsInv | src-tauri/src/fs.rs:549-612 | so the invariant holds after every interleaving |
| PathIndexProtocol.EveryAnswerIsFresh | src-tauri/src/fs.rs:549-612 | in every run of at most 2^64 generations a successful request gets the result of a scan of its root that began no earlier than the last invalidation before its first lock, whether it hit, joined or spawned |
| PathIndexProtocol.CachedIndexesAreFresh | src-tauri/src/fs.rs:603-609 | every cached index is the success of a scan of that root begun after the root's last invalidation; a failure or an invalidated scan is never cached |
| PathIndexProtocol.FreshnessBound | src-tauri/src/fs.rs:195-206 | all runs that issue at most n generations keep everything fresh if and only if n is at most 2^64 |
| PathIndexProtocol.PermitsAreConserved | src-tauri/src/fs.rs:564-576 | free permits and unfinished scans always add up to two, whoever was cancelled, evicted or invalidated |
| PathIndexProtocol.ScansFlySingly | src-tauri/src/fs.rs:559-593 | at most one unfinished scan works for a root under one generation |
| PathIndexProtocol.CacheIsStructured | src-tauri/src/fs.rs:184-216 | in every reachable state the cache is structured and its roots are those of the use order |
| PathIndexProtocol.BeginEvictsLeastRecentlyTouched | src-tauri/src/fs.rs:188-193 | in every run, what a request pushes out was touched before everything that stays, and is not the root it asked for |
| PathIndexProtocol.ResumeRemovesOnlyItsBuild | src-tauri/src/fs.rs:594-609 | a resuming waiter removes the build it waited on and no other, and publishes only a success of an unchanged generation |
| PathIndexProtocol.RecordedFailureIsServedAgain | src-tauri/src/fs.rs:559-612 | a request for a root whose failed build is still recorded starts no scan, is answered with the failure and removes the record |
| PathIndexProtocol.FailureIsJoinedIffRecorded | src-tauri/src/fs.rs:559-562 | a request joins a scan that already failed if and only if the cache records it for the root |
| PathIndexProtocol.CancelledWaiterLeavesFailure | src-tauri/src/fs.rs:594-602 | such a record is reachable: the only waiter is cancelled and the scan fails |
| PathIndexProtocol.WrappedGenerationCachesAStaleIndex | src-tauri/src/fs.rs:195-206 | with the generation counter gone full circle during a scan, a stale index is cached |
| PathSearch.FuzzyIndices | src-tauri/src/fs.rs:230-246 | succeeds exactly when the lowered query is not empty and embeds in the text, with the UTF-16 offsets of an embedding no position of which any other embedding has earlier |
| PathSearch.FuzzyResultIsUnique | src-tauri/src/fs.rs:230-246 | that promise determines the result |
| PathSearch.OffsetsIncrease | src-tauri/src/fs.rs:230-246 | the offsets are strictly increasing, one for each lowered character |
| PathSearch.NameMatchIsPathMatch | src-tauri/src/fs.rs:258-265 | what matches a file name matches its path, so the total counts the matching paths |
| PathSearch.LessTotal | src-tauri/src/fs.rs:248-248 | the order of the ranks is total |
| PathSearch.LessTransitive | src-tauri/src/fs.rs:248-248 | the order of the ranks is transitive |
| PathSearch.SortedFormIsUnique | src-tauri/src/fs.rs:286-295 | a set of ranks has one sorted form |
| PathSearch.BoundedPush | src-tauri/src/fs.rs:276-281 | keeping the best k as they come is keeping the best k of all that came |
| PathSearch.RankedPathMatches | src-tauri/src/fs.rs:250-284 | the heap holds the first cap of all matches sorted, and the total is the exact number of matching entries |
| PathSearch.SearchIndex | src-tauri/src/fs.rs:286-313 | the items are the first min(limit, 200) of all matches sorted, with the highlights of each; the total is exact and `truncated` says whether something was cut |
| PathSearch.SmallerLimitIsPrefix | src-tauri/src/fs.rs:286-313 | the result for a smaller limit is a prefix of that for a larger one, with the same total; equal limits give equal results |
| SearchOrder.ResultsStandInOrder | src-tauri/src/fs.rs:250-313 | the items stand for distinct matching entries: matches in the file name first, then by length, first difference and position; what is cut belongs behind all that is shown; the total counts all matches |
| SearchOrder.ItemsStandInOrder | src-tauri/src/fs.rs:270-275 | the same order told of any two items |
| SearchOrder.ItemsAreHighlighted | src-tauri/src/fs.rs:296-307 | each item is an entry with its own path and kind, under the name of its last component; name and path are highlighted at the UTF-16 offsets where the query is spelled earliest, and nowhere if it is not |
| SearchOrder.FileNameIsLastName | src-tauri/src/fs.rs:258-261 | the file name is the name of the path's last component, if that has one |
| SearchOrder.OffsetCountsUnits | src-tauri/src/fs.rs:235-243 | an offset counts the UTF-16 code units of the text before it |
| SearchOrder.UnitsTell | src-tauri/src/fs.rs:243-243 | those units tell characters apart |
| SearchOrder.LoweredJoins | src-tauri/src/fs.rs:232-233 | a query is lowered character by character |
| Walks.VisitEntry | src-tauri/src/fs.rs:402-432 | the statements for one entry give what `Visited` says, its checks in that order |
| Walks.VisitKeepsAccounts | src-tauri/src/fs.rs:402-432 | one entry keeps the exact account of found, stacked and remaining work and of the bytes held |
| Walks.VisitRefusesRightly | src-tauri/src/fs.rs:402-432 | a refusal at an entry is explained by the tree, one for bytes by what would be held there |
| Walks.PopKeeps | src-tauri/src/fs.rs:398-399 | taking a directory off the stack never lowers the byte count below what is still held |
| Walks.ListDirectory | src-tauri/src/fs.rs:398-432 | one directory listing keeps the account |
| Walks.CollectWalkPaths | src-tauri/src/fs.rs:387-436 | a successful walk retains exactly the files the recursive form finds, as often, counts them, and the entries of the unpruned directories and the bytes held at the fullest moment are within the limits; a refusal has a reason true of the tree |
| Walks.IndexedIffItFits | src-tauri/src/fs.rs:377-436 | a tree is indexed if and only if it can be read, has no more entries and files than allowed, and its peak of held bytes in reading order is within the limit |
| Walks.PeakSplits | src-tauri/src/fs.rs:395-432 | the peak over a stack is the larger of the peak of its upper part and that of the rest with what the upper part leaves held |
| Walks.FittingTreeIsIndexed | src-tauri/src/fs.rs:377-436 | a readable tree within all limits, counting all its bytes together, is indexed in whatever order it is read |
| Walks.FilesBelowNode | src-tauri/src/fs.rs:404-430 | the recursive form means: the paths to leaves that pass no ignored name, each at most once when names are distinct |
| Walks.ReadingOrderIsIrrelevant | src-tauri/src/fs.rs:400-402 | the orders in which directories are read, at every depth, do not change what is found, visited or readable |
| Walks.WalkFindsEachFileOnce | src-tauri/src/fs.rs:387-436 | a successful walk retains each file no ignored name leads to exactly once, and nothing else |
| WalkedPaths.RelativeLeadsToFile | src-tauri/src/fs.rs:411-425 | the relative path, joined onto the root, is the path got by joining the names one after another |
| WalkedPaths.RelativeSplits | src-tauri/src/fs.rs:421-425 | split at its slashes it gives the names back in their order |
| WalkedPaths.JoinAddsOneSegment | src-tauri/src/fs.rs:411-411 | joining a name onto a directory adds one segment |
| WalkedPaths.VisitKeepsPlaces | src-tauri/src/fs.rs:411-415 | every directory on the stack is at the path its names lead to |
| WalkedPaths.BackslashesAreTurned | src-tauri/src/fs.rs:424-425 | what is shown differs from the decoded path in its backslashes only, which are slashes |
| WalkedPaths.ShownApart | src-tauri/src/fs.rs:421-425 | files with plain names are shown under different paths |
| WalkedPaths.WalkIndexesFiles | src-tauri/src/fs.rs:387-436 | of such a tree a successful walk indexes each file no ignored name leads to once, under the path that leads to it from the root, and no other |
| WalkMeasures.VisitedEntries | src-tauri/src/fs.rs:403-406 | the entries counted against the limit are those no ignored directory hides, each once |
| WalkMeasures.CleanIffNoTrouble | src-tauri/src/fs.rs:400-410 | a tree can be walked exactly when nothing that no ignored name hides fails to be listed, read or inspected |
| WalkMeasures.BytesAreOfHeld | src-tauri/src/fs.rs:411-429 | the bytes counted are those of the paths of the directories and of the files as shown |
| WalkMeasures.PeakIsTheFullest | src-tauri/src/fs.rs:397-429 | the peak is what is held at some moment between two listings, and no less than at any other |
| WalkMeasures.HeldIsStackAndFiles | src-tauri/src/fs.rs:397-429 | from one such moment to the next, what is held beside the paths on the stack grows by the files shown |
| Walks.CountEntriesUnder | src-tauri/src/fs.rs:1322-1370 | the count is exact and not capped if the subtree has at most cap entries, else (cap, capped); an error only for a listing that breaks off, and only if it comes, listing after listing, before the cap is passed |
| WalkMeasures.CountedEntries | src-tauri/src/fs.rs:1322-1370 | the count is of every entry there is, ignored names and all, each once |
| WatchBatches.PendingChanges.Add | src-tauri/src/fs.rs:89-119 | one report joins the pending changes with all its paths or degrades them to a rescan, exactly when a bound would be passed or the report asks for it; the result says whether it was news |
| WatchBatches.PendingChanges.Rescan | src-tauri/src/fs.rs:83-87 | a rescan holds no paths and no bytes |
| WatchBatches.PendingChanges.Take | src-tauri/src/fs.rs:141-141 | taking hands over everything and leaves nothing |
| WatchBatches.AddedCovers | src-tauri/src/fs.rs:89-119 | adding keeps at most 1024 paths, the exact byte sum and the 512 KiB bound, covers its report and uncovers no earlier one |
| WatchBatches.NoWakeUpIsLost | src-tauri/src/fs.rs:122-146 | in every interleaving, pending changes imply a queued token, a publisher past its wake-up or a send under way, while the sender lives |
| WatchBatches.EveryReportIsAccountedFor | src-tauri/src/fs.rs:122-146 | every news report is in a published batch or still owed, once and in order |
| WatchBatches.NoChangeIsLost | src-tauri/src/fs.rs:122-146 | every published batch is within bounds and tells all paths of its reports or to look everywhere; what is owed is covered by what is pending and will wake the publisher |
| WatchBatches.OwedReportsGetPublished | src-tauri/src/fs.rs:122-146 | from every reachable state with something owed, every schedule of the threads already under way ends, and where none can go on exactly one batch with everything owed has been published |
| WatchBatches.AccessChangesNothing | src-tauri/src/fs.rs:90-91 | an access leaves everything as it is |
| WatchBatches.BatchesAreExact | src-tauri/src/fs.rs:89-146 | in every interleaving a batch is a rescan exactly when one of its reports asks for it or their paths together pass a bound, and else holds exactly their paths, whatever their order |
| WatchBatches.NewsCanBePublished | src-tauri/src/fs.rs:122-146 | whenever the sender lives, a news report can be made and be in the next batch |
| WatchBatches.OneSendForEachNews | src-tauri/src/fs.rs:709-717 | each news report tries to wake the publisher exactly once |
| WatchBatches.PublisherEnds | src-tauri/src/fs.rs:127-139 | the sender can always go, and then the publisher can take what is left of a wake-up and end |
| WatchLeases.CountRequested | src-tauri/src/fs.rs:674-689 | the counting loop raises exactly the paths before the first one the system refuses |
| WatchLeases.PathWatchers.WatchDirs | src-tauri/src/fs.rs:659-746 | the command does to the records what `AfterWatch` says, including what a refusal half way leaves behind |
| WatchLeases.PathWatchers.Unwatch | src-tauri/src/fs.rs:763-784 | the command does what `AfterUnwatch` says, and reports when the root is forgotten |
| WatchLeases.CountsCoverLeases | src-tauri/src/fs.rs:667-784 | in every run each leased path counts at least once per lease holding it, a root is recorded only while it has a lease, and the system watches exactly the counted paths, at most 256 |
| WatchLeases.CountsAreLeases | src-tauri/src/fs.rs:667-784 | when the system refuses nothing, each path counts exactly the leases that hold it |
| WatchLeases.LeasedPathsAlwaysCount | src-tauri/src/fs.rs:767-776 | so `fs_unwatch` never meets a leased path without a count |
| WatchLeases.UnwatchUndoesWatch | src-tauri/src/fs.rs:630-784 | unwatching takes back exactly what the last successful watch of the root did |
| WatchLeases.GrantedIffItFits | src-tauri/src/fs.rs:656-691 | a request is granted if and only if the counted and requested paths together are at most 256 and none without a count is refused, whether or not the root is known |
| WatchLeases.GrantedRequestCounts | src-tauri/src/fs.rs:674-691 | then it is on top of the root's leases, exactly its paths count once more and are watched, and no other root changes |
| WatchLeases.RefusedRequestAddsNoLease | src-tauri/src/fs.rs:668-743 | otherwise no lease is added and no root becomes known; only the paths before the refused one stay counted |
| WatchLeases.UnwatchTakesTheLastLease | src-tauri/src/fs.rs:763-784 | the paths of the last lease count once less, the others as before, and the root goes with its last lease |
| WatchLeases.RequestAfterRun | src-tauri/src/fs.rs:630-784 | after any run of calls a request that fits is granted and unwatching leads back |
| WindowBackground.ExtOfName | src-tauri/src/fs.rs:986-995 | the extension read back from a slot's file name is the one it was written with |
| WindowBackground.BackgroundDir.FindSlotWithStem | src-tauri/src/fs.rs:1741-1769 | finds the one file with the stem, none, or reports two |
| WindowBackground.BackgroundDir.Park | src-tauri/src/fs.rs:1655-1679 | drops a stale parked file and parks the current one |
| WindowBackground.BackgroundDir.Unpark | src-tauri/src/fs.rs:1681-1698 | puts the parked file back as the current one |
| WindowBackground.BackgroundDir.RemoveOtherExtSlots | src-tauri/src/fs.rs:1567-1594 | removes every file of the slot with another extension and no other file |
| WindowBackground.BackgroundDir.Set | src-tauri/src/fs.rs:1603-1653 | a written image becomes the current one with the earlier one parked; a refused or failed one leaves the earlier one current; the ambiguous-slot error cannot come up |
| WindowBackground.BackgroundDir.Settle | src-tauri/src/fs.rs:1707-1731 | keeps the new background or goes back to the parked one, and says whether one is in use |
| WindowBackground.BackgroundDir.Remove | src-tauri/src/fs.rs:1854-1870 | empties both slots |
| WindowBackground.RunsRest | src-tauri/src/fs.rs:1603-1870 | after any run of commands a parked file implies a current one |
| WindowBackground.SlotsAreSingle | src-tauri/src/fs.rs:1741-1769 | the directory holds at most one current and one parked file and nothing else |
| WindowBackground.DirectoryTellsTheSlots | src-tauri/src/fs.rs:1733-1739 | the directory determines both slots, extension and bytes |
| WindowBackground.EarlierBackgroundComesBack | src-tauri/src/fs.rs:1603-1731 | a set that is settled back, or whose write fails, leaves the earlier extension and bytes in use |
| WindowBackground.ExtensionIsRecognized | src-tauri/src/fs.rs:986-995 | an accepted extension is recognized in any case, behind the last dot only |
| WindowBackground.AcceptedExtensions | src-tauri/src/fs.rs:1603-1612 | the five accepted extensions |
| WindowBackground.WrittenImageIsUsed | src-tauri/src/fs.rs:1603-1731 | after any run a written image is in use under its extension with its bytes, the earlier one is parked, and keeping the new one drops only that |
| WindowBackground.FilesOfSlots | src-tauri/src/fs.rs:1561-1565 | with nothing parked the directory holds the image under the slot's name and nothing else |
| WindowBackground.FilesOfBothSlots | src-tauri/src/fs.rs:1561-1565 | with something parked it holds these two files under these names and nothing else |
| WindowBackground.OtherCommands | src-tauri/src/fs.rs:1707-1870 | settling with nothing parked, or for anything else, changes nothing; removing leaves nothing |
| GeminiToml.EscapeIsEncoded | src-tauri/src/skills.rs:295-302 | replacing and then fixing the last backslash is one left-to-right encoding |
| GeminiToml.WrapperClosesItself | src-tauri/src/skills.rs:341-348 | for every content the string ends at the wrapper's own delimiter and nowhere before |
| GeminiToml.FileIsReadAs | src-tauri/src/skills.rs:295-348 | for every content, what the written file is read back as, or that it is no valid TOML, told by the content alone |
| GeminiToml.RoundTripIffFaithful | src-tauri/src/skills.rs:295-348 | reading the written file gives back the content and the final newline if and only if the content is faithful |
| GeminiToml.BackslashesAreReadAsEscapes | src-tauri/src/skills.rs:295-348 | two contents that do not come back: one makes the file unreadable, one changes |
| GeminiToml.PlainContentRoundTrips | src-tauri/src/skills.rs:295-348 | content without backslashes and forbidden controls always comes back |
| GeminiToml.FileIsSpelledOut | src-tauri/src/skills.rs:341-348 | the text of the file around the escaped content |
| GeminiToml.ContentStandsUnchanged | src-tauri/src/skills.rs:295-302 | content without three quotes and a last backslash stands in it unchanged |
| Utf8Truncation.BoundariesAreCharacterEnds | src-tauri/src/app_log.rs:45-45 | a byte position is a boundary exactly when whole characters end there |
| Utf8Truncation.TruncateUtf8 | src-tauri/src/app_log.rs:40-49 | the backward scan keeps the longest prefix of whole characters within the limit and steps at most three times |
| Utf8Truncation.AccumulateWithin | src-tauri/src/fs.rs:1894-1900 | the forward loop keeps the longest prefix of whole characters within the limit |
| Utf8Truncation.TruncationsAgree | src-tauri/src/app_log.rs:40-49 | for every valid string and limit, the bytes the backward scan keeps decode to what the forward loop accumulates and to nothing else |
| Utf8Truncation.SanitizeDroppedFileName | src-tauri/src/fs.rs:1888-1906 | the stored name is the longest prefix of the file name that fits, or the fallback exactly when that prefix is empty or one or two dots |
| Utf8Truncation.SanitizedIsSafe | src-tauri/src/fs.rs:1888-1906 | the stored name is determined by the dropped one, and is one path component of at most 100 bytes |
| Utf8Truncation.SpecialNamesAreReplaced | src-tauri/src/fs.rs:1888-1906 | a path without a file name is stored under the fallback |
| Utf8Truncation.SafeNamesAreKept | src-tauri/src/fs.rs:1888-1906 | exactly the safe names are stored as they are |
| Utf8Truncation.SanitizingIsIdempotent | src-tauri/src/fs.rs:1888-1906 | sanitizing twice is sanitizing once |
| AllowedRoots.AppendTail | src-tauri/src/fs_allowlist.rs:32-41 | the pushed components are folded back in path order, `..` popping |
| AllowedRoots.RealOrNearestAncestorOf | src-tauri/src/fs_allowlist.rs:47-77 | terminates with the canonical form of the longest prefix that has one, the remaining components folded on |
| AllowedRoots.AssertWithinAllowedRoots | src-tauri/src/fs_allowlist.rs:79-107 | the read gate gives the resolved path if it is a root or below one |
| AllowedRoots.AssertEntryWithinAllowedRoots | src-tauri/src/fs_allowlist.rs:110-141 | the entry gate resolves the parent only and keeps the last name as written |
| AllowedRoots.EntryNameIsKnownOnce | src-tauri/src/fs_allowlist.rs:114-134 | the entry gate's second check of the last component never refuses what its first let by |
| AllowedRoots.ResolvedIsClean | src-tauri/src/fs_allowlist.rs:32-77 | no `..`, `.` or slash survives resolution, as long as none comes from the system |
| AllowedRoots.MissingResolvesThroughParent | src-tauri/src/fs_allowlist.rs:47-77 | a path that does not exist resolves to its parent's resolution and its last name |
| AllowedRoots.GatesAgree | src-tauri/src/fs_allowlist.rs:79-141 | the gates speak of the same place exactly when the last component is no link, and then the entry gate lets by precisely what lies strictly below a root |
| AllowedRoots.SplittingIsExact | src-tauri/src/fs_allowlist.rs:52-63 | splitting takes a text apart at all of its slashes and nowhere else |
| AllowedRoots.RelativeStandsBelowCwd | src-tauri/src/fs_allowlist.rs:12-30 | a relative path stands below the current directory, an absolute one for itself |
| AllowedRoots.TrailingIsWritten | src-tauri/src/fs_allowlist.rs:52-63 | what only the system calls see is a slash, or a slash and a dot, at the end |
| AllowedRoots.SegmentsAreComponents | src-tauri/src/fs_allowlist.rs:52-63 | other segments are the components in their order |
| AllowedRoots.ReadGateLetsBy | src-tauri/src/fs_allowlist.rs:79-107 | the read gate lets by exactly what resolves to a root or below one, and gives what it resolved |
| ResolvedPlaces.LeadingElsewhereIsLinking | src-tauri/src/fs_allowlist.rs:110-141 | over a file system, the last component leads elsewhere exactly when it is a link |
| ResolvedPlaces.ElsewhereIffPassesLink | src-tauri/src/fs_allowlist.rs:110-141 | a place that exists leads elsewhere exactly when some entry on the way to it is a link |
| ResolvedPlaces.ResolvedPlacesSettle | src-tauri/src/fs_allowlist.rs:47-77 | the resolved path is its own canonical form or does not exist, except exactly when a `..` was folded or a trailing slash dropped and the folded place exists with a link on the way to it |
| ResolvedPlaces.DroppedSlashSettles | src-tauri/src/fs_allowlist.rs:52-63 | a path of which only the slash at the end was dropped fails to settle exactly when it ends at a link |
| ResolvedPlaces.PlainPathsSettle | src-tauri/src/fs_allowlist.rs:79-107 | without `..` and a slash at the end that never happens, and what the read gate lets by leads below an allowed root if it exists |
| ResolvedPlaces.FoldedParentLeadsElsewhere | src-tauri/src/fs_allowlist.rs:32-41 | a path with a folded `..` whose resolved form the system leads elsewhere |
| ResolvedPlaces.TrailingSlashLeadsElsewhere | src-tauri/src/fs_allowlist.rs:52-63 | a path with a dropped slash whose resolved form the system leads elsewhere |
| PathSpelling.SettlingIsSpelled | src-tauri/src/fs_allowlist.rs:32-77 | a path resolves to its own canonical form or to nothing in every well-formed file system if and only if its components say so |
| PathSpelling.SpellingSuffices | src-tauri/src/fs_allowlist.rs:32-77 | no file system makes such a path resolve to what leads elsewhere |
| PathSpelling.SpellingIsNeeded | src-tauri/src/fs_allowlist.rs:32-77 | for every other path there is a file system in which the resolved path leads elsewhere |
| PathSpelling.SpelledPathsStayWithin | src-tauri/src/fs_allowlist.rs:79-107 | for such a path, what the read gate lets by leads below an allowed root if it exists |
| NotificationTargets.Oldest | src-tauri/src/notifications.rs:33-40 | the entry that makes room is one no other is older than |
| NotificationTargets.TargetStore.RememberTarget | src-tauri/src/notifications.rs:29-43 | drops what is old, makes room with an oldest entry only when full, and remembers |
| NotificationTargets.TargetStore.TakeTarget | src-tauri/src/notifications.rs:45-51 | removes the entry and answers with its session if it is young |
| NotificationTargets.TargetStore.Replaceable | src-tauri/src/notifications.rs:63-70 | answers the session's latest notification if it is young, else 0 |
| NotificationTargets.TargetStore.RememberReplacement | src-tauri/src/notifications.rs:73-91 | consumes the replaced notification, remembers the new one in both maps, each within its cap |
| NotificationTargets.TargetStore.Forget | src-tauri/src/notifications.rs:95-101 | removes a closed notification from both maps |
| NotificationTargets.AnswersAreRight | src-tauri/src/notifications.rs:29-102 | in every run an answer is the last one remembered, not consumed, replaced or closed since, and young; both maps hold at most 256 entries |
| NotificationTargets.RoomyRunsAreComplete | src-tauri/src/notifications.rs:29-102 | nothing young is dropped in a run in which every call found room |
| NotificationTargets.RoomyAnswersAreExact | src-tauri/src/notifications.rs:29-102 | in such a run every answer is exactly what the unbounded history says |
| NotificationTargets.LostTargetWasDropped | src-tauri/src/notifications.rs:29-51 | in every run, a young target that was not consumed is missing only because a later call found the targets full and no older one among them |
| NotificationTargets.LostShownWasDropped | src-tauri/src/notifications.rs:63-101 | the same for the notification a session would replace |
| NotificationTargets.LostTargetWasCrowdedOut | src-tauri/src/notifications.rs:29-51 | a target goes missing only where 255 other notifications have young targets remembered no earlier, by the unbounded history |
| NotificationTargets.LostShownWasCrowdedOut | src-tauri/src/notifications.rs:63-101 | the same for sessions |
| NotificationTargets.ReachedIsRun | src-tauri/src/notifications.rs:29-102 | those runs are the runs of the other results |
| LaunchArguments.RejectUnrecognizedArgs | src-tauri/src/daemon_host.rs:80-109 | returns the first unrecognized token at a boundary, if there is one, having looked at the boundaries up to it and no others |
| LaunchArguments.ParseChannelFlag | src-tauri/src/daemon_host.rs:164-188 | gives what the last channel token among the boundaries says, having looked at all of them |
| LaunchArguments.ScannersAgree | src-tauri/src/daemon_host.rs:80-188 | the positions the first scanner looks at, however early it rejects, are those of the second after the program name if and only if that name is not a `--channel` before other arguments |
| LaunchArguments.RequestedBeyondTokens | src-tauri/src/daemon_host.rs:190-192 | a check over all arguments holds exactly for a token or a value some `--channel` takes |
| LaunchArguments.MatchesBeyondTokens | src-tauri/src/daemon_host.rs:59-63 | the same for a check by any test, from any place on |
| LaunchArguments.DashIsNoChannel | core/houston-core/src/paths.rs:83-101 | nothing that starts with a dash is a valid channel name |
| LaunchArguments.FlagsAreNoChannels | core/houston-core/src/paths.rs:83-101 | no accepted flag is a valid channel name |
| LaunchArguments.DashChecksAgreeWithTokens | src-tauri/src/daemon_host.rs:59-192 | with at most one channel token and a valid channel, every check over all arguments that matches only what starts with a dash agrees with the tokens |
| LaunchArguments.ChecksAgreeWithTokens | src-tauri/src/daemon_host.rs:190-192 | so does the check for each standalone flag |
| LaunchArguments.BenchChecksAgreeWithTokens | src-tauri/src/daemon_host.rs:58-63 | and the check for the bench flag with or without scenarios, from the program's name on or behind it |
| LaunchArguments.ChannelIsPresentIffRead | src-tauri/src/daemon_host.rs:194-198 | the check for a channel flag matches exactly when the second scanner comes to one, whatever the arguments |
| LaunchArguments.OverriddenValueIsStillMatched | src-tauri/src/daemon_host.rs:164-192 | with a repeated `--channel` an overridden value still matches as a flag |
| LaunchChannels.AcceptedTokens | src-tauri/src/daemon_host.rs:24-109 | the accepted tokens, one by one |
| LaunchChannels.TokensStandBehindEachOther | src-tauri/src/daemon_host.rs:80-188 | the positions looked at go on by two after a `--channel` and by one else, to the end |
| LaunchChannels.RejectedIsTheFirst | src-tauri/src/daemon_host.rs:80-109 | the arguments pass exactly when every token behind the program's name is accepted; else the first other one is named |
| LaunchChannels.LastTokenDecides | src-tauri/src/daemon_host.rs:164-188 | the last channel token says what stands behind or in it, or that nothing or only blanks do |
| LaunchChannels.NoTokenNoChannel | src-tauri/src/daemon_host.rs:164-188 | without one the flag is not given |
| LaunchChannels.TrimmingTakesBlankEnds | src-tauri/src/daemon_host.rs:170-171 | trimming takes the blanks at both ends, all of them, and nothing else |
| LaunchChannels.ValidChannels | core/houston-core/src/paths.rs:83-101 | a channel's name has 1 to 32 lower-case letters, digits and dashes, with no dash at an end; blank and `release` mean the release channel |
| LaunchChannels.OwningChannels | src-tauri/src/daemon_host.rs:128-141 | the flag decides, then the kind of build |
| Reassembly.Channel.Receive | src-tauri/src/bench_harness.js:12-27 | after each arrival the next index is the least not arrived, exactly the messages before it are delivered, once and in order, and the rest waits; the drain terminates |
| Reassembly.DeliverNext | src-tauri/src/bench_harness.js:19-23 | one turn of the drain keeps that |
| Reassembly.OrderOfArrivalIsIrrelevant | src-tauri/src/bench_harness.js:7-28 | what is delivered depends only on which messages arrived |
| UpdateManifest.MatchFormIsExact | scripts/gen-update-manifest.py:87-92 | a form matches a name with a version exactly when the name is spelled from them |
| UpdateManifest.MatchInFinds | scripts/gen-update-manifest.py:87-92 | the first match describes the name, and no match means no form describes it |
| UpdateManifest.FoundDeterminesName | scripts/gen-update-manifest.py:40-63 | a kind, a version and an architecture belong to one name only |
| UpdateManifest.SortFiles | scripts/gen-update-manifest.py:146-195 | the first loop succeeds exactly when every file is a readable signature or a bundle of the version, with tables that hold exactly the bundles; the two-bundles refusals cannot come up |
| UpdateManifest.Collect | scripts/gen-update-manifest.py:146-232 | succeeds exactly for a release: bundles and signatures pair off, exactly the expected architectures each with an AppImage form and a deb, Windows exactly when included; the reason given for a refusal is true of the files |
| ManifestAssembly.ArtifactVersion | scripts/gen-update-manifest.py:153-153 | the version up to its build metadata |
| ManifestAssembly.EntryPublishes | scripts/gen-update-manifest.py:265-269 | after collecting, every bundle's signature lookup is defined and gives what stands beside the bundle |
| ManifestAssembly.FillLinux | scripts/gen-update-manifest.py:272-277 | every lookup of the Linux loop is defined and its keys are exactly those of the architectures |
| ManifestAssembly.FillWindows | scripts/gen-update-manifest.py:278-280 | the same for the Windows loop |
| ManifestAssembly.VerifySignatures | scripts/gen-update-manifest.py:114-143 | accepts exactly when every signature verifies |
| ManifestAssembly.Assemble | scripts/gen-update-manifest.py:235-290 | a manifest comes out exactly for a complete release that verifies; each key publishes the right bundle with the signature beside it, the updater payload preferred to the plain AppImage |
| ManifestAssembly.ManifestKeyCount | scripts/gen-update-manifest.py:271-280 | three keys for each Linux architecture and two for Windows |
| ManifestAssembly.WrittenKeysDiffer | scripts/gen-update-manifest.py:271-280 | written out, no two keys of a manifest are the same text |
| ReleaseNames.ReleaseSpelledOut | scripts/gen-update-manifest.py:22-232 | accepted are exactly the sets with, for one version, the package and at least one AppImage form for both Linux architectures, the Windows installer exactly when included, a readable signature beside each, and no other file |
| ReleaseNames.ManifestSpelledOut | scripts/gen-update-manifest.py:265-280 | the text of each key, the name of the file under it, and the signature beside that file; there are no more keys |

## Left out

- Commands, windows, HTTP, sockets, D-Bus, clipboard and dialogs: plumbing over outside libraries.
- Daemon handoff and retirement: the decision is taken inside `houston-core`, and what the shell adds is checks in a row.
- The `git ls-files` form of the index, and building the index from either form.
- Lock poisoning, panics of a scan, and the current directory being unavailable.
- Windows path separators, prefixes and the Windows-only branches.
- Real Unicode tables: lower-casing, blanks and lossy decoding are parameters; characters are scalar values.
- A file system that changes during a walk or between two calls of the resolver; a walk reads one tree, in which a link is a leaf.
- Failures of anything but the image write in the background commands (reading, creating, renaming, removing, setting modes), and files someone else puts into that directory.
- The allowlist checks inside the watch commands, and errors of the system's unwatch, which the source ignores.
- The branch of the skill writer that passes content through because it looks like TOML already.
- Normalizing of line ends when TOML is read, which the standard leaves to the parser; a lone carriage return is taken as permitted, as the standard's prose has it.
- `BinaryHeap` from the inside: it is told by its interface, the ranks in order with the worst at the end.
- Time: instants are numbers that never go back, each call of the notification store is one instant, and the debounce window ends at any moment.
- What the publisher still holds when its sender goes away during the window: the source returns without publishing it.
- A second message under an index that has arrived already: the sender numbers its messages once each.
- The other two permits of the search commands, which bound searches and not scans.
- ManifestAssembly.Assemble: does not refuse for the shape of version, repository or tag or for empty notes, and leaves out the address and the date, because these only test or copy their argument; minisign and the content of a signature are parameters.
- `UpdateManifest.MatchForm` takes a name as it stands; Python's `$` would also match before a newline at the end of a name.
- PathIndexProtocol.EveryAnswerIsFresh: stated for runs that issue at most 2^64 generations, because it is false beyond them (FreshnessBound).
- LaunchArguments.DashChecksAgreeWithTokens: stated for at most one channel token, because it is false with more (OverriddenValueIsStillMatched); its instances likewise.
