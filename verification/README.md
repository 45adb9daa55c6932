# Appliance control plane: a Dafny model of its algorithms

This project models the parts of the appliance control plane that compute or coordinate something,
and proves what they guarantee. Each module follows one source file or one concern:

- `PosterProtocol`, `PosterRuns`, `PosterPage`, `PosterKeys`: the poster-capture protocol of the
  video page, a two-slot semaphore with a waiter queue, a single-flight table and a two-level cache,
  as a transition system whose steps are the stretches of code between two awaits; the theorems about
  all its runs; the module variables updated in place; the storage keys.
- `StorePaths`, `VideoStore`, `VideoTree`, `VideoShelves`, `VideoUploads`: the flat video store, the
  directories a listing invents from key prefixes, the recursive collection of the tree, the shelves,
  and uploads and deletions.
- `Redaction`: masking of sensitive values in logged JSON.
- `CatalogParser`, `CatalogRendering`, `PackResolver`: the line-oriented catalog parser, every layout
  it must read, and the resolution of packs to artifacts.
- `ModelTables`: the static reading of Python dict tables against what Python would build.
- `PercentEncoding`, `LibraryPaths`: percent-encoding over UTF-8 and the URL paths made with it.
- `DurableConsumer`: the durable-subscription loop against a redelivering broker.
- `StartupRetry`: backoff with 64-bit shifts. `SpatialNav`: arrow-key navigation. `Profiles`: profile
  and capability resolution. `AuthSession`: token storage and refresh-once requests. `GitAccess`: Git
  credentials and host coverage.
- `Options`, `Strings`, `Sorting`: what these share.

Where the code falls short of a property, the property is stated with its exact condition:

- A poster once read stays the same for ever if the session store is always readable or never
  (`SteadyStoreIsStable`). If reads may throw now and then, it does so exactly for the keys that the
  store held no poster for when the page loaded (`StableIffNoneKept`; `StalePosterReplaced` is a run
  that shows the old poster and then the new one).
- The recursive collection ends and shows every stored file exactly when every directory on the way to
  a file survives the trimming of a listing and every file has a name (such a store is well formed),
  and no stored path is a proper prefix of another (`NothingLostIff`; `HiddenFileLost` is a store that
  loses a file). Uploads do not enforce this (`UploadKeepsNothingLost`). For any
  store, the recursion ends exactly when it comes to no directory that lists a blank one
  (`RecursionEndsIff`; `BlankNameLoops` is why), and then `FileCollectedIff` says which files it shows.
  It then shows no path twice exactly when no directory it comes to lists two that are read as one with
  something in it (`CollectedOnceIff`; `TwinsCollectedTwice` is a store that shows a file twice).
- Deleting a path just uploaded restores the store unless the path ended in a slash and something else
  is stored there or below (`DeleteUndoesUpload`; `SlashDeletesAnother` deletes another file).
- The static reading of a table is complete in every run exactly when the table has constant keys only
  and spreads only such displays and tables (`CompleteIffPlain`), in modules that assign displays and
  names only to tables; `CompleteIff` is the condition for all modules. A computed key is missed
  (`ComputedKeyMissed`). The reading is sound if no other statement binds a table name
  (`ReadingSound`), and in general exactly when every key read is certain (`SoundIff`;
  `ReboundTableMisread` is a module that is misread).
- The backoff delay is right up to shift 35 and after that only when the bit shifted onto the sign is
  clear (`DelayRightIff`; `FirstWrongDelay` is shift 36), so a schedule is right exactly up to 37
  attempts (`ScheduleRightIff`).
- Shelf ids are distinct unless the root and a directory called `library` both hold videos
  (`ShelfIdsDistinctIff`; `ShelfIdsCollide` is two such videos).
- Any access to the browser stores may fail. No superseded token pair can ever be loaded exactly when
  there was none to start with and no step of the run leaves a stale copy, whose removal fails and
  which no write replaces (`NeverSupersededIff`). `SupersededPairLoaded` is a run that loads the old pair,
  and `HiddenPairLoaded` one that loads it once the local store cannot be read.

## Model

| member | source | states |
|---|---|---|
| PosterRuns.ReachableInv | services/controlplane-ui/src/lib/videoPoster.ts:49-62 | in every reachable state of any interleaving `activeCaptures` is the number of flights in a slot and at most 2; whoever waits is owed a wake-up (holders plus woken number at least 2); the queue lists the parked flights once each; the in-flight table holds a key exactly when one unfinished flight has it; every poster obtained is the one in memory |
| PosterRuns.SlotsCounted | services/controlplane-ui/src/lib/videoPoster.ts:7-62 | in every reachable state `activeCaptures` is the number of flights that are capturing or about to release, and at most 2; while anyone waits, these and the woken number at least 2 |
| PosterProtocol.StepKeepsBalance | services/controlplane-ui/src/lib/videoPoster.ts:49-62 | barging, re-parking, release and wake-up keep the slot count and the no-lost-wakeup condition |
| PosterProtocol.StepKeepsCoherence | services/controlplane-ui/src/lib/videoPoster.ts:155-186 | every step keeps the queue, the single-flight table and the cache coherent |
| PosterProtocol.StepKeepsInv | services/controlplane-ui/src/lib/videoPoster.ts:21-62 | the whole invariant is inductive |
| PosterRuns.NoOverlappingCaptures | services/controlplane-ui/src/lib/videoPoster.ts:160-184 | two flights that hold slots are for different keys, in every run |
| PosterRuns.QueueIsFifo | services/controlplane-ui/src/lib/videoPoster.ts:51-60 | a step leaves the queue alone, appends to it, or wakes its head |
| PosterRuns.CapturesOnlyOnMiss | services/controlplane-ui/src/lib/videoPoster.ts:165-172 | a capture starts only for a key that memory does not hold |
| PosterRuns.RunLengthBound | services/controlplane-ui/src/lib/videoPoster.ts:49-62 | any schedule of n loads takes at most 5n steps (reads aside), however flights barge and queue up again |
| PosterRuns.Progress | services/controlplane-ui/src/lib/videoPoster.ts:49-62 | while anything is unfinished some step other than a new call is possible |
| PosterRuns.StuckMeansDrained | services/controlplane-ui/src/lib/videoPoster.ts:49-62 | a run that cannot go on has finished every load, freed every slot and emptied the queue and the table |
| PosterRuns.CapturedAtMostOnce | services/controlplane-ui/src/lib/videoPoster.ts:155-186 | each key is captured successfully at most once in the life of a page |
| PosterRuns.OnlyCapturesReplace | services/controlplane-ui/src/lib/videoPoster.ts:21-47 | nothing but a capture that ends with a frame can change a poster that memory holds |
| PosterRuns.ObtainedPostersStay | services/controlplane-ui/src/lib/videoPoster.ts:21-47 | what a load obtained is what every later read returns, whether or not the session store can be read or written |
| PosterRuns.CaptureAnswers | services/controlplane-ui/src/lib/videoPoster.ts:39-47 | over all runs, a flight whose capture yielded a frame, or none, answers exactly that for ever; a frame is what every later read returns, and, if the store could be written, what the next page reads |
| PosterRuns.SecondLookAnswers | services/controlplane-ui/src/lib/videoPoster.ts:164-168 | a woken flight that gets a slot and finds a poster answers that poster |
| PosterRuns.FirstTestAnswers | services/controlplane-ui/src/lib/videoPoster.ts:155-168 | so does a new flight that finds one which the first look could not read |
| PosterRuns.SteadyStoreIsStable | services/controlplane-ui/src/lib/videoPoster.ts:21-37 | with a store that is always or never readable, once a read returns a poster every later read returns that poster |
| PosterRuns.StableIffNoneKept | services/controlplane-ui/src/lib/videoPoster.ts:21-37 | with a store that may throw now and then, later reads return what an earlier read returned exactly for the keys the store held no poster for |
| PosterRuns.StalePosterReplaced | services/controlplane-ui/src/lib/videoPoster.ts:21-47 | a read that throws and then succeeds during a load shows the old poster before the new one |
| PosterPage.Page.constructor | services/controlplane-ui/src/lib/videoPoster.ts:10-15 | a page starts in the initial state of the protocol |
| PosterPage.Page.ReadCachedPoster | services/controlplane-ui/src/lib/videoPoster.ts:21-37 | returns the memory value, else an image from the session store, which it copies to memory; one Read step |
| PosterPage.Page.TestWaitLoop | services/controlplane-ui/src/lib/videoPoster.ts:50-57 | one test of the wait loop: queue up, or take a slot and look in the cache again |
| PosterPage.Page.LoadVideoPoster | services/controlplane-ui/src/lib/videoPoster.ts:155-186 | one Load step; the caller gets the cached poster or the flight that the table holds for the key |
| PosterPage.Page.ResumeWaiter | services/controlplane-ui/src/lib/videoPoster.ts:50-57 | a woken flight tests the loop again; one Resume step |
| PosterPage.Page.FinishCapture | services/controlplane-ui/src/lib/videoPoster.ts:171-180 | a capture ends and its frame is cached; one Capture step |
| PosterPage.Page.WriteKey | services/controlplane-ui/src/lib/videoPoster.ts:39-47 | memory is written always, the session store if the write succeeds |
| PosterPage.Page.ReleaseCaptureSlot | services/controlplane-ui/src/lib/videoPoster.ts:58-61 | the slot is given back and the head of the queue woken; one Release step |
| PosterPage.Page.ForgetInflight | services/controlplane-ui/src/lib/videoPoster.ts:181-183 | the key leaves the in-flight table; one Cleanup step |
| PosterKeys.KeyInjective | services/controlplane-ui/src/lib/videoPoster.ts:17-19 | the storage key determines the path and the revision |
| PosterKeys.KeyReadsBack | services/controlplane-ui/src/lib/videoPoster.ts:17-19 | the key is the prefix, an encoding of the path without colons, a colon and the revision |
| PosterPage.OtherPostersUntouched | services/controlplane-ui/src/lib/videoPoster.ts:17-47 | capturing the poster of one revision of one file changes what is read for no other |
| VideoStore.ListVideoLibrary | services/controlplane-ui/src/mockClient.ts:832-879 | the loop over the keys computes the listing function |
| VideoStore.AddFileAt | services/controlplane-ui/src/mockClient.ts:835-869 | on segments, a stored file sets its own name in its own directory and makes sure of an entry on the way down in those above |
| VideoStore.ListExact | services/controlplane-ui/src/mockClient.ts:832-879 | whatever is stored and whatever path is asked for, a listing holds each entry of the trimmed directory exactly once: the file stored there with its path, size and time stamp, else a directory without a size if something is stored below; no file before a directory, and otherwise by name |
| Sorting.SortStable | services/controlplane-ui/src/mockClient.ts:872-877 | entries that the comparison ranks equal keep the order they came in |
| VideoStore.BlankNameLoops | services/controlplane-ui/src/mockClient.ts:833-860 | a blank directory is an entry of its parent and is listed as its parent is, so it holds itself |
| StorePaths.StartsWithIff | services/controlplane-ui/src/mockClient.ts:836-844 | the string prefix test and slice are the proper-prefix test and drop on segments |
| StorePaths.ChildRead | services/controlplane-ui/src/mockClient.ts:833-856 | the path of a child directory is trimmed to the parent if the name is blank, and else to the child with its name trimmed |
| VideoTree.CollectVideoTree | services/controlplane-ui/src/lib/videoLibrary.ts:133-147 | wherever no blank directory is reached, the recursion with its loop terminates (height below the directory) and computes the collection function |
| VideoTree.RecursionEndsIff | services/controlplane-ui/src/lib/videoLibrary.ts:133-147 | for any store, some number of levels is enough exactly when the recursion comes to no directory that lists a blank one; the result is then that of the recursion |
| VideoTree.CollectFound | services/controlplane-ui/src/lib/videoLibrary.ts:133-147 | for any store, the rows collected are the entries of the directories the recursion comes to, at their depths |
| VideoTree.CollectExact | services/controlplane-ui/src/lib/videoLibrary.ts:133-147 | in a well-formed store, below any directory exactly the unhidden stored files and their ancestors are collected, each path once, at the depth of the path |
| VideoTree.CollectDrawn | services/controlplane-ui/src/lib/videoLibrary.ts:139-145 | in a well-formed store no path comes twice, a directory comes before everything below it, and what is below it stands together |
| VideoTree.FileCollectedIff | services/controlplane-ui/src/mockClient.ts:849-868 | for any store, a stored file is collected, at depth segments minus 1, exactly when it has a name and the recursion comes to its directory |
| VideoTree.CollectedUnlessHidden | services/controlplane-ui/src/mockClient.ts:849-868 | in a well-formed store that is exactly when no file is stored at one of its ancestors |
| VideoTree.NothingLostIff | services/controlplane-ui/src/lib/videoLibrary.ts:133-147 | for any store, the recursion ends and every stored file is collected exactly when the store is well formed and prefix-free |
| VideoTree.NothingInvented | services/controlplane-ui/src/lib/videoLibrary.ts:133-147 | for any store, every row is a stored file or a proper ancestor of one, at the depth of its path |
| VideoTree.CollectedOnceIff | services/controlplane-ui/src/lib/videoLibrary.ts:133-147 | for any store where the recursion ends, no path is collected twice exactly when no directory it comes to lists two names that are read as the same directory with something in it |
| VideoTree.TwinsCollectedTwice | services/controlplane-ui/src/mockClient.ts:833-856 | with directories `a` and `a` followed by a space, a file in the first is collected twice |
| VideoTree.HiddenFileLost | services/controlplane-ui/src/mockClient.ts:849-868 | a file stored above another hides it |
| VideoTree.AncestorsCollected | services/controlplane-ui/src/lib/videoLibrary.ts:133-147 | in a prefix-free store every proper ancestor of a stored file is collected as a directory |
| VideoShelves.ParentOfWellFormed | services/controlplane-ui/src/lib/videoLibrary.ts:81-89 | the parent directory of a path is the path without its last segment |
| VideoShelves.BuildVideoShelves | services/controlplane-ui/src/lib/videoLibrary.ts:103-131 | the loop over the buckets computes the shelving function |
| VideoShelves.ShelvesConserve | services/controlplane-ui/src/lib/videoLibrary.ts:103-131 | the shelves together hold the multiset of videos they were built from |
| VideoShelves.ShelvesOrdered | services/controlplane-ui/src/lib/videoLibrary.ts:111-130 | directories are distinct, the root is first and the others are sorted; every shelf is nonempty, sorted by name, holds only videos of its directory and is named after it |
| VideoShelves.PlayableIff | services/controlplane-ui/src/lib/videoLibrary.ts:15-17 | playable are the names that end in `.mp4`, in capitals or not |
| VideoShelves.ShelfIdsDistinctIff | services/controlplane-ui/src/lib/videoLibrary.ts:124-126 | ids are distinct exactly when not both the root and `library` hold videos |
| VideoShelves.ShelfIdsCollide | services/controlplane-ui/src/lib/videoLibrary.ts:124-126 | a video in the root and one in `library` give two shelves one id |
| VideoShelves.PlayableFromStore | services/controlplane-ui/src/lib/videoLibrary.ts:149-153 | for any store, the playable entries collected are those of the playable stored files the recursion comes to |
| VideoShelves.LibraryConserved | services/controlplane-ui/src/lib/videoLibrary.ts:103-153 | from any flat store whose paths are collected once to the shelves, each playable file the recursion comes to is held exactly once and nothing else |
| VideoShelves.WellFormedConserved | services/controlplane-ui/src/lib/videoLibrary.ts:103-153 | from a well-formed store these are the playable files that nothing hides |
| VideoShelves.EveryVideoOnItsShelf | services/controlplane-ui/src/lib/videoLibrary.ts:103-153 | for any store, each playable file that is collected stands on the shelf of the directory it is stored in |
| VideoUploads.MockVideos.Upload | services/controlplane-ui/src/mockClient.ts:881-891 | assigns the cleaned key in place or at the end and reports whether it was there |
| VideoUploads.UploadKeyIs | services/controlplane-ui/src/mockClient.ts:882 | the key is the path without white space around it and then without slashes before it |
| VideoUploads.PutInPlace | services/controlplane-ui/src/mockClient.ts:885-889 | uploading to a key that is there replaces its value and moves nothing |
| VideoUploads.MockVideos.Delete | services/controlplane-ui/src/mockClient.ts:909-927 | deletes the key, or else everything below it, or reports that nothing was found and changes nothing |
| VideoUploads.DeleteExact | services/controlplane-ui/src/mockClient.ts:909-927 | for any store and path, a deletion succeeds exactly when something is stored at or below the trimmed path; what remains is stated on segments |
| VideoUploads.UploadKeepsPrefixFree | services/controlplane-ui/src/mockClient.ts:881-891 | an upload keeps the store prefix-free exactly when it lands neither above nor below another stored file |
| VideoUploads.UploadKeepsNothingLost | services/controlplane-ui/src/mockClient.ts:881-891 | while the library shows every stored file, an upload keeps it so exactly when its path is well formed and lies neither above nor below another |
| VideoUploads.DeleteUndoesUpload | services/controlplane-ui/src/mockClient.ts:881-927 | deleting a newly uploaded path restores the store exactly when the path did not end in a slash or nothing else is stored at or below it |
| VideoUploads.SlashDeletesAnother | services/controlplane-ui/src/mockClient.ts:881-914 | with `a` stored, uploading `a/` and deleting it does not restore the store |
| Redaction.CheckSensitiveKey | services/controlplane-ui/internal/controlplane/client.go:911-919 | the loop over the fragments decides whether a key is sensitive |
| Redaction.SensitiveIff | services/controlplane-ui/internal/controlplane/client.go:911-919 | a key is sensitive exactly when one of the seven words is spelled in it letter by letter, in capitals or not, wherever it stands |
| Redaction.CaseIrrelevant | services/controlplane-ui/internal/controlplane/client.go:911-919 | changing the case of ASCII letters never changes whether a key is sensitive |
| Redaction.RedactJSONValue | services/controlplane-ui/internal/controlplane/client.go:888-909 | the loops that fill fresh maps and slices, in any map order, compute the redaction function |
| Redaction.RedactKeepsPublic | services/controlplane-ui/internal/controlplane/client.go:888-909 | every node not beneath a sensitive key keeps its leaf value, its keys or its length |
| Redaction.RedactedEqualIff | services/controlplane-ui/internal/controlplane/client.go:888-909 | two documents redact alike exactly when they agree along every path that does not pass a sensitive key |
| Redaction.RedactIdempotent | services/controlplane-ui/internal/controlplane/client.go:888-909 | redacting twice is redacting once |
| Redaction.RedactedField | services/controlplane-ui/internal/controlplane/client.go:893-896 | after redaction a sensitive field reached by a public path holds the mask |
| Redaction.RedactIdentityIff | services/controlplane-ui/internal/controlplane/client.go:888-909 | redaction is the identity exactly when every such field is masked already |
| CatalogParser.LoadCatalogFallback | scripts/lib/resolve-pack-artifacts.py:74-124 | the loop over the lines of the text computes the parsing function |
| CatalogParser.LoadField | scripts/lib/resolve-pack-artifacts.py:98-123 | a line inside an entry changes that entry and the block-list flag as the parsing function does |
| CatalogRendering.EntryNameIff | scripts/lib/resolve-pack-artifacts.py:92-97 | a line starts an entry exactly when it is two blanks, a name and a colon |
| CatalogRendering.FlowFieldIff | scripts/lib/resolve-pack-artifacts.py:101-113 | a line holds a flow list exactly when it is the head of the field, some white space and something in brackets |
| CatalogRendering.BlockItemIff | scripts/lib/resolve-pack-artifacts.py:118-123 | a line is a list item exactly when it is eight blanks, a hyphen, white space and a word |
| CatalogRendering.IgnoredIff | scripts/lib/resolve-pack-artifacts.py:81-82 | a line is ignored exactly when it is blank or a comment after some white space |
| CatalogRendering.OtherFieldUnrecognised | scripts/lib/resolve-pack-artifacts.py:98-124 | a field of any other name, whatever its value, is passed over |
| CatalogRendering.NameIff | scripts/lib/resolve-pack-artifacts.py:92 | entry names are made of letters, digits, dots, underscores and hyphens |
| CatalogRendering.SpaceIff | scripts/lib/resolve-pack-artifacts.py:81-83 | the characters that stripping takes off, one by one |
| CatalogRendering.LineBreakIff | scripts/lib/resolve-pack-artifacts.py:80 | the characters that end a line, one by one |
| CatalogRendering.FlowReads | scripts/lib/resolve-pack-artifacts.py:64-71 | a flow list is read as its identifiers, however they are padded, quoted and separated by blank parts |
| CatalogRendering.FieldReads | scripts/lib/resolve-pack-artifacts.py:98-123 | every field, in flow or block form, is read as what it stands for, and every other line is skipped |
| CatalogRendering.ParseRender | scripts/lib/resolve-pack-artifacts.py:74-124 | every layout of a catalog, with blank lines, comments and unrecognised lines, parses to that catalog |
| CatalogRendering.ParseText | scripts/lib/resolve-pack-artifacts.py:74-81 | written out with line feeds, with or without carriage returns, and split into lines again, every layout parses to its catalog |
| CatalogRendering.ParsePlain | scripts/lib/resolve-pack-artifacts.py:74-124 | every catalog has a layout: writing it plainly and parsing it gives it back |
| PackResolver.SelectCapabilities | scripts/lib/resolve-pack-artifacts.py:149-158 | succeeds exactly when every pack is known, with the union of their capabilities, and else names the first unknown pack |
| PackResolver.AddRequired | scripts/lib/resolve-pack-artifacts.py:165-176 | succeeds exactly when every nonblank id of a capability is known, and adds their trimmed names; else names the first unknown one |
| PackResolver.ResolveArtifacts | scripts/lib/resolve-pack-artifacts.py:143-177 | succeeds exactly when every pack, capability and nonblank artifact id is known, with the union of the required artifacts; else reports the first problem, packs in order before capabilities in sorted order |
| PackResolver.BlameUnique | scripts/lib/resolve-pack-artifacts.py:149-175 | only one problem can be the one reported |
| PackResolver.RequiredFromFiles | scripts/lib/resolve-pack-artifacts.py:143-177 | from the two files as written: a selection requires exactly the trimmed nonblank ids written, in flow or block form, for a capability that is written for a selected pack |
| PackResolver.ResolvableFromFiles | scripts/lib/resolve-pack-artifacts.py:143-177 | from the two files as written: it resolves exactly when every pack and every listed capability has an entry and every id required there is blank or known |
| PackResolver.ResolveConcat | scripts/lib/resolve-pack-artifacts.py:143-177 | resolution maps concatenation of pack lists to union, and succeeds on both or neither |
| PackResolver.OrderIrrelevant | scripts/lib/resolve-pack-artifacts.py:149-158 | order and repetition of packs do not matter |
| PackResolver.OrderedArtifacts | scripts/lib/resolve-pack-artifacts.py:214 | the list comprehension filters the known list |
| PackResolver.PrintedExact | scripts/lib/resolve-pack-artifacts.py:213-219 | the printed list is the duplicate-free subsequence of the known list with exactly the required artifacts |
| PackResolver.PrintedArtifacts | scripts/lib/resolve-pack-artifacts.py:26-51 | for the known ids of the script, which are distinct, what is printed is exactly what is required, once each, in their order |
| PackResolver.LayoutIrrelevant | scripts/lib/resolve-pack-artifacts.py:127-177 | two layouts of the same catalogs resolve alike |
| ModelTables.ScanModule | deploy/charts/appliance-inference/files/list_vllm_archs.py:28-33 | the loop over the module body computes the tables |
| ModelTables.ReadingSound | deploy/charts/appliance-inference/files/list_vllm_archs.py:7-33 | every key read for a table is a string key of the dict Python builds, whatever the parts not looked into do |
| ModelTables.ReportSound | deploy/charts/appliance-inference/files/list_vllm_archs.py:34-37 | the reported architectures are nonempty and are keys of the dict one of the two table names is bound to |
| ModelTables.RecordedIff | deploy/charts/appliance-inference/files/list_vllm_archs.py:28-33 | a table is recorded exactly when its name ends in `_MODELS` and is assigned |
| ModelTables.ReportIs | deploy/charts/appliance-inference/files/list_vllm_archs.py:34-36 | the table of all models is reported if any key of it was read, else that of the text models, and nothing exactly when neither has keys |
| ModelTables.ReportComplete | deploy/charts/appliance-inference/files/list_vllm_archs.py:34-37 | if the reported table is plain, the report is the set of keys Python builds for it |
| ModelTables.SoundIff | deploy/charts/appliance-inference/files/list_vllm_archs.py:7-33 | for any module, every key read is there in every run exactly when every key read is certain |
| ModelTables.ReboundTableMisread | deploy/charts/appliance-inference/files/list_vllm_archs.py:29 | a table that another statement binds again is misread |
| ModelTables.CompleteIff | deploy/charts/appliance-inference/files/list_vllm_archs.py:7-33 | for any module, the reading equals the keys Python builds in every run exactly when the table leaves nothing open and nothing was missed |
| ModelTables.PlainTablesComplete | deploy/charts/appliance-inference/files/list_vllm_archs.py:7-33 | of a table with constant keys that spreads only such displays or earlier such tables, through nesting and reassignment, the keys read are the keys Python builds, in every run |
| ModelTables.CompleteIffPlain | deploy/charts/appliance-inference/files/list_vllm_archs.py:7-33 | in a module that assigns displays and names only to tables, exactly those tables are always read completely |
| ModelTables.ComputedKeyMissed | deploy/charts/appliance-inference/files/list_vllm_archs.py:13-17 | a table with a computed key is not read completely |
| PercentEncoding.Utf8RoundTrip | services/controlplane-ui/src/client.ts:73 | the UTF-8 octets of a character decode to it and to nothing else |
| PercentEncoding.DecodeEncode | services/controlplane-ui/src/client.ts:73 | percent-decoding undoes percent-encoding, for every string |
| PercentEncoding.EncodeAlphabet | services/controlplane-ui/src/client.ts:73 | an encoded string holds only unreserved characters and `%` |
| PercentEncoding.EncodeCharIs | services/controlplane-ui/src/client.ts:65-96 | letters, digits and nine marks stand for themselves, and every other character becomes triplets with capital digits |
| PercentEncoding.EncodeAppend | services/controlplane-ui/src/client.ts:65-96 | a string is encoded character by character |
| LibraryPaths.TrimmedSegments | services/controlplane-ui/src/client.ts:66-72 | stripping slashes changes no segment, and the trimmed path is empty exactly when there is none |
| LibraryPaths.TrimmedIs | services/controlplane-ui/src/client.ts:65-96 | trimming takes off white space at both ends and then slashes at both ends, and nothing else |
| LibraryPaths.SpaceIff | services/controlplane-ui/src/client.ts:66 | the characters that trimming takes off, one by one |
| LibraryPaths.EncodersReadBack | services/controlplane-ui/src/client.ts:65-96 | splitting and percent-decoding the URL of each of the three encoders recovers the segments |
| LibraryPaths.SameUrlIffSameSegments | services/controlplane-ui/src/client.ts:65-96 | two paths encode alike exactly when they have the same nonempty segments |
| DurableConsumer.Consumer.Subscribe | sdk/golang/messaging/messaging.go:110-148 | checks its arguments and the subscription, then takes one turn of the protocol per round until it stops, and returns the error of the turn that stopped it |
| DurableConsumer.RunsKeepInv | sdk/golang/messaging/messaging.go:122-147 | over all runs with publishing, restarts and redelivery, nothing is lost, every settlement follows its cause, and handler runs match deliveries |
| DurableConsumer.LeavesOnlyWhenDone | sdk/golang/messaging/messaging.go:135-146 | a well-formed message leaves the backlog only after its handler returned nil; a malformed one is terminated and never handled |
| DurableConsumer.HandledOncePerDelivery | sdk/golang/messaging/messaging.go:123-143 | the handler runs once per delivery of a well-formed message, in delivery order |
| DurableConsumer.DeliverySettles | sdk/golang/messaging/messaging.go:135-146 | what a delivery logs, whether the loop goes on, and that the broker lets go of the message exactly when it notices a termination or an acknowledgement |
| DurableConsumer.FailureEndsSession | sdk/golang/messaging/messaging.go:140-143 | after a failed handler come Nak and the end of the session, and nothing until a restart |
| DurableConsumer.RedeliveryAfterLostAck | sdk/golang/messaging/messaging.go:144-146 | a message whose Ack the broker missed is handled again |
| StartupRetry.Retry | services/controlplane/internal/app/startup_retry.go:27-53 | stops at the first success, never exceeds the attempts, calls once more than it completes waits, uses the scheduled delays, reports each failed call's own error before the wait that follows it, and returns the last error when exhausted |
| StartupRetry.DelayRightIff | services/controlplane/internal/app/startup_retry.go:41-44 | the wrapped delay is min(250 ms times 2^k, 5 s) exactly for shifts up to 35 and those whose sign bit comes out clear |
| StartupRetry.FirstWrongDelay | services/controlplane/internal/app/startup_retry.go:41-44 | the delay after shift 36 is wrong and those before it are right |
| StartupRetry.ScheduleRightIff | services/controlplane/internal/app/startup_retry.go:32-44 | all the delays of a run are right exactly for at most 37 attempts |
| StartupRetry.BackoffIs | services/controlplane/internal/app/startup_retry.go:12-16 | the intended delay is 250 ms doubled each time, up to 5 s |
| StartupRetry.BackoffNondecreasing | services/controlplane/internal/app/startup_retry.go:12-16 | the intended delays grow from 250 ms to at most 5 s |
| StartupRetry.TotalWaitIs | services/controlplane/internal/app/startup_retry.go:32-51 | n failed attempts, 6 to 37, wait 7.75 s plus 5 s for each beyond the sixth |
| StartupRetry.WaitsAddUp | services/controlplane/internal/app/startup_retry.go:41-49 | the delays of a run add up to the total wait of its attempts |
| StartupRetry.SyncVideoProjection | services/controlplane/internal/app/startup_retry.go:12-25 | a projection sync that uses up its twelve attempts has waited 37.75 s and returns the last error |
| SpatialNav.PickSpatialNeighbor | services/controlplane-ui/src/lib/spatialNav.ts:15-54 | returns the first eligible candidate of least score, and nothing exactly when none is eligible |
| SpatialNav.PickIff | services/controlplane-ui/src/lib/spatialNav.ts:11-54 | on the coordinates, the pick is another element, further on by more than 1, and the first of those with the least distance along plus square of the distance across over 120 |
| SpatialNav.PickUnique | services/controlplane-ui/src/lib/spatialNav.ts:22-53 | the pick is determined |
| SpatialNav.AlignedBound | services/controlplane-ui/src/lib/spatialNav.ts:43-51 | with a candidate straight ahead at distance d, the pick satisfies secondary squared at most 120 times (d minus primary) |
| SpatialNav.RunAdvances | services/controlplane-ui/src/lib/spatialNav.ts:28-42 | over any run of presses in one direction the centre advances by more than the number of presses |
| SpatialNav.RunEnds | services/controlplane-ui/src/lib/spatialNav.ts:15-54 | a run never revisits an element and makes at most n minus 1 moves |
| Profiles.CatalogFromMetadata | services/controlplane/internal/appliance/appliance.go:87-127 | fails exactly on a blank name; otherwise each trimmed name stands for a definition that trims to it |
| Profiles.TrimIs | services/controlplane/internal/appliance/appliance.go:87-127 | a trimmed name is what is left without the white space around it |
| Strings.GoSpaceIff | services/controlplane/internal/appliance/appliance.go:90 | the characters that trimming takes off, one by one |
| Profiles.CatalogUnique | services/controlplane/internal/appliance/appliance.go:87-127 | map order does not show when trimmed names do not collide |
| Profiles.Names | services/controlplane/internal/appliance/appliance.go:143-151 | the enabled capabilities, each once, sorted |
| Sorting.NameLeIff | services/controlplane/internal/appliance/appliance.go:144-151 | names are ordered by the first characters that differ, a prefix first |
| Profiles.SortedUnique | services/controlplane/internal/appliance/appliance.go:143-151 | a set has only one sorted list, so the order of the map cannot show |
| Profiles.ResolveProfile | services/controlplane/internal/appliance/appliance.go:200-230 | succeeds exactly when the profile, its capabilities and their direct dependencies are in order, with exactly the listed set; else reports the first problem: unknown capabilities in list order, then the base, then missing dependencies in sorted order |
| Profiles.BlameUnique | services/controlplane/internal/appliance/appliance.go:200-230 | only one problem can be the one reported |
| Profiles.ResolvedIsClosed | services/controlplane/internal/appliance/appliance.go:220-227 | a resolved profile is closed under chains of dependencies, cycles included |
| Profiles.ListOrderIrrelevant | services/controlplane/internal/appliance/appliance.go:207-214 | order and repetition in the list do not matter |
| AuthSession.NeverSuperseded | services/controlplane-ui/src/auth.ts:6-73 | while removals succeed, over any run of toggles, saves, clears and loads with failing reads and writes, at most one store holds a pair and a load returns the pair saved last or nothing |
| AuthSession.SavedStays | services/controlplane-ui/src/auth.ts:34-68 | a pair that was written is loaded by every load that can read, until it is replaced or cleared, whatever the persist flag does |
| AuthSession.NeverSupersededIff | services/controlplane-ui/src/auth.ts:6-73 | whichever reads, removals and writes fail, from any stores, after every prefix of a run every load returns the pair saved last or nothing exactly when that holds at the start and no step leaves a stale copy |
| AuthSession.HiddenPairLoaded | services/controlplane-ui/src/auth.ts:6-44 | a run whose old pair is loaded as soon as the local store cannot be read |
| AuthSession.SupersededPairLoaded | services/controlplane-ui/src/auth.ts:59-68 | a run that loads the old pair after a save whose removal failed |
| AuthSession.Client.SetAuthPersist | services/controlplane-ui/src/auth.ts:34-40 | changes the persist flag alone, and leaves it when the write or the removal fails |
| AuthSession.Client.ClearAuth | services/controlplane-ui/src/auth.ts:70-73 | empties the stores whose removal succeeds and keeps the persist flag |
| AuthSession.Client.SaveAuth | services/controlplane-ui/src/auth.ts:30-68 | whichever accesses fail, with a pair or null, the stores are those of the run theorems; a persist flag that cannot be read counts as not set; when the removals succeed there is one copy at most, and it is the new pair or nothing |
| AuthSession.Client.LoadAuth | services/controlplane-ui/src/auth.ts:6-57 | the local store is asked first, and the other when there is nothing or the read fails; text that does not parse is cleared as far as removals succeed |
| AuthSession.Client.RefreshOnce | services/controlplane-ui/src/client.ts:280-293 | the method computes the refresh function of the stores: no fetch without a refresh token; one otherwise, and its answer is saved, or clears the session when empty |
| AuthSession.Client.Request | services/controlplane-ui/src/client.ts:880-937 | the method computes the request function of the stores, the answers and the failures |
| AuthSession.RequestBounded | services/controlplane-ui/src/client.ts:880-937 | against any answers and any store failures, at most three fetches, of which only the second is a refresh |
| AuthSession.RequestAnswers | services/controlplane-ui/src/client.ts:923-936 | the answer is a value exactly for a document, undefined exactly for an empty body, and an error otherwise or when the refresh fails |
| AuthSession.RequestSendsCurrent | services/controlplane-ui/src/client.ts:896-927 | if no superseded pair can be loaded, none is sent: the call and the refresh carry tokens of the pair saved last, and the repeat that of the new pair |
| AuthSession.SmoothRequest | services/controlplane-ui/src/client.ts:880-937 | when the stores do not fail, exactly when a request refreshes and is repeated, and with which tokens |
| GitAccess.Builder.constructor | services/controlplane-ui/src/mockClient.ts:207-220 | the initial credentials are consistent |
| GitAccess.Builder.UpdateGitAccess | services/controlplane-ui/src/mockClient.ts:558-585 | refuses a blank name; otherwise replaces what has the name or the host, and keeps the status consistent |
| GitAccess.Builder.DeleteGitAccess | services/controlplane-ui/src/mockClient.ts:587-603 | removes the named credential and keeps the status consistent |
| GitAccess.StatusConsistent | services/controlplane-ui/src/mockClient.ts:573-583 | names and hosts distinct, names sorted, covered hosts exactly those of the credentials, missing hosts exactly required minus covered, `configured` exactly when nothing is missing (or some credential exists when nothing is required) |

## Left out

- React pages, shell, components, hooks and viewing state: rendering and browser effects.
- Frame decoding, canvas, timers and the playback cookie of the poster module: the outcome of a capture is arbitrary, an image or nothing.
- Finality of mock job cancellation: the pending timer overwrites a cancelled job, so the code does not have the property.
- Browser dot-segment normalisation of URLs, lone surrogates and special object keys such as `__proto__`: strings are sequences of Unicode scalar values and stores are keyed by plain strings.
- Locale comparison and floating-point rounding: names are ordered by an arbitrary total preorder, and coordinates are exact reals.
- The clock: the time stamp of a directory entry is a parameter.
- Listing, upload and deletion of ordinary files in the mock client: the same code as for videos.
- PyYAML: the catalogs are those that the parser without it reads.
- The shell output format of the pack resolver: it prints one flag for each id of a fixed list.
- Redaction: number syntax and the raw summary of bodies that are not JSON; lower-casing is modelled as far as it can produce an ASCII letter.
- ModelTables: mutation of a dict by other code (`update`, `pop`, `clear`) and rebinding of a name from inside an expression (a walrus, or a call to code that declares the name global), which a static reading cannot see; statements other than single-name assignments are modelled by the names they bind.
- DurableConsumer: protobuf decoding, and handlers that call Ack themselves; which messages are well formed is given. Streams drop messages after their maximum age, seven days by default; that is not modelled.
- AuthSession.Client.Request: each request is modelled alone, not interleaved with others of the same client.
- The REST methods of the clients, generated types, gateways, configuration and command lines: input and output plumbing.
