# libinotifytools: a verified model

libinotifytools is the library behind `inotifywait` and `inotifywatch`: it keeps a table of
watched files, walks directory trees to watch them, reads event records from a kernel
descriptor, follows directory moves, counts events and prints them.  This project models that
in-memory state machine and its text codecs in Dafny and proves what they keep over whole runs.

The kernel and the file system are an environment that answers: descriptors, results of reads,
directory trees, a pattern on paths and the formatted time are parameters.  No other assumption
is made about them than what a theorem's `requires` says.

## How the model is laid out

| file | what it models |
|---|---|
| `Bytes.dfy` | byte strings, 32-bit words as sets of one-bits, the key order of `BTreeMap` |
| `EventBits.dfy` | the event bits of inotify |
| `Fids.dfy` | fanotify file identifiers and the keys made from them |
| `Stats.dfy` | the thirteen event counters and their total, wrapping at 2^32 |
| `Watches.dfy` | the watch table as a value: its operations and its invariant |
| `Inotifytools.dfy` | the handle as an object (module `Handle`): the same operations, step by step, each proved equal to the operation on values |
| `TableLaws.dfy` | what single operations do to the table, entry by entry |
| `Runs.dfy` | sequences of operations on a table: no dangling index entry, no panic |
| `Fanotify.dfy` | stable, one-to-one descriptors in fanotify mode |
| `PrefixReplace.dfy` | replacing a name prefix one entry at a time against a simultaneous relabelling |
| `WatchFiles.dfy` | setting up single watches, under inotify by descriptor and under fanotify by fid |
| `RecursiveWatch.dfy` | the tree walk, what it can register, and which directories one would expect it to |
| `WalkNames.dfy` | which entries an exclude list hits, and under which names directories are registered |
| `MoveTracking.dfy` | the tracker of creations and moves, and the real paths it must follow |
| `MoveRuns.dfy` | runs of changes of the watched tree, with and without a filter on events, and exactly which changes the tracker follows |
| `TrackedPaths.dfy` | the paths the tracker works with, under fanotify as under inotify |
| `Framing.dfy` | a parser of the kernel's byte stream, and what the kernel owes the reader |
| `EventReader.dfy` | the reader as an object over a fixed buffer, refining that parser |
| `Records.dfy` | events written from their fields as the kernel lays them out, and what the reader takes from them |
| `Filtering.dfy` | the text the filter looks at, and which events it lets through |
| `LostEvents.dfy` | what becomes of the stream when a split event is not completed at once |
| `Formatter.dfy` | the printf-like formatter over a fixed buffer, refining a token-by-token expansion |
| `Formats.dfy` | what formats mean, piece by piece |
| `MaskStrings.dfy` | event masks as text: in-place printer and parser |
| `EventNames.dfy` | names and numbers of events, and the text of a mask |
| `Csv.dfy` | CSV output, and a decoder after section 2 of RFC 4180 |
| `Conservation.dfy` | where every counted event is, over runs with removals and resets |
| `StatsTable.dfy` | rows, columns and order of the statistics table |
| `Counters.dfy` | counters, sort keys and columns in the numbers of inotify(7) |

Three patterns recur.  State that the library updates in place is an object whose methods are tied
to functions on values, and theorems are about those functions.  Where the library works through
a buffer or one entry at a time, an independent reference says what the result should be, and the
stepwise form is proved to refine it.  And where a step is computed by a function that its
specification shares, what the function gives is stated in the plain bytes, names and numbers of
the interface, without that function.

## Where the code and expectations differ

Each item names the theorem with the exact condition and an input that shows the failing side.

* `replace_filename` is a simultaneous relabelling only if no name collides
  (`PrefixReplace.ReplaceIsSimultaneous`, `PrefixReplace.CollidingNamesAreLost`).
* A directory entry that vanishes between `readdir` and `lstat` ends the walk of its directory:
  later entries and the directory itself are not registered, though the walk of the whole tree
  may succeed (`RecursiveWatch.CoversTheWantedExactlyWhen`, `RecursiveWatch.VanishedEntryCutsOff`).
* A directory renamed onto a watched empty directory leaves a stale watch behind
  (`MoveRuns.MoveIsTrackedExactlyWhen`, `MoveRuns.OccupiedDestination`).
* A directory moved out of the tree leaves the watches below it behind, and is not given up at
  all if the next event happens to be a MOVED_TO or the kernel refuses to drop its watch
  (`MoveRuns.MoveOutIsTrackedExactlyWhen`, `MoveRuns.WatchedSubdirectoryLeaves`,
  `MoveRuns.UnrelatedMoveIsPaired`).
* A partial event that was moved to the front of the buffer is lost by a timeout or error that
  follows, and the stream is never framed as its parse again
  (`LostEvents.PendingSurvivesExactlyWhen`, `LostEvents.LossIsForGood`, `LostEvents.SplitThenTimeout`).
* A filter lets new directories through but not the MOVED_FROM of a directory that is renamed:
  with only the MOVED_TO handled the recorded name stays the old one
  (`MoveRuns.FilteredChangeIsTrackedExactlyWhen`, `MoveRuns.RejectedHalf`).
* The length the formatter reports may count bytes that were never written
  (`Formatter.LengthOverrunsExactlyWhen`, `Formatter.LongName`).
* The last byte of the room is not always the expansion's: a cookie cut short ends in a NUL, and
  behind a token that ends right before it the last place keeps what was there or is cleared
  (`Formatter.LastByteIsThereExactlyWhen`, `Formatter.CutCookie`, `Formatter.PlainTextStopsShort`).
* A format that fails, as a lone trailing `%` does, leaves `len` as it was (`Formatter.Snprintf`,
  `Formatter.LonePercent`).
* A mask without known bits prints as a number that the parser rejects; if `0` is the separator
  the parser answers 0 instead of -1 (`MaskStrings.PrintThenParse`, `MaskStrings.UnnamedBit`).
* CSV output drops fields of more than 4096 bytes (`Csv.LogIsCompleteExactlyWhen`,
  `Csv.LongNameIsDropped`).

## Model

| member | source | states |
|---|---|---|
| `Fids.KeyIdentifiesRecord` | libinotifytools/src/fid.rs:71-84 | two fids share a lookup key exactly when their declared lengths and declared bytes agree, whatever follows |
| `Fids.FsidKeyIdentifiesFilesystem` | libinotifytools/src/fid.rs:88-96 | the filesystem keys of two fids coincide exactly when their 8-byte filesystem ids do |
| `Fids.SetHdrLen` | libinotifytools/src/fid.rs:58-60 | the new length reads back and no other byte changes |
| `Bytes.BitsAreBinaryDigits` | libinotifytools/src/inotify.rs:133-136 | a bit of a mask is the binary digit of its weight: the model of testing a mask with `&` |
| `Stats.RecordCounts` | libinotifytools/src/inotify.rs:133-154 | recording an event moves exactly the counters its mask names, and always the total, by one modulo 2^32 |
| `Counters.EachEventHasItsCounter` | libinotifytools/src/inotify.rs:133-154 | what an event with a single bit does to the counters, by the number of the bit |
| `Counters.EachNumberSelectsItsCounter` | libinotifytools/src/inotify.rs:111-131 | which counter a number selects, and that no other number selects any |
| `Watches.FreshWdIsFree` | libinotifytools/src/inotify.rs:417-429 | the wrapping search yields a positive descriptor not in use, after no more turns than lead once round the cycle |
| `Watches.SomeWdIsFree` | libinotifytools/src/inotify.rs:417-429 | while fewer than 2^31-1 positive descriptors are in use one is free (pigeonhole) |
| `Watches.CreateKeepsValid` | libinotifytools/src/inotify.rs:406-460 | registering a watch keeps every index entry live and correctly keyed, also when entries shadow each other |
| `Watches.DestroyKeepsValid` | libinotifytools/src/inotify.rs:465-476 | deleting by key leaves no entry that points to the destroyed watch |
| `Watches.RenameKeepsValid` | libinotifytools/src/inotify.rs:494-502 | renaming keeps every index entry live and correctly keyed, also onto a name that is taken |
| `Watches.RenamePrefixesKeepsValid` | libinotifytools/src/inotify.rs:633-651 | so does renaming any list of ids by prefix, and descriptors stay as they are |
| `Watches.InitAndCleanupKeepValid` | libinotifytools/src/inotify.rs:301-366 | opening and closing the handle keep the invariant, whether or not the kernel hands out a descriptor |
| `Watches.RecordKeepsValid` | libinotifytools/src/inotify.rs:1675-1686 | counting an event keeps the invariant |
| `Watches.InitializeStatsKeepsValid` | libinotifytools/src/inotify.rs:1689-1703 | resetting the counters keeps the invariant |
| `Handle.Inotifytools.Init` | libinotifytools/src/inotify.rs:301-339 | the new state, the result and the error of opening a handle, including a second call and a refused descriptor |
| `Handle.Inotifytools.Cleanup` | libinotifytools/src/inotify.rs:348-366 | all indexes and watches are gone afterwards and the error is reset; a closed handle is left alone |
| `Handle.Inotifytools.NextFreeWd` | libinotifytools/src/inotify.rs:417-429 | the search loop terminates whenever a descriptor is free, and finds a positive one that is not in use |
| `Handle.Inotifytools.CreateWatch` | libinotifytools/src/inotify.rs:406-460 | the indexes, the watch map and the result after registration: first key wins, a watch without any vacancy is dropped |
| `Handle.Inotifytools.DestroyWatch` | libinotifytools/src/inotify.rs:465-476 | the watch leaves all indexes by key |
| `Handle.Inotifytools.RemoveInotifyWatch` | libinotifytools/src/inotify.rs:478-492 | which error a refused removal leaves, and that fanotify watches are never asked for |
| `Handle.Inotifytools.RenameWatch` | libinotifytools/src/inotify.rs:494-502 | the id leaves its old name only if it holds it, takes the new one only if vacant, and bears it in any case |
| `Handle.Inotifytools.WdFromFilename` | libinotifytools/src/inotify.rs:605-614 | the descriptor recorded for a name, -1 without one |
| `Handle.Inotifytools.SetFilenameByWd` | libinotifytools/src/inotify.rs:617-622 | renames the watch of a descriptor, nothing without one |
| `Handle.Inotifytools.SetFilenameByFilename` | libinotifytools/src/inotify.rs:625-629 | renames the watch of a name, nothing without one |
| `Handle.Inotifytools.ReplaceFilename` | libinotifytools/src/inotify.rs:633-651 | the loop over a snapshot of the index, in name order, is the fold of single renames |
| `Handle.Inotifytools.RemoveWatchByWd` | libinotifytools/src/inotify.rs:653-670 | unknown descriptors succeed, a refused removal keeps the table, otherwise the watch is destroyed; and the error each leaves |
| `Handle.Inotifytools.RemoveWatchByFilename` | libinotifytools/src/inotify.rs:653-675 | the same by name |
| `Handle.Inotifytools.ResolveEvent` | libinotifytools/src/inotify.rs:1322-1338 | the descriptor an event is reported under and the table afterwards: known fid, new fid with a path, no path |
| `Handle.Inotifytools.RecordStats` | libinotifytools/src/inotify.rs:1675-1686 | the event is counted for the watch of its descriptor and in the totals, or not at all |
| `Handle.Inotifytools.InitializeStats` | libinotifytools/src/inotify.rs:1689-1703 | the watches of the descriptor index and the totals start again at zero |
| `TableLaws.FirstKeyWins` | libinotifytools/src/inotify.rs:406-460 | a new watch takes exactly the index entries that are vacant, and is kept if it takes one |
| `TableLaws.FirstFreeDescriptor` | libinotifytools/src/inotify.rs:417-429 | the descriptor handed out is the first free one on the way round from the last |
| `TableLaws.NewFidIsNamed` | libinotifytools/src/inotify.rs:1328-1338 | a new fid is registered under the path found for it and a descriptor that was free, which is the one reported |
| `TableLaws.InotifyWatchIsNamed` | libinotifytools/src/inotify.rs:692-767 | under inotify a new descriptor gets the path of the file, with one slash at the end for a directory |
| `TableLaws.KnownDescriptorKeepsItsWatch` | libinotifytools/src/inotify.rs:406-460 | a descriptor that is known already keeps its watch |
| `TableLaws.MarkedFileIsNamed` | libinotifytools/src/inotify.rs:692-767 | under fanotify a file is registered under its path, its fid and a descriptor that was free |
| `TableLaws.MarkedDirectoryIsNamed` | libinotifytools/src/inotify.rs:773-845 | under fanotify a directory has two entries: its filesystem's, named without the slash and with the descriptor handles are opened by, and its own, named with the slash and with the descriptor it was opened by |
| `TableLaws.FilesystemStays` | libinotifytools/src/inotify.rs:786-845 | if the file of a directory cannot be told its filesystem is entered all the same |
| `TableLaws.RequestFailsExactlyWhen` | libinotifytools/src/inotify.rs:692-767 | which requests fail, and with which error |
| `TableLaws.OnlyTheWatchGoes` | libinotifytools/src/inotify.rs:465-476 | a watch that is dropped takes its own entries out of the indexes; all others stay |
| `TableLaws.GoesExactlyWhen` | libinotifytools/src/inotify.rs:653-670 | a watch goes if and only if it is none of fanotify and the kernel has dropped it; which error each outcome leaves |
| `TableLaws.RenamedWatchIsFound` | libinotifytools/src/inotify.rs:494-502 | a renamed watch bears its new name, is found under it if that was vacant, and no longer under its old one |
| `TableLaws.PrefixIsReplaced` | libinotifytools/src/inotify.rs:633-651 | a name with the old prefix gets the new one unless it is the new one itself; empty prefixes change nothing |
| `TableLaws.OrderOfNames` | libinotifytools/src/inotify.rs:633-640 | names are replaced in the order of their bytes, a name before those it begins |
| `TableLaws.OpeningMayFail` | libinotifytools/src/inotify.rs:301-339 | an open handle is not opened again, and one that gets no descriptor stays closed |
| `TableLaws.NothingIsLeft` | libinotifytools/src/inotify.rs:301-366 | nothing survives closing a handle and opening it again |
| `TableLaws.DescriptorOfName` | libinotifytools/src/inotify.rs:605-614 | a name leads to the descriptor of a watch that bears it, or to -1 |
| `TableLaws.NameOfDescriptor` | libinotifytools/src/inotify.rs:507-547 | a descriptor leads to the name of its watch or, under filesystem marks, to the path found for its fid now |
| `TableLaws.CountedOnce` | libinotifytools/src/inotify.rs:1675-1686 | an event moves the counters its mask names by one, modulo 2^32, in its watch and in the totals and nowhere else |
| `TableLaws.CountersStartAgain` | libinotifytools/src/inotify.rs:1689-1703 | after a reset the totals are zero, and so are indexed watches if statistics were collected |
| `Runs.StepKeepsValid` | libinotifytools/src/inotify.rs:399-476 | no operation looks up a dead watch; only a handle without free descriptors can hang |
| `Runs.RunsNeverDangle` | libinotifytools/src/inotify.rs:332-476 | the same over every sequence of operations |
| `Runs.ReachableTables` | libinotifytools/src/inotify.rs:332-502 | in every state reachable from a new handle the index entries are live and correctly keyed, and no id is twice in one index |
| `FanotifyIdentity.IdentitiesAreStable` | libinotifytools/src/inotify.rs:417-484 | over any run in fanotify mode a fid key that has a descriptor keeps it |
| `FanotifyIdentity.LaterEventsReportTheSameWd` | libinotifytools/src/inotify.rs:1322-1338 | once an event was reported under a descriptor every later event with the same key reports that descriptor |
| `FanotifyIdentity.DistinctKeysHaveDistinctWds` | libinotifytools/src/inotify.rs:417-460 | distinct keys have distinct descriptors, and descriptors are in bijection with live watches |
| `FanotifyIdentity.SessionStarts` | libinotifytools/src/inotify.rs:301-339 | a freshly opened handle satisfies what these runs start from |
| `PrefixReplace.ReplaceIsSimultaneous` | libinotifytools/src/inotify.rs:633-651 | one entry at a time gives the simultaneous relabelling if and only if no moved name meets a name that is not out of the way by its turn |
| `PrefixReplace.CollidingNamesAreLost` | libinotifytools/src/inotify.rs:633-651 | a table in which "a" is replaced by "b" while both are recorded is not relabelled |
| `PrefixReplace.ReplaceMovesEveryName` | libinotifytools/src/inotify.rs:633-651 | if nothing is recorded under the new prefix every recorded name with the old prefix gets the new one; ids, descriptors and the number of entries stay |
| `PrefixReplace.ReplaceUndoesItself` | libinotifytools/src/inotify.rs:633-651 | for unrelated prefixes, replacing and replacing back restores the whole table |
| `WatchFiles.EncodedFidsIdentifyFiles` | libinotifytools/src/inotify.rs:773-834 | two files have the same key exactly if both or neither is a directory and their filesystem and handle are the same |
| `WatchFiles.BlankFidHasNoKey` | libinotifytools/src/inotify.rs:786-792 | a fid whose length is not set yet has the empty key, so the lookup before mounting never matches |
| `WatchFiles.AddedIsFound` | libinotifytools/src/inotify.rs:692-767 | whatever the answers, the table stays valid and grows by at most two; after a success the file is found by its name and by its descriptor or fid |
| `WatchFiles.EncodeFid` | libinotifytools/src/inotify.rs:773-845 | which answers make a fid, the fid, and the filesystem entry registered on the way even if a later answer fails |
| `WatchFiles.WatchFile` | libinotifytools/src/inotify.rs:687-689 | one watch, under inotify and fanotify: table, result and error |
| `WatchFiles.WatchFiles` | libinotifytools/src/inotify.rs:692-767 | a list of watches, up to the first that fails |
| `Records.FilesystemHasItsFid` | libinotifytools/src/fid.rs:88-96 | a filesystem is registered by a fid of kind 1, length 20 and empty handle |
| `Records.MarkedFileIsMet` | libinotifytools/src/inotify.rs:773-834 | an event that tells of a marked file has the key the file was registered by |
| `RecursiveWatch.ExcludedByName` | libinotifytools/src/inotify.rs:1848-1856 | a directory is excluded by its name with or without the final slash and by nothing else |
| `RecursiveWatch.BeforeIsALinearOrder` | libinotifytools/src/inotify.rs:978-1018 | post-order is a strict linear order on places in the tree |
| `RecursiveWatch.WalkIsRight` | libinotifytools/src/inotify.rs:956-1018 | the walk visits, strictly in post-order, exactly what it can register, up to the place of a fatal error; the error reported is that place's own |
| `RecursiveWatch.SucceedsExactlyWhen` | libinotifytools/src/inotify.rs:995-1012 | it succeeds if and only if the root can be registered and no directory the walk gets to fails fatally; EACCES, ENOENT and ELOOP below the root are never fatal |
| `RecursiveWatch.WantedIsATargetExactlyWhen` | libinotifytools/src/inotify.rs:982-1004 | a directory that is opened, not excluded and can be watched is registered exactly if it is not cut off: by an entry of it, or of a directory above and before it, that cannot be examined |
| `RecursiveWatch.VisitedExactlyWhen` | libinotifytools/src/inotify.rs:995-1018 | a directory is registered if and only if it can be and comes, in post-order, before every directory below the root that fails fatally |
| `RecursiveWatch.GoesThroughExactlyWhen` | libinotifytools/src/inotify.rs:995-1012 | the walk gets through everything below the root if and only if no directory there fails fatally |
| `RecursiveWatch.CoversTheWantedExactlyWhen` | libinotifytools/src/inotify.rs:956-1018 | when no directory below the root fails fatally the walk registers exactly the directories that are opened, not excluded and can be watched, if and only if none of them is cut off |
| `RecursiveWatch.VanishedEntryCutsOff` | libinotifytools/src/inotify.rs:988-996 | a successful walk in which a vanished entry leaves its directory and the one behind it unwatched |
| `RecursiveWatch.RegisteredIsAPrefix` | libinotifytools/src/inotify.rs:1005-1018 | what is registered, after a fatal error as well, is a prefix of the post-order list of all directories one would expect if and only if no directory that is cut off comes before one that can be registered and precedes every fatal error: conditions on the tree alone |
| `RecursiveWatch.WatchedIsRegistered` | libinotifytools/src/inotify.rs:956-1018 | under inotify the table after a walk has the directories visited registered one after the other, and nothing else |
| `RecursiveWatch.VisitsAreFound` | libinotifytools/src/inotify.rs:956-1018 | under inotify and fanotify a walk loses nothing, and every directory visited is found by its name and by its descriptor or fid |
| `RecursiveWatch.WatchRecursively` | libinotifytools/src/inotify.rs:956-1018 | the recursion with its loop: result, error and watch table are those of the walk |
| `WalkNames.DescendsExactlyWhen` | libinotifytools/src/inotify.rs:995-1004 | an entry is descended into if and only if it is a directory, is not "." or "..", and neither its path nor its path with a slash is in the exclude list |
| `WalkNames.RegisteredUnder` | libinotifytools/src/inotify.rs:978-1018 | a directory is registered under the path of the root with one slash, followed by the name of every entry on the way and a slash |
| `WalkNames.RegistrationsAre` | libinotifytools/src/inotify.rs:956-1018 | what is registered for each directory visited: that name, and the descriptor the kernel gave for it |
| `WalkNames.ErrorsThatEndAWalk` | libinotifytools/src/inotify.rs:988-1012 | which errors end the walk of a directory, and which the whole walk, by their numbers |
| `WalkNames.ExcludedChild` | libinotifytools/src/inotify.rs:1848-1856 | "/t/" with a directory "b", with and without "/t/b" in the exclude list |
| `MoveTracking.MoveTracker.Handle` | src/common.rs:466-514 | the watch table and the pending move after one event, under inotify and fanotify |
| `TrackedPaths.NewDirectoryIsWatched` | src/common.rs:488-501 | a directory that is created or moved in is walked under the name of its watch with a slash (fanotify), or with the name of the event between them (inotify); anything else that appears changes nothing |
| `TrackedPaths.MoveAwayIsNoted` | src/common.rs:502-507 | a directory that moves away is noted under that path if it is recorded, and only then |
| `TrackedPaths.MoveReplacesThePath` | src/common.rs:502-513 | the two events of a move replace the path of the first by the path of the second, and nothing stays pending |
| `TrackedPaths.NoDirectoryEndsTheMove` | src/common.rs:508-513 | a MOVED_TO that is no directory ends a pending move and replaces nothing |
| `TrackedPaths.MoveIsGivenUp` | src/common.rs:476-484 | a pending move that is not continued drops the directory if it is none of fanotify and the kernel agrees |
| `TrackedPaths.NothingIsFollowed` | src/common.rs:485-487 | without recursion no event ever changes anything |
| `TrackedPaths.UnknownDescriptor` | src/common.rs:488-501 | nor does an event on an unknown descriptor while no move is pending |
| `TrackedPaths.CreatedUnderFanotify` | libinotifytools/src/inotify.rs:590-600 | fanotify: "b" created in "/a/" is watched as "/a/b/" |
| `MoveTracking.GrowthIsAccurate` | libinotifytools/src/inotify.rs:406-460 | registering a new tree keeps every recorded name the real path, also for directories already watched |
| `MoveTracking.RenameIsAccurate` | libinotifytools/src/inotify.rs:633-651 | replacing the prefix follows a rename: all watches have real paths again |
| `MoveTracking.RemovalIsAccurate` | libinotifytools/src/inotify.rs:653-675 | removing a watch by name removes just that directory |
| `MoveRuns.MoveIsAReplacement` | src/common.rs:502-513 | the two events of a move together are one prefix replacement, and nothing stays pending |
| `MoveRuns.PendingIsSettled` | src/common.rs:476-484 | a pending move is settled by the first event of the next change if that is no MOVED_TO and the kernel drops the watch: just the directory that left is dropped |
| `MoveRuns.ChangeIsTracked` | src/common.rs:466-514 | each change, with its events handled and a pending move settled by the first of them, leaves recorded names true; a move is pending exactly after a move out of the tree |
| `MoveRuns.NamesStayTrue` | src/common.rs:466-514 | over any run of creations, moves in, moves within the tree and moves of directories without watched subdirectories out of it, in any order, every watch keeps its directory's real path when all events are handled; what follows a move out must not begin with a MOVED_TO, and the kernel must then drop the watch of the directory that left |
| `MoveRuns.NamesStayTrueUnderAFilter` | libinotifytools/src/inotify.rs:1207-1229 | the same over any run under any filter, whatever else it rejects, as long as it lets moves of watched directories through and the next event handed out after each move out settles it |
| `MoveRuns.FilteredChangeIsTrackedExactlyWhen` | libinotifytools/src/inotify.rs:1214-1229 | with no move pending, a change leaves names true under a filter if and only if it is not a move of a watched directory whose MOVED_FROM is rejected |
| `MoveRuns.RejectedHalf` | libinotifytools/src/inotify.rs:1215-1228 | "/a/" renamed to "/b/" under a filter that rejects "/a": the directory keeps its old name |
| `MoveRuns.StartIsAccurate` | libinotifytools/src/inotify.rs:956-1018 | the first walk on a new handle, with any exclude list, establishes what later changes keep |
| `MoveRuns.MoveIsTrackedExactlyWhen` | src/common.rs:508-513 | a move leaves names true if and only if its destination was not watched |
| `MoveRuns.OccupiedDestination` | src/common.rs:508-513 | "/a/" renamed onto the watched, empty "/b/" is not tracked |
| `MoveRuns.MoveOutIsTrackedExactlyWhen` | src/common.rs:476-484 | a move out of the tree is caught up with at the next change, whatever it is, if and only if nothing below the directory is watched, the next event is no MOVED_TO, and the kernel drops the watch |
| `MoveRuns.WatchedSubdirectoryLeaves` | src/common.rs:476-484 | "/a/" moved out while "/a/c/" is watched: "/a/c/" stays recorded |
| `MoveRuns.UnrelatedMoveIsPaired` | src/common.rs:508-513 | "/a/" moved out and a MOVED_TO of something else next: "/a/" is not given up |
| `Framing.CuttingKeepsWholeness` | libinotifytools/src/inotify.rs:1186-1205 | records cut off the front of a stream leave whole events if and only if the stream was one of whole events |
| `Framing.FramedRecordsAreTheParse` | libinotifytools/src/inotify.rs:1186-1205 | they are the beginning of its parse, and the parse goes on with what is left |
| `Framing.AccountsForTheParse` | libinotifytools/src/inotify.rs:1186-1205 | framed records and pending bytes together are the parse of all bytes read: nothing lost, repeated or misaligned |
| `Framing.WholeChunksAreServed` | libinotifytools/src/inotify.rs:1163-1183 | reads of whole events are all the reader needs from the kernel |
| `Framing.SplitEventsAreServed` | libinotifytools/src/inotify.rs:1113-1134 | so is a pair of reads that split an event, with or without its header complete, as long as each read fits behind what is left after compaction |
| `Framing.SplitReadsAreServed` | libinotifytools/src/inotify.rs:1113-1134 | from a fresh reader, two reads that split an event, the first of which may fill the buffer, are served and yield the stream of the unsplit read |
| `Framing.RestFitsExactlyWhen` | libinotifytools/src/inotify.rs:1113-1134 | the rest of a split event fits if and only if there is room for it behind the part there is: at the front of the 65536 bytes when its header is there, where it lies otherwise |
| `Framing.AnyChunkingIsServed` | libinotifytools/src/inotify.rs:1113-1183 | any chunking of the stream is served if and only if each single read suits what the ones before it left over |
| `Framing.RestGoesOn` | libinotifytools/src/inotify.rs:1113-1205 | what is left over after several reads depends on their bytes alone |
| `Framing.WholeChunksAddUp` | libinotifytools/src/inotify.rs:1163-1183 | reads of whole events add up to a stream of whole events |
| `EventReader.EventOfRecord` | libinotifytools/src/inotify.rs:1056-1074 | the event read at an offset of the buffer is the event of the record that lies there |
| `Records.InotifyEventIsRead` | libinotifytools/src/inotify.rs:1056-1074 | an event laid out as in inotify(7) is one record and is read with the fields it was written from, its name without padding |
| `Records.InotifyStreamIsParsed` | libinotifytools/src/inotify.rs:1186-1194 | a stream of such events is parsed into them |
| `EventReader.SupplyIsSound` | libinotifytools/src/inotify.rs:1113-1183 | a refill under the kernel's contract keeps the account of the stream and leaves a whole event to frame, or changes nothing |
| `EventReader.FramingIsSound` | libinotifytools/src/inotify.rs:1186-1205 | cutting one record off keeps the account and the contract |
| `LostEvents.PendingSurvivesExactlyWhen` | libinotifytools/src/inotify.rs:1113-1183 | after a failed refill framed and pending bytes make up the stream if and only if no split event had just been compacted; otherwise some of it is gone |
| `LostEvents.LossIsForGood` | libinotifytools/src/inotify.rs:1113-1205 | whatever replies and framing follow, they never make up the stream again, and the events framed are never its parse |
| `LostEvents.SplitThenTimeout` | libinotifytools/src/inotify.rs:1119-1147 | a header, a timeout, then the name: the name is framed as an event of its own |
| `EventReader.PatchedFid` | libinotifytools/src/inotify.rs:1279-1284 | with the length in its header cut, the record in the buffer is the fid without a name that is none |
| `EventReader.EventReader.Compact` | libinotifytools/src/inotify.rs:1121-1129 | the pending bytes are at the front, unchanged |
| `EventReader.EventReader.FindBuffered` | libinotifytools/src/inotify.rs:1113-1134 | whether a whole event is buffered, where the pending bytes are afterwards, and that none is changed |
| `EventReader.EventReader.Read` | libinotifytools/src/inotify.rs:1136-1183 | what each answer of the kernel does: error kept, bytes appended behind what is held |
| `EventReader.EventReader.Refill` | libinotifytools/src/inotify.rs:1113-1183 | window, pending bytes, replies left and error after a refill |
| `EventReader.EventReader.TakeInotifyEvent` | libinotifytools/src/inotify.rs:1186-1194 | steps over exactly one record and leaves the event at its start |
| `EventReader.EventReader.DropEmptyName` | libinotifytools/src/inotify.rs:1274-1285 | empty and "." names are cut from the fid, and only the two length bytes are written |
| `EventReader.EventReader.WriteEvent` | libinotifytools/src/inotify.rs:1363-1376 | the inotify form of an event in the second half of the buffer, the first half untouched |
| `EventReader.EventReader.LookUp` | libinotifytools/src/inotify.rs:1328-1338 | the descriptor and the table are those the fid of the record leads to |
| `EventReader.EventReader.ReadFanotifyRecord` | libinotifytools/src/inotify.rs:1246-1327 | fid, name, mask and process of the record at the next byte, and the bytes after it unchanged |
| `EventReader.EventReader.ConvertFanotifyEvent` | libinotifytools/src/inotify.rs:1246-1379 | the record is stepped over, its fid looked up or registered, and the converted event has its descriptor, mask and name |
| `Records.FanotifyEventIsRead` | libinotifytools/src/inotify.rs:1246-1286 | an event laid out as in fanotify(7) is one record; mask and process are its own, a name that is empty, starts with a NUL or is just "." counts neither as its name nor in its fid, any other does in both, and what pads the handle of a file or directory counts in the fid alone |
| `Records.EveryRecordIsWritten` | libinotifytools/src/inotify.rs:1246-1286 | every record the reader frames is of that layout, so what is proved of it holds for all |
| `Records.LowestByteFirst` | libinotifytools/src/inotify.rs:1044-1053 | numbers have their lowest byte first |
| `Records.SameKeyExactlyWhen` | libinotifytools/src/inotify.rs:1279-1324 | two events have the same key if and only if they are of one kind and agree in filesystem, handle and name, names that are none being equal |
| `Records.EventIsConverted` | libinotifytools/src/inotify.rs:1246-1379 | mask and name of a converted event, and its descriptor: the one its key has, a free one registered under the path found, or 0 |
| `Records.NameIsHandedOut` | libinotifytools/src/inotify.rs:1363-1376 | the name of a fanotify event ends before its NUL |
| `EventReader.RecordFields` | libinotifytools/src/inotify.rs:1257-1286 | nothing behind a fanotify record has a say in its fid or name |
| `EventReader.EventReader.FrameNext` | libinotifytools/src/inotify.rs:1186-1205 | one record joins the framed ones, the rest is pending, the account of the stream is kept, and the event presented is the record's, in fanotify mode with the descriptor of its fid |
| `EventReader.EventReader.Judge` | libinotifytools/src/inotify.rs:1207-1229 | an event passes exactly if it is not our own and the filter lets its path through, new directories always in recursive mode |
| `Filtering.TextOfEvent` | libinotifytools/src/inotify.rs:561-588 | the text the filter sees: the recorded name followed by that in the event, or for a fanotify watch that is no directory the recorded path alone; cut at 4096 bytes |
| `Filtering.TextWithoutWatch` | libinotifytools/src/inotify.rs:549-559 | an event without a watch is matched by its own name |
| `Filtering.NameIsPartOfTheText` | libinotifytools/src/inotify.rs:1217-1222 | "x" in the watched "/a/" is matched as "/a/x" |
| `EventReader.EventReader.NextEventsRaw` | libinotifytools/src/inotify.rs:1094-1239 | every event framed but the one delivered was rejected, the delivered one passes and is counted; each verdict is about the event its record stands for, under the watches of its turn; the error is that of the last answer, and no byte is lost |
| `Filtering.PassesExactlyWhen` | libinotifytools/src/inotify.rs:1207-1229 | each event of a call passes if and only if it is not our own and there is no pattern, it is a new directory in recursive mode, or the pattern answers as asked for on that text |
| `Filtering.HandedOutExactlyWhen` | libinotifytools/src/inotify.rs:1207-1239 | under inotify a call hands out an event if and only if the pattern says so of the recorded name followed by that in the event, new directories aside |
| `Filtering.ErrorOfTheLastReply` | libinotifytools/src/inotify.rs:1136-1162 | which replies leave an error, and which |
| `EventReader.EventReader.InotifyKeepsTheWatches` | libinotifytools/src/inotify.rs:1190-1194 | in inotify mode framing leaves the watches alone and every verdict is about the event that lies in the record |
| `EventReader.EventReader.NextEvents` | libinotifytools/src/inotify.rs:1085-1091 | the event handed to the client is the one framed event that passes, and none passes when there is no event |
| `EventReader.ReadEvents` | libinotifytools/src/inotify.rs:1078-1239 | over any sequence of calls, timeouts and errors the events framed are the beginning of the parse of all bytes read, the pending bytes parse to the rest, and the client gets exactly the framed events that pass, in order; each is judged under the watches of its turn, which, counting aside, run in one chain from those at the start to those at the end and change by the framing of records only; in inotify mode they stay those recorded at the start |
| `Formatter.StrNCpy` | libinotifytools/src/inotify.rs:1819-1828 | copies and zero-fills, never past the end of the buffer |
| `Formatter.StopsWithinExpansion` | libinotifytools/src/inotify.rs:1547-1636 | the token loop stops after the whole expansion or out of room, and a well-formed format never fails |
| `Formatter.ShortExpansionsAreComplete` | libinotifytools/src/inotify.rs:1547-1639 | an expansion that leaves room for one byte is written in full, and its length is the one reported |
| `Formatter.Snprintf` | libinotifytools/src/inotify.rs:1519-1640 | no byte from `size` on changes, whatever the format; otherwise the buffer shows the reference expansion up to its last byte, the last place of the room holds what it should or what was there, with length, result and error for every way to end |
| `Formats.FormatMeansItsPieces` | libinotifytools/src/inotify.rs:1547-1639 | any format is spelled out of pieces: plain bytes, %%, %0, %n, %w, %f, %c, %e, %Xe, %T and % with any other letter; it leaves what they stand for, one after the other, and that length, if it fits |
| `Formats.FormatFails` | libinotifytools/src/inotify.rs:1555-1607 | a lone % at the end, and %T under an invalid time format, fail at the length of what stands before them |
| `Formats.DefaultFormat` | src/inotifywait.rs:104-113 | the default format gives directory, blank, names of the events, blank, file and line feed |
| `Formats.CookieIsRead` | libinotifytools/src/inotify.rs:1583-1591 | a cookie is written in lower-case hexadecimal digits of its value, without leading zeros |
| `Formatter.LengthOverrunsExactlyWhen` | libinotifytools/src/inotify.rs:1547-1639 | the length counts bytes beyond the room, none of which is written, if and only if the token that leaves no more than one byte of it goes on behind its end |
| `Formatter.LongName` | libinotifytools/src/inotify.rs:1579-1582 | "%f" with a five-byte name and room for three: the length is 5 |
| `Formatter.LonePercent` | libinotifytools/src/inotify.rs:1555-1559 | the format "%" fails before anything is written, so the length stays |
| `Formatter.LastByteIsThereExactlyWhen` | libinotifytools/src/inotify.rs:1583-1591 | whenever the expansion has a byte for the last place of the room, it is there if and only if a token goes on to that place and is no cookie, or no token does and the byte equals the NUL or the old byte left there |
| `Formatter.PlainTextStopsShort` | libinotifytools/src/inotify.rs:1547-1553 | "abc" with room for three: the last place keeps what was there |
| `Formatter.CutCookie` | libinotifytools/src/inotify.rs:1583-1591 | "%c" with a two-digit cookie and room for one: a NUL in its place |
| `Formatter.WellFormedFormats` | libinotifytools/src/inotify.rs:1547-1639 | for formats without failing tokens: the buffer starts with the expansion as far as it fits |
| `Formatter.FormatPath` | libinotifytools/src/inotify.rs:1217-1222 | the text events are filtered by is the path of the event, as far as it fits |
| `MaskStrings.OnlyBadMeaningsAreZeroOrMinusOne` | libinotifytools/src/inotify.rs:1945-1949 | 0 and -1 come from empty and unknown elements only, never from a name's mask |
| `MaskStrings.EverySpellingIsKnown` | libinotifytools/src/inotify.rs:1875-1902 | every table name in any mix of cases means its mask |
| `EventNames.NamesAndNumbers` | libinotifytools/src/inotify.rs:1879-1900 | every name with its letters and the number of its mask |
| `EventNames.NameGivesItsNumber` | libinotifytools/src/inotify.rs:1907-1965 | a name in any mix of cases gives its number |
| `EventNames.NoNames` | libinotifytools/src/inotify.rs:1907-1926 | -1 for a separator that is a letter, "_" or NUL; 0 without a string or for an empty one |
| `MaskStrings.StrangersAreUnknown` | libinotifytools/src/inotify.rs:1875-1902 | nothing longer than the longest name, and nothing that starts with another byte, is known |
| `MaskStrings.StrToEventSep` | libinotifytools/src/inotify.rs:1907-1965 | the parser's loop answers what splitting and combining the elements answers, for every string and separator |
| `EventNames.ElementsAreTheParts` | libinotifytools/src/inotify.rs:1927-1960 | the elements of a string hold no separator, and joined by separators they are the string |
| `MaskStrings.TruncationIsHarmless` | libinotifytools/src/inotify.rs:1927-1944 | cutting an element at 4095 bytes never changes its meaning |
| `MaskStrings.FirstBadElementDecides` | libinotifytools/src/inotify.rs:1945-1949 | the first empty or unknown element decides, otherwise all names count |
| `MaskStrings.JoinedStringsAddUp` | libinotifytools/src/inotify.rs:1907-1965 | joining two accepted strings unites their masks; otherwise the first rejected one decides |
| `MaskStrings.EventToStrSep` | libinotifytools/src/inotify.rs:1445-1491 | the string built in place, from the second byte on, is the text of the mask |
| `EventNames.TextOfMask` | libinotifytools/src/inotify.rs:1445-1491 | the text of a mask: the names that share a bit with it, in their order and joined by the separator, or its number |
| `EventNames.PrintingOrder` | libinotifytools/src/inotify.rs:1446-1465 | the order in which names are printed |
| `EventNames.NumberOfMask` | libinotifytools/src/inotify.rs:1482-1488 | the number is "0x" and eight lower-case hexadecimal digits of the mask's value |
| `MaskStrings.PrintThenParse` | libinotifytools/src/inotify.rs:1466-1490 | parsing the printed text gives the known bits with both close bits if either was set; a mask without known bits is not accepted back |
| `MaskStrings.UnnamedBit` | libinotifytools/src/inotify.rs:1445-1491 | the mask 0x1000 is printed as a number that is rejected, and as 0 when '0' separates |
| `MaskStrings.TextFits` | libinotifytools/src/inotify.rs:1466-1490 | the text with its separator and NUL always fits the 1024-byte buffer |
| `Csv.CsvEscapeLen` | src/inotifywait.rs:36-61 | the escaping loop: too long a field is dropped, quoting is decided on the whole string, quotes are doubled |
| `Csv.QuotedExactlyWhen` | src/inotifywait.rs:36-61 | a field is printed as it is if and only if the whole string has no quote, comma or line feed and the printed part no blank at either end |
| `Csv.Output.OutputEventCsv` | src/inotifywait.rs:85-94 | one line is appended to the output, without a directory column if that is empty |
| `Csv.EscapedFieldComesBack` | src/inotifywait.rs:36-61 | a decoder reads the escaped field back and stops at the separator, though quoting looks at more than is printed |
| `Csv.LogRoundTrip` | src/inotifywait.rs:36-94 | decoding the concatenated output recovers every row of every event in order |
| `Csv.LogIsCompleteExactlyWhen` | src/inotifywait.rs:36-94 | decoding the output gives every event's full directory, event string and file name if and only if none is longer than 4096 bytes |
| `Csv.LongNameIsDropped` | src/inotifywait.rs:36-40 | a file name of 4097 bytes comes back as an empty field |
| `Conservation.RecordKeepsBalance` | libinotifytools/src/inotify.rs:1675-1686 | every counted event is charged to one watch and to the totals |
| `Conservation.ResetKeepsBalance` | libinotifytools/src/inotify.rs:1689-1703 | a reset empties the account |
| `Conservation.RunKeepsBalance` | libinotifytools/src/inotify.rs:465-476 | over any run each counter of an indexed watch is what was charged to it modulo 2^32 |
| `Conservation.TotalsAreConserved` | libinotifytools/src/inotify.rs:1675-1703 | in every reachable state each total is, modulo 2^32, the sum over indexed watches plus what departed watches were charged since the last reset |
| `Conservation.TotalsStayBelowGrandTotal` | libinotifytools/src/inotify.rs:133-154 | with fewer than 2^32 events since the reset the grand total counts them all and no total exceeds it |
| `Conservation.CountersStayBelowTotals` | libinotifytools/src/inotify.rs:133-154 | nor does any counter of a watch exceed the watch's total or the matching total |
| `StatsTable.WatchesSortedByEvent` | libinotifytools/src/inotify.rs:1744-1766 | the rows are the watches of the descriptor index, each once, strictly ordered by count in the chosen direction and descriptor |
| `StatsTable.RankingIsUnique` | libinotifytools/src/inotify.rs:1744-1766 | there is only one such order |
| `Counters.KeysPointTheirWay` | libinotifytools/src/inotify.rs:1744-1766 | the direction and the counter each sort key stands for |
| `Counters.ColumnsAreInOrder` | src/inotifywatch.rs:225-239 | the columns in their order |
| `StatsTable.PrintInfo` | src/inotifywatch.rs:241-273 | which columns and rows are shown, in which order, with which values and file names |
| `StatsTable.OnlyZerosAreHidden` | src/inotifywatch.rs:241-267 | with fewer than 2^32 events recorded every omitted table, listened-for column and row is all zero |

## Left out

- The kernel's side of system calls: `inotify_*`, `fanotify_*`, `ppoll`, `ioctl`, `read`, `opendir`, `lstat`, `open_by_handle_at` and the `/proc` lookup are answers given as parameters.
- The FIONREAD busy-wait and blocking: a reply stands for a whole wait, and a reader without replies left behaves as on a timeout.
- The regular expression engine, `strftime`, option parsing, signals, daemonising, syslog, help texts and diagnostics printed on the way; `ffi.rs`, `sys.rs` and `cio.rs`.
- `filename_from_fid`: the path it produces is a parameter, and within one reader the path found for a fid does not change.
- MoveRuns.NamesStayTrue: each change is handled before the next one happens, and the two events of a move come one after the other, because the library pairs them by adjacency and not by cookie; every event reaches the tracker, which under a filter holds for those the filter lets through only (`MoveRuns.NamesStayTrueUnderAFilter`); the runs are those of inotify, since under fanotify events name paths the system resolves anew.
- RecursiveWatch.WatchRecursively: a walk under fanotify needs two free descriptors for every watch it asks for, or the library would search for one for ever; no fid without a length is registered (the library never makes one).
- The directory walk asks each question once; a tree that changes during the walk is modelled only as far as its answers (vanished entries, failing opens) show it.
- Names with NUL bytes: `cstring` is the identity here, except in event strings and event names, which do end at the first NUL.
- Host byte order is little-endian.
- Identifiers (`next_id`) and write positions (`ind`) are unbounded; they would need 2^64 watches, or a name over 4 GB, to wrap.
- The one struct of the library is three objects: `Handle.Inotifytools`, `EventReader.EventReader` and a bare buffer for event strings.  Watches are values, since every one is owned by a single map entry.
- Raw pointers into the name and event-string buffers.
- Column widths and padding of the statistics table; `StatTotal` is a mathematical integer where the library casts to a signed 32-bit one (only its being 0 matters).
- `IN_DONT_FOLLOW` and the event mask passed when a watch is added.
- Events that end a directory's watch (IN_IGNORED): the library does not handle them, so runs of the move tracker contain no deletions of watched directories.
- `get_stat_by_wd`, `get_stat_by_filename`, `get_num_watches` and the `/proc` limits: plain lookups.
- EventReader.ReadEvents: the kernel's contract requires a fid record in every fanotify event, because the library loses step after an event without one, and a NUL at the end of every name; it also requires that a compacted partial event is completed before any timeout.
- Framing.SplitEventsAreServed: a fanotify event split behind its first sixteen bytes is outside the kernel's contract, because the library takes any sixteen bytes left over for a whole fanotify event.
- Conservation.TotalsAreConserved: the account of charged events starts at the last reset, as the counters do.
