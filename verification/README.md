# A verified model of common-cpp

common-cpp is a small C++ utility library. This project models its parts with the most state and
branching and proves what they keep, over every input and every run. `dafny verify dfyconfig.toml`
checks everything.

| files | what they model |
|---|---|
| `Monitor.dfy`, `MonitorProofs.dfy`, `MonitorTheorems.dfy`, `MonitorReports.dfy`, `MonitorRace.dfy`, `MonitorLoss.dfy` | the recursive inotify monitor as a transition system: a tree of directories with inode identity that is changed by mkdir, rmdir and rename, the kernel's watch table and event queue, `wd_map`, and the log of callbacks |
| `InotifyBuffer.dfy`, `LinuxMonitor.dfy` | the byte buffer of events, and `watch` and the event loop as imperative code that refines the transition system while the environment takes steps in between |
| `FindFiles.dfy`, `PathHelpers.dfy` | the recursive walk `find_files`, and the path helpers on what it emits |
| `DirStream.dfy`, `DirentWin.dfy`, `CHeap.dfy`, `Scandir.dfy` | the directory stream of dirent-win.h with its one entry of lookahead, and `scandir` with its ownership of heap blocks under allocation failure |
| `Percent.dfy`, `Query.dfy`, `Multipart.dfy` | the three encoders, each with a parser that reads it back |
| `HttpClient.dfy` | the chain of asynchronous stages behind a request, on one client used repeatedly |
| `TrimRight.dfy`, `ChunkLoops.dfy` | `trim_right`, and the loops of `exec_cmd` and `file_sha256` |
| `Basics.dfy` | types, character classes and arithmetic shared by the others |

Module by module, an operation that changes state is a method proved against a function on values
(`Monitor.Next`, `FindFiles.Walk`, `DirStream.Next`, `HttpClient.ReplyFrom`, ...), and what the
library promises is proved about that function.

## Assumptions

- Monitor: a directory tree is a map from paths (sequences of components) to inodes. Adding a watch to a
  watched inode returns its descriptor; descriptors are not used twice; removing a directory drops its
  watch and reports that with an event that has no name. Equal events at the end of the queue are merged,
  except moves. An event without a name may be read as any plain name, since the loop takes it from whatever
  bytes follow. No queue overflow, no symbolic links, and the root and the directories above it stay
  where they are. In the runs of the transition system, watching a subtree (the walk and the watches after it)
  is one step that succeeds; `MonitorRace` and `MonitorLoss` prove what a change in between does. Other processes may
  act at any other time. `LinuxMonitor.Watcher.Environment` stands for them: its body does nothing, and
  its callers rely on its contract alone, which allows any number of environment steps. A directory that
  cannot be opened makes `watch` throw; the constructor is for a first `watch` that succeeds. What follows
  the buffer in memory is not modelled: a name ends at the end of the buffer at the latest.
- Directory stream: the directory does not change while it is open; opening and reading it may fail at
  any call. Characters are converted by a function that is a parameter.
- Encoders: texts are C strings of bytes written as characters 1 to 255, and `isalnum` is that of the C locale.
- HTTP: whether each stage succeeds, what the response parser finds, and the number that `%d` makes of an address are parameters.
- Files and digests: which operation fails, if any, is a parameter, and so is the digest function.

Allocation, system and environment failures are chosen arbitrarily inside the methods that stand for the
C library and the system; ghost counters record them, so that contracts can say when a failure is the
only reason for an outcome.

## Where the code does less than it seems to promise

- `watch` walks first and adds its watches afterwards, and a directory made in between can be lost
  (`MonitorRace.AtomicityIsNeeded`). The coverage invariant breaks exactly when it is made below the directory walked, in a
  parent that is not watched yet and to which no other pending event leads from a directory that is good or walked
  (`MonitorRace.MkdirInWindowExactly`, and `MonitorRace.StaleListingExactly` for a listing that misses
  anything else). Once the environment is silent:
  - if coverage survived, the directory is watched when the queue has drained (`MonitorLoss.KeptIsFound`);
  - if no pending event points to it by the path its descriptor stands for, true or outdated, it is never
    watched (`MonitorLoss.LostForGood`; `MonitorLoss.MissedForGood` for any state and directory);
  - if an event with a name points to it through a descriptor that no directory under the root has, it is found although
    coverage was broken (`MonitorLoss.FoundByStray`);
  - so, unless an event points to it through an outdated path, it is found exactly when coverage survived
    (`MonitorLoss.LostExactly`).

  What remains is an event that points to it through the outdated path of a directory still under the root,
  which another event may correct before, and an event without a name on a dropped watch. For
  the latter no condition on the state decides: one and the same state goes both ways, as the bytes
  behind the event are read (`MonitorLoss.NamelessEventDecides`).
- `inotify_add_watch` fails, and the exception leaves the thread, exactly when a directory of the subtree is removed
  between walk and watches, or one in it or above it renamed (`MonitorRace.WindowThrowsExactly`).
- When `find_files` throws, it leaves one directory handle open for each directory it is in, as many as the directory
  that could not be opened is levels below the top (`FindFiles.LeftOpenIsDepth`).
- A directory moved out of the root stays watched and keeps its old entry in `wd_map`, so its events are reported under
  the path it left, for as long as it stays outside (`MonitorReports.MovedOutKeepsOldPath`; `MovedOutHappens`
  is such a run). With no event pending, the entry of a watched directory is its path exactly when
  it lies under the root (`MonitorReports.DrainedGoodExactly`).
- The loop reads a name even for an event that has none, and then takes it from the bytes that follow:
  the next descriptor can be read as the path `/` (`InotifyBuffer.NamelessEventReadsNextDescriptor`).
  Coverage survives every plain name read that way; a name with a slash, `.` or `..` leads out of
  the model, and `LinuxMonitor.Watcher.HandleBuffer` says when that can happen.
- A failed write formats its message with `%d` (http.cpp:205), so the message never reaches the caller, unlike
  that of every other stage (`HttpClient.MessageArrivesExactly`).
- `url_encode` prints bytes below 0x10 with one digit, so two strings can share an encoding
  (`Percent.EncodingsCollide`). A string shares its encoding exactly when it has an escaped byte from 0x10 up,
  or a byte below that followed by a digit that completes it to the escape of one
  (`Percent.EncodingSharedExactly`): every text with a space does.
- Names in query strings and in multipart bodies are not escaped; the exact conditions are in
  `Query.QueryReadsBackExactly` and `Multipart.BodyReadsBackExactly`. Lines of the multipart body end in a
  newline alone.
- `trim_right` reads the character before an empty string exactly when the cut set is not empty and holds
  every character of the text (`TrimRight.TrimRight`).
- `get_relative_path` takes a sibling whose name begins with the parent's for a child
  (`PathHelpers.SiblingIsTakenForChild`). It accepts two paths exactly when they agree above the parent's last component
  and that component begins the child's there; it is right exactly when those two are equal
  (`PathHelpers.RelativePathExactly`).
- With a null `namelist`, `scandir` succeeds and the table and its entries stay allocated with no pointer
  to them (`Scandir.ScanDir`).

## Model

| member | source | states |
|---|---|---|
| MonitorTheorems.CoverageAlways | linux_monitor.cpp:25-104 | in every reachable state each directory under the root is watched with `wd_map` giving its current path, or lies at or below the entry that a pending event names through such a directory |
| MonitorTheorems.DrainedIsAccurate | linux_monitor.cpp:25-104 | with no event pending, every directory under the root is watched under its true path, by a descriptor that no other directory has |
| MonitorTheorems.Settles | linux_monitor.cpp:48-104 | from any reachable state, handling the pending events with the environment silent makes every directory under the root watched under its true path |
| MonitorTheorems.DrainingEnds | linux_monitor.cpp:48-104 | from any reachable state some turns of the monitor alone lead to such a state: it is never stuck and draining ends |
| MonitorTheorems.RenameRepair | linux_monitor.cpp:83-102 | handling an event that names a directory through its good parent refreshes the whole subtree, keeps the descriptors it had, and makes every event still pending on them resolve to the new path |
| MonitorReports.LogMatchesAlways | linux_monitor.cpp:56-104 | the callbacks are exactly the events the kernel queued, in order, each with its kind and name; what is not reported yet is still pending |
| MonitorReports.ClassifyByPriority | linux_monitor.cpp:63-97 | the kind depends on five bits of the mask alone, creation before deletion before modification before moved-from before moved-to, and is unknown without them, whatever other bits are set (`EveryMask`: every mask has this form) |
| MonitorReports.StepIsReported | linux_monitor.cpp:56-104 | in every run after a mkdir, rmdir, rename or file operation, the callbacks it calls for, each with the kind and the name of that operation, are made at their place in the order, at the latest when nothing is pending; it calls for no others |
| MonitorReports.ReadsAreHandled | linux_monitor.cpp:48-104 | on every run the events read are as many as the callbacks made and the events still in the buffer |
| MonitorReports.LastOperationIsReportedTruly | linux_monitor.cpp:60-103 | however stale the state, if a mkdir, rmdir, rename or file operation is the last thing the environment does, then once the events are drained every callback for an entry that it called for from a watched directory under the root, both ends of a rename included, was made with the right kind and the true path |
| MonitorReports.ReportIsTrueExactly | linux_monitor.cpp:60-62 | a report starts from the true path of the directory it comes from exactly when that is what `wd_map` holds; a false one under the root is followed by another pending event that leads to the directory; outside the root it is false and handling it leaves the entry as it is |
| MonitorReports.DrainedGoodExactly | linux_monitor.cpp:38-60 | with no event pending, the entry of a watched directory in `wd_map` is its path exactly when it lies under the root |
| MonitorReports.MovedOutKeepsOldPath | linux_monitor.cpp:32-60 | a watched directory moved out of the root keeps its descriptor and the path recorded for it over every later run in which it stays outside, and every event on it resolves against that path |
| MonitorReports.MovedOutHappens | linux_monitor.cpp:32-60 | a reachable state with nothing pending in which a watched directory outside the root still stands under a path of the root that does not exist |
| MonitorReports.RootedAlways | linux_monitor.cpp:38-60 | every path ever in `wd_map` is the root or below it |
| MonitorRace.MkdirInWindowExactly | linux_monitor.cpp:27-41 | in any state, a directory made between the walk and the watches keeps the coverage invariant exactly when it is not below the directory walked, or its parent is watched already, or another pending event leads to its parent from a directory that is good or walked |
| MonitorRace.StaleListingExactly | linux_monitor.cpp:27-41 | whatever a listing misses, the invariant survives exactly when each directory under the root is good, or listed, or named by a later event from one that is |
| MonitorRace.WindowThrowsExactly | linux_monitor.cpp:32-35 | a step between the walk and the watches makes `inotify_add_watch` fail exactly when it removes a directory of the subtree, or renames one in it or above it |
| MonitorRace.AtomicityIsNeeded | linux_monitor.cpp:27-41 | a reachable run in which a directory made between walk and watch is never watched although the queue drains |
| MonitorLoss.MissedForGood | linux_monitor.cpp:48-104 | in any state, a directory that is not watched and to which no pending event points by the path recorded for its descriptor is never watched, whatever the monitor does alone |
| MonitorLoss.KeptIsFound | linux_monitor.cpp:27-104 | a directory made between walk and watches for which coverage survives is watched under its path once the queue has drained |
| MonitorLoss.LostForGood | linux_monitor.cpp:27-104 | made below the directory walked in a parent that is not watched, with no pending event pointing to it, it is never watched |
| MonitorLoss.FoundByStray | linux_monitor.cpp:27-104 | if a named event points to it through a descriptor that no directory under the root has, it is watched once the queue has drained, even if coverage was broken |
| MonitorLoss.LostExactly | linux_monitor.cpp:27-104 | unless an event points to it through an outdated path, it is watched in the end exactly when coverage survived the turn |
| MonitorLoss.NamelessEventDecides | linux_monitor.cpp:27-104 | one reachable state with broken coverage from which draining finds the directory or loses it, depending on the bytes read for an event without a name |
| InotifyBuffer.NamesReadRightExactly | linux_monitor.cpp:56-60 | the loop reads the right name for every event of a buffer exactly when each has a name field or a NUL after its header |
| InotifyBuffer.NamelessEventReadsNextDescriptor | linux_monitor.cpp:58-60 | an event without a name before one for descriptor 47 is read as naming `/` |
| InotifyBuffer.Layout | linux_monitor.cpp:58-60 | where the fields of an event stand: four little-endian words, then the name, then NULs |
| LinuxMonitor.WalkListsSubtree | linux_monitor.cpp:27-28 | what `watch` collects is the subtree of its argument, whatever order the directories are read in |
| LinuxMonitor.SomeListingShows | common.cpp:139-165 | every tree of directories can be read by the walk as `watch` needs it |
| LinuxMonitor.Watcher.constructor | linux_monitor.cpp:14-42 | after the first `watch`, which succeeds, every directory under the root is watched under its path, and the state starts a run |
| LinuxMonitor.Watcher.Watch | linux_monitor.cpp:25-42 | it throws exactly when the path is no directory or one of its subtree cannot be opened, and then changes nothing; else the watch table and `wd_map` are those after watching every directory of the subtree |
| LinuxMonitor.Watcher.Receive | linux_monitor.cpp:50-54 | the buffer holds the bytes of the oldest events, which leave the queue; that is a step of the run; it fails exactly when the first event has no room |
| LinuxMonitor.Watcher.Decode | linux_monitor.cpp:58-60 | at the current offset the first event left is decoded and the offset moves to the next; the name is its own exactly when it has a name field or a NUL follows its header |
| LinuxMonitor.Watcher.Turn | linux_monitor.cpp:60-103 | one turn of the loop adds one handling step to the run and one callback, with the kind of the mask and the path of the descriptor and the name; or `watch` throws and neither happens |
| LinuxMonitor.Watcher.HandleBuffer | linux_monitor.cpp:55-104 | with the environment acting before each turn, the run and the log are continued by one callback for each event of the buffer, in order, with its kind and name, and the offset ends at `r`, unless something in the directory that the next event names cannot be opened, or that event has no name and no NUL after it |
| LinuxMonitor.Watcher.Round | linux_monitor.cpp:50-104 | one round reads at least one of the oldest events and calls each back, in order, except those left when it ends early; it fails without reading exactly when the first event has no room; the reason for ending early is given |
| LinuxMonitor.Watcher.Serve | linux_monitor.cpp:48-104 | any number of rounds continue the run and the log and keep the state reachable; each round reads unless nothing is pending; the callbacks are the events sent, in order, and all events read are called back or left; the service ends early only for an event without room, something in the directory that the next event names that cannot be opened, or a nameless event with no NUL behind it |
| FindFiles.Find | common.cpp:132-173 | what is appended to the caller's vector, whether the exception is thrown, and how many directory handles stay open |
| FindFiles.WalkIsPreorder | common.cpp:132-173 | a prefix of the preorder listing is appended, all of it unless some directory entered cannot be opened, which is exactly when the walk throws |
| FindFiles.LeftOpenIsDepth | common.cpp:139-172 | a walk that fails leaves as many handles open as the directory that could not be opened is levels below the top, the last path listed |
| FindFiles.ListsWhatResolves | common.cpp:139-165 | a path is listed exactly when it resolves in the tree to an entry of the kind asked for |
| FindFiles.ListsOnce | common.cpp:139-165 | no path is listed twice |
| FindFiles.ParentFirst | common.cpp:149-156 | a directory is listed before everything below it |
| FindFiles.PreorderConcat | common.cpp:141-165 | the entries of a directory are listed in the order in which they are read |
| FindFiles.FiltersMerge | common.cpp:149-164 | the unfiltered listing interleaves the file listing and the directory listing, keeping the order of both |
| FindFiles.FiltersConserve | common.cpp:149-164 | the two filtered listings add up to the unfiltered one |
| FindFiles.FiltersDisjoint | common.cpp:149-164 | no path is in both filtered listings |
| PathHelpers.HelpersAgreeWithWalk | common.cpp:258-279 | for every path the walk emits, `get_relative_path` succeeds and rejoins to the path, and `get_file_name` is the last component |
| PathHelpers.RelativeRejoins | common.cpp:258-270 | it fails exactly when the parent is no prefix; else the child is the parent and the result with at most one separator between |
| PathHelpers.RelativeDropsOne | common.cpp:264-269 | one separator after the parent is dropped, a slash or a backslash, and only one |
| PathHelpers.FileNameExactly | common.cpp:271-279 | the result of `get_file_name` is what stands behind the last slash or backslash |
| PathHelpers.TextReadsBack | common.cpp:148 | the text of a path is the root, a slash unless it ends in one, and components that are read back between the slashes |
| PathHelpers.RelativePathExactly | common.cpp:258-270 | for two paths below one root it succeeds exactly when they agree above the parent's last component and that component begins the child's; it returns the way from one to the other exactly when the parent is an ancestor |
| DirStream.StreamRefines | include/dirent-win.h:579-660 | after any reads and rewinds, the reads since the last rewind are the entries from the first on, none lost or repeated, then the end for ever, and only after the last entry if the system did not fail; lookahead implies an open handle |
| DirentWin.Dir.DirentFirst | include/dirent-win.h:595-619 | refines opening the stream, and touches no other search |
| DirentWin.Dir.DirentNext | include/dirent-win.h:626-660 | refines reading the stream, closes the handle once at the end, and touches no other search |
| DirentWin.Dir.Rewind | include/dirent-win.h:579-592 | closes the old handle and refines opening again |
| DirentWin.TypeByAttributes | include/dirent-win.h:788-796 | an entry is a device, a directory or a file by bits 0x40 and 0x10 of its attributes, whatever the others are (`EveryAttributes`: all attributes have this form) |
| DirentWin.EntryExactly | include/dirent-win.h:762-819 | the name is the long one if it converts, else the short one if there is one and it converts, with its length and type; else the placeholder |
| DirentWin.Dir.ReadInto | include/dirent-win.h:748-832 | the next entry is converted into the given block, with the short name and the placeholder as fallbacks |
| DirentWin.Dir.WRead | include/dirent-win.h:480-535 | the next entry comes with its name unit by unit, cut at PATH_MAX |
| DirentWin.Dir.WCloseDir | include/dirent-win.h:542-573 | the search is closed and exactly the two blocks are freed |
| DirentWin.Dir.CloseDir | include/dirent-win.h:837-859 | the search is closed and exactly the three blocks are freed |
| DirentWin.WOpenDir | include/dirent-win.h:344-450 | fails exactly for its reasons, with nothing left allocated or open |
| DirentWin.OpenDir | include/dirent-win.h:665-721 | fails exactly for its reasons, with nothing left allocated or open; else the stream stands at the first entry |
| Scandir.ScanDir | include/dirent-win.h:875-1011 | -1 exactly when the directory cannot be opened or an allocation is refused, with the heap as before; else exactly the table and one entry for each result stay allocated, they are the entries that pass the filter, in order; every search opened is closed |
| Scandir.SelectedExactly | include/dirent-win.h:940-970 | an entry is among the results as often as it was read if the filter lets it through, and not otherwise; the results are in order |
| Scandir.ReadAll | include/dirent-win.h:897-980 | the reading loop keeps the ownership and the selection, despite reuse of the temporary entry |
| Scandir.Enlarge | include/dirent-win.h:899-925 | after the check the table has room, a power of two of slots, at most twice the need, and fewer pointers were copied than it has slots |
| Scandir.Consider | include/dirent-win.h:940-960 | the entry read is kept exactly when it passes the filter |
| Scandir.Cleanup | include/dirent-win.h:987-999 | the temporary entry is freed, and on error every other block too, each once |
| Scandir.QSort | include/dirent-win.h:968-970 | the table is permuted into the order of the comparison and still owns the same entries |
| Scandir.SortFromSorts | include/dirent-win.h:968-970 | the stand-in for the library's sort permutes and sorts |
| Percent.UrlEncode | common.cpp:312-329 | the loop computes the encoding |
| Percent.EncodedByte | common.cpp:319-326 | what each of the 255 bytes is encoded as, by its number |
| Percent.DecodeUndoesExactly | common.cpp:312-329 | decoding as in section 2.1 of RFC 3986 undoes the encoding exactly for strings without bytes below 0x10 |
| Percent.EncodeInjective | common.cpp:312-329 | on those strings the encoding is injective |
| Percent.EncodingSharedExactly | common.cpp:312-329 | another string has the same encoding exactly when the string has an escaped byte from 0x10 up, or a byte below that followed by a digit that completes it to the escape of such a byte |
| Percent.WellFormedExactly | common.cpp:319-326 | the output is unreserved characters (section 2.3 of RFC 3986) and two-digit triplets exactly when each byte below 0x10 is followed by a hexadecimal digit |
| Query.UrlValues.Add | http.cpp:13-20 | the name, an equals sign and the encoded text of the value are appended, after an ampersand unless they are the first |
| Query.QueryReadsBackExactly | http.cpp:13-20 | parsing the string gives back the names, the strings and the integers exactly when no name holds an ampersand or equals sign and no string a byte below 0x10 |
| Query.ReadsExactly | http.cpp:40-54 | a string value is its own text, and the text of an integer is the one decimal numeral without leading zeros that reads as it |
| Multipart.BuildBody | http.cpp:102-114 | the loop computes the body |
| Multipart.FirstDelimiter | http.cpp:108-110 | the delimiter does not overlap itself: its first occurrence is the end of the value exactly when the value holds none |
| Multipart.BodyReadsBackExactly | http.cpp:102-114 | parsing the body gives back the names, the strings and the integers exactly when no name holds a quote and no string the delimiter |
| HttpClient.ReplyExactly | http.cpp:146-229 | the error is empty exactly when all five stages succeeded; else it is the literal text for the stage that failed first, with its message unless that is the write, and there is no response text |
| HttpClient.FailuresInOrder | http.cpp:146-229 | which stage fails first, in the order in which they run |
| HttpClient.ErrorTellsStage | http.cpp:153-226 | the text of the error settles which stage failed first |
| HttpClient.MessageArrivesExactly | http.cpp:149-229 | the message of the first failure makes a difference to the reply exactly when that is not the write |
| HttpClient.Client.Complete | http.cpp:149-229 | a completion starts at most one operation, the next stage, or ends the chain |
| HttpClient.Client.Run | http.cpp:142-143 | the run ends after at most five completions with nothing outstanding |
| HttpClient.Client.ConnectAndRun | http.cpp:137-145 | whatever came before, the outcome is that of this request alone, and the connection is dropped |
| HttpClient.Client.PostForm | http.cpp:102-124 | the multipart body goes out with its own length, exactly when the write succeeds |
| HttpClient.Requests | http.cpp:137-145 | in any series of requests on one client each reply depends on its own network only |
| TrimRight.TrimRight | common.cpp:571-589 | it ends, reads outside the string exactly when everything would be cut and the cut set is not empty, and else computes the trimmed string |
| TrimRight.TrimmedIsLongest | common.cpp:571-589 | the trimmed string is the longest prefix that does not end in the cut set |
| TrimRight.TrimmedBySet | common.cpp:576-582 | order and repetition in the cut set do not matter, and trimming twice is trimming once |
| ChunkLoops.ExecCmd | common.cpp:345-366 | the loop collects what its chunks hold up to their first NUL |
| ChunkLoops.CollectedByLines | common.cpp:350-359 | of each line, and of each piece of 127 characters of a longer one, the caller gets what stands before the first NUL |
| ChunkLoops.CollectsAllExactly | common.cpp:350-359 | the caller gets the whole output exactly when it holds no NUL |
| ChunkLoops.FileSha256 | common.cpp:409-467 | the digest is fed exactly the bytes of the file, for every length, and its hash is printed, exactly when nothing fails; every failure of the file or of the digest library has its exception, and the context is freed on every exit |
| ChunkLoops.HexTextExactly | common.cpp:460-466 | the text printed is the one that parses back to the bytes and has only lower-case digits |

## Left out

- Symbolic links, queue overflow, watching from another thread and several roots are not part of the monitor model.
- LinuxMonitor.Watcher.HandleBuffer: stops at an event without a name for which the bytes that follow read as a name with a slash, `.` or `..`, because such a path leads out of the directory; `InotifyBuffer.NamesReadRightExactly` says when names are read right.
- The watches added before `inotify_add_watch` fails on a directory that has vanished: the exception ends the thread.
- Scandir.QSort: the library's own sorting algorithm is not modelled; an insertion sort with the same contract stands for it.
- The Windows monitor (`monitor.cpp`): one loop over linked records whose callback always reports the watched root; only easy members.
- The sizes of blocks and `alphasort`/`versionsort`: the comparison of `scandir` is a parameter.
- `http::value` with a null string or an invalid tag: the first is undefined behaviour in `url_encode`, the second cannot be constructed.
- HTTP headers, and the requests that differ from `POST` of blocks only in their headers and target.
- The digest function of `file_sha256` itself, which is a parameter.
- `formalize_path`, `makedir`, `delete_file`, uuid, date, random and locale functions: input, output, randomness or thin wrappers.
- `trim_trailing_space` and `compare_md5`: the match stands inside an assertion, so what they do depends on the build mode.
- The Windows behaviour of `std::filesystem::path::append`.
