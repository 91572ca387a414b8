# folder_sync: one synchronization pass, modelled and proved

`sync.py` keeps a replica folder as a copy of a source folder. It runs
forever, and each pass does the following:

1. If the source folder is missing, it logs an error and exits.
2. If the replica folder is missing, it creates it, with a warning before
   and a note after.
3. It logs the start of the pass.
4. The copy/overwrite loop: for each name in the source listing,
   - if the replica has no file of that name, it copies the source file;
   - if the replica's file compares unequal under `filecmp`'s shallow
     test, it removes that file and copies the source file anew;
   - otherwise it leaves the file alone.
5. The orphan-delete loop: for each name in the (new) replica listing
   that has no source file, it removes the replica file.
6. It logs the end of the pass and sleeps.

This project models that pass in Dafny, and proves what it leaves behind
and what it logs.

- **Files** (`files.dfy`). A file is its bytes and its modification time.
  A folder is a map from names to files. `Cmp` is the shallow comparison:
  - equal signatures (size, mtime) mean equal;
  - different sizes mean unequal;
  - otherwise the bytes decide.

  `copy2` copies bytes and mtime, so a copy always compares equal to its
  original.
- **Events** (`events.dfy`). The log is a sequence of (level, message)
  records. `About(log, n)` picks out the records that report an action on
  file `n`.
- **Listing** (`listing.dfy`). `ListDir` is `os.listdir`: every name of
  the folder exactly once, in an order the model leaves open (a choice at
  each step).
- **SyncSpec** (`spec.dfy`). Functions give the replica and the log that
  a pass produces, for given folders and listings:
  - `Refresh` is the replica after the copy/overwrite loop, each file
    compared against the replica as the pass found it.
  - `CopyAll` and `CopyLog` follow that loop literally, each file
    compared against the replica as the earlier steps left it.
    `CopyAllIsRefresh` proves the two views agree over a listing without
    repeats.
  - `Mirror` is the replica after the whole pass.
  - `CopyEvents`, `OrphanEvents`, `BootEvents`, `MirrorEvents` and
    `PassEvents` are the records the pass writes.
- **SyncProperties** (`properties.dfy`). Lemmas about those functions:
  - convergence;
  - idempotence, including that a second pass logs only its start and its
    end;
  - the order of the records;
  - what the log says about each single file;
  - a fresh replica receiving every file;
  - the two-file example: source {a.txt}, replica {b.txt}.
- **Sync** (`sync.dfy`). The file system is a class with the source
  folder, the replica folder (each `None` when absent) and the log as
  mutable fields. The two loops are `for` loops with invariants.
  - `SyncPass` is one pass. Its contract ties the new replica and the new
    log to `Mirror` and `PassEvents`.
  - `Run` repeats passes.
  - `PassResult` returns the two listings that the pass iterated over, so
    the log can be stated exactly whatever order the operating system
    lists in.

Convergence holds up to the comparison the program uses. After a pass:

- the replica holds exactly the source's names;
- every replica file compares equal to its source file under `Cmp`;
- each replica file is either an exact copy of the source file or the
  replica's own earlier file, left untouched because it already compared
  equal.

An untouched file need not have the same bytes as the source file. The
module docstring (sync.py:1-2) promises an identical copy. The comment at
sync.py:69-70, however, chooses shallow comparison on purpose. The model
keeps the shallow test, and lemmas show its consequence:

- `Files.Cmp` states that equal size and equal modification time always
  compare equal, whatever the bytes; `Files.ShallowCmpMissesEdit` gives
  two such files.
- `SyncProperties.ShallowPassKeepsSameSignature` shows that, in every
  pass, a replica file with its source file's size and modification time
  is kept as it is and gets no record. `SyncProperties.ShallowPassKeepsStaleFile`
  is a concrete instance with different bytes.

Two more points on failures and on the order of records:

- Each removal is logged after the file is removed (sync.py:72-73,
  86-87).
- A failing copy or removal is not caught, so it ends the process.

The missing-source record is at level Error, as `logging.error` writes
it.

## Model

| member | source | states |
|---|---|---|
| Files.Cmp | sync.py:71 | Identical bytes always compare equal, and so do equal sizes with equal modification times, whatever the bytes. A match implies equal sizes, plus either equal modification times or identical bytes. |
| Files.CmpReflexive | sync.py:71-75 | A file compares equal to an exact, metadata-preserving copy of itself. |
| Files.ShallowCmpMissesEdit | sync.py:69-71 | Two files of equal size and equal modification time but different bytes compare equal: shallow mode misses such an edit. |
| Listing.ListDir | sync.py:63 | The listing holds every name of the folder, once each, and no other name. |
| SyncSpec.NeedsCopy | sync.py:68-71 | The test that decides whether a source file is (re)copied: the replica lacks it or it compares unequal. An exact copy never needs copying; a replica file of another size always does. |
| SyncSpec.StepEvents | sync.py:68-80 | The records of one step of the copy/overwrite loop. It is empty exactly when the file needs no copy. Otherwise it ends with the copy record, and when it holds two records the first is the stale-removal record, so the removal is logged before the copy. At most two records. |
| SyncSpec.CopyOne | sync.py:68-80 | The replica after one step of the copy/overwrite loop. The file is then present and needs no copy; it is the source's file or the replica's own file, kept. A file that already compares equal leaves the whole replica unchanged. The replica gains at most that name, and every other file is unchanged. |
| SyncSpec.CopyAll | sync.py:63-80 | The replica after the copy/overwrite loop over a listing, each step against the replica the earlier steps left. It holds the replica's names plus the listed ones, no listed file needs a copy, and every unlisted file is unchanged. |
| SyncSpec.CopyLog | sync.py:63-80 | The records of the copy/overwrite loop, each step against the replica the earlier steps left: at most two per listed name. |
| SyncSpec.CopyAllStep | sync.py:63-80 | The fold of the copy/overwrite loop, one name further: one more CopyOne step and that step's records. |
| SyncSpec.Refresh | sync.py:63-80 | The replica after the copy/overwrite loop, each file compared against the replica as the pass found it. It holds the replica's names plus the listed ones, no listed file needs a copy, and every unlisted file is unchanged. |
| SyncSpec.Orphans | sync.py:82-86 | The listed replica names that the orphan-delete loop removes: only listed names, and none that the source has. |
| SyncSpec.BootEvents | sync.py:58-61 | The bootstrap records: none when the replica exists; otherwise a warning first and the creation note last. |
| SyncSpec.MirrorEvents | sync.py:62-89 | The log of a pass once both folders exist: the start record first, the end record last, and at most two records per source file and one per replica name in between. |
| SyncSpec.PassEvents | sync.py:58-89 | The whole log of a pass over an existing source: it opens with the missing-replica warning when the replica was absent and with the start record otherwise, and it ends with the end record. |
| SyncSpec.CopyEvents | sync.py:63-80 | The copy/overwrite loop writes at most two records per listed file. |
| SyncSpec.OrphanEvents | sync.py:82-88 | The orphan-delete loop writes at most one record per listed name. |
| SyncSpec.Mirror | sync.py:63-88 | After a pass the replica holds exactly the source's names. |
| SyncSpec.RefreshUntouched | sync.py:63-80 | A file the copy/overwrite loop has not reached yet is still as it was before the loop. |
| SyncSpec.RefreshLast | sync.py:63-80 | With one more distinct name, the loop moves on by exactly that name's step, and that step sees the replica file as the pass found it. |
| SyncSpec.CopyAllIsRefresh | sync.py:63-80 | Over a listing without repeats, the loop as written (each file compared against the live replica) leaves the same replica and log as comparing each file against the replica as the pass found it. |
| SyncSpec.RefreshKeys | sync.py:63-80 | After the copy/overwrite loop over a full source listing, the replica holds every name of either folder. |
| SyncSpec.OrphanStep | sync.py:82-88 | One more name extends the orphan set and the orphan records by that name exactly when it has no source file. |
| SyncSpec.CopyThenPruneIsMirror | sync.py:63-88 | The copy/overwrite loop followed by removing the orphans of the new replica listing yields the whole pass's replica. |
| SyncProperties.MirrorConverges | sync.py:63-88 | After a pass, a name is in the replica iff it is in the source. Each replica file compares equal to its source file, and is either an exact copy of it or the replica's own untouched file. |
| SyncProperties.RefreshConverges | sync.py:63-80 | After the copy/overwrite loop, each listed source file is in the replica and compares equal to its source file. It is either an exact copy or the replica's own file, left untouched because it already compared equal. |
| SyncProperties.EqualFileKept | sync.py:68-71 | In every pass, a replica file that compares equal to its source file (by signature or by bytes) stays exactly as it is, modification time included, and the pass writes no record about it. |
| SyncProperties.StaleFileReplaced | sync.py:71-76 | In every pass, a replica file that compares unequal ends as the source's file, and the records about it are exactly its removal followed by its copy. |
| SyncProperties.ShallowPassKeepsSameSignature | sync.py:68-80 | In every pass, a replica file with its source file's size and modification time stays as it is, whatever its bytes, and the pass writes no record about it. |
| SyncProperties.ShallowPassKeepsStaleFile | sync.py:69-80 | A replica file with the source file's size and time but other bytes stays as it is after a pass, and the pass logs only its start and its end. |
| SyncProperties.CopyEventsKinds | sync.py:73-80 | Every record of the copy/overwrite loop is a stale-removal or copy record about a listed file. |
| SyncProperties.OrphanEventsKinds | sync.py:85-88 | Every record of the orphan-delete loop is an orphan-removal record about a listed name that has no source file. |
| SyncProperties.CopyEventsFromEmpty | sync.py:77-80 | Against an empty replica, every listed file is copied: exactly one copy record per file, in listing order. |
| SyncProperties.CopyEventsQuiet | sync.py:68-71 | When every listed file compares equal, the copy/overwrite loop writes nothing. |
| SyncProperties.OrphanEventsQuiet | sync.py:82-85 | When every listed name has a source file, the orphan-delete loop writes nothing. |
| SyncProperties.MirrorLeavesNothingToDo | sync.py:68-75 | After a pass, no source file needs copying again. |
| SyncProperties.MirrorIdempotent | sync.py:52-89 | A second pass over unchanged folders leaves the replica as the first pass left it. |
| SyncProperties.SecondPassQuiet | sync.py:52-89 | A second pass over unchanged folders logs only its start record and its end record, whatever order the folders are listed in. |
| SyncProperties.MirrorOrdering | sync.py:62-89 | The log of a pass is the start record, then only copy/overwrite records, then only orphan records, then the end record. No copy record follows an orphan record. |
| SyncProperties.FramedOrdering | sync.py:62-89 | Copy records followed by orphan records, framed by the start and end records, have the ordering stated by MirrorOrdering. |
| SyncProperties.StepEventsAbout | sync.py:68-80 | A step of the copy/overwrite loop writes records about its own file only. |
| SyncProperties.CopyEventsAbout | sync.py:63-80 | The copy/overwrite records about file `n` are: nothing if it compares equal, one copy if it is new, and a removal followed by a copy if it is stale. |
| SyncProperties.CopyEventsAboutLast | sync.py:63-80 | The inductive step of CopyEventsAbout: adding a name not listed before. |
| SyncProperties.CopyEventsSplit | sync.py:63-80 | The copy/overwrite records about `n` split at the loop's last step. |
| SyncProperties.OrphanEventsAbout | sync.py:82-88 | The orphan records about `n` are its single removal when it is listed and has no source file, and nothing otherwise. |
| SyncProperties.OrphanEventsAboutLast | sync.py:82-88 | The inductive step of OrphanEventsAbout: adding a name not listed before. |
| SyncProperties.OrphanEventsSplit | sync.py:82-88 | The orphan records about `n` split at the loop's last step. |
| SyncProperties.OrphanStepAbout | sync.py:85-88 | A step of the orphan-delete loop writes records about its own name only. |
| SyncProperties.BootAboutNothing | sync.py:58-61 | The bootstrap records concern no file. |
| SyncProperties.AboutBetweenStartAndEnd | sync.py:62-89 | The start and end records concern no file. |
| SyncProperties.MirrorEventsAbout | sync.py:62-89 | Once both folders exist, the records about `n` are its copy/overwrite records followed by its orphan removal, each where it applies. |
| SyncProperties.PassEventsAbout | sync.py:53-89 | For a source file, the pass writes exactly its copy/overwrite records against the replica as found, created empty if it was missing. For a replica-only file, exactly its removal. For any other name, nothing. |
| SyncProperties.MirrorOfEmpty | sync.py:58-80 | Mirroring onto an empty replica yields exactly the source folder. |
| SyncProperties.MirrorOfDisjoint | sync.py:63-88 | Mirroring onto a replica that shares no name with the source yields exactly the source folder: every file is copied and every replica file is removed. |
| SyncProperties.FreshReplicaGetsEverything | sync.py:58-89 | A pass that finds no replica makes the replica equal to the source. It logs the warning, the creation note, the start record, one copy record per source file in listing order, and the end record. |
| SyncProperties.CopyBeforeRemoveExample | sync.py:63-89 | With source {a.txt} and replica {b.txt}, the replica ends as the source. The log is start, copy of a.txt, removal of b.txt, end, in either listing order of the replica. |
| Sync.FileSystem.Emit | sync.py:55-89 | A `logging` call: the log gains exactly that record at the end. |
| Sync.FileSystem.MakeReplica | sync.py:60 | `os.mkdir`: a missing replica folder becomes an empty one. |
| Sync.FileSystem.RemoveFile | sync.py:72 | `os.remove` (also line 86): the replica loses exactly that file. |
| Sync.FileSystem.CopyFile | sync.py:75-79 | `shutil.copy2`: the replica's file of that name becomes the source's file, content and modification time, replacing any earlier one; nothing else changes. |
| Sync.FileSystem.CopyStep | sync.py:68-80 | The replica gains the source file when the name is missing or stale and is unchanged otherwise. The log gains that step's records. |
| Sync.FileSystem.CopyLoop | sync.py:63-80 | After the loop, the replica and the log are the fold of the step over the listing, each step against the replica the earlier steps left. The source is unchanged. |
| Sync.FileSystem.OrphanLoop | sync.py:82-88 | After the loop, the replica has lost exactly the listed names with no source file, and the log has gained one removal record for each of them, in listing order. |
| Sync.FileSystem.CopyPhase | sync.py:63-80 | The listing is a listing of the source. The replica and the log are those of the copy/overwrite loop against the replica as found. |
| Sync.FileSystem.OrphanPhase | sync.py:82-88 | The listing is a listing of the replica after the copy/overwrite loop. Its orphans are removed and logged. |
| Sync.FileSystem.ReplicaBootstrap | sync.py:58-61 | A missing replica is created empty, with a warning before and a note after. An existing replica is left alone and nothing is logged. |
| Sync.FileSystem.Mirroring | sync.py:62-89 | The replica becomes Mirror of the folders as found. The log gains the start record, the two loops' records and the end record. The source is unchanged. |
| Sync.FileSystem.SyncPass | sync.py:53-89 | With the source missing, exactly one error record is logged, nothing else changes, and the process exits. Otherwise the replica becomes Mirror and the log gains PassEvents. The source never changes. |
| Sync.FileSystem.Run | sync.py:52-92 | Over unchanged folders, the first pass does all the work. Every later pass logs only its start and its end. A missing source ends the run after one error record. |
| Sync.FileSystem.RepeatPass | sync.py:52-89 | A pass over folders an earlier pass has mirrored, with no change in between, leaves both folders as they are and logs only its start and its end. |
| Sync.QuietPasses | sync.py:62-89 | The log of `k` passes with nothing to do: alternating start and end records, two per pass. |

## Left out

- Command-line parsing and logging setup (sync.py:18-50) are not modelled. The log is a sequence of (level, message) records, without timestamps, format strings or a console handler. The messages carry bare file names in place of the joined paths.
- The pause between passes (sync.py:90-92) and its floating-point interval are not modelled. `Run` takes a number of passes in place of looping forever.
- Run: the folders are assumed not to change between passes. Another process editing them concurrently is not modelled.
- Path joining (sync.py:66-67, 83-84) is not modelled: a file is addressed by its name within its folder.
- Subdirectories and other non-regular entries are not modelled. A folder is a flat map of regular files, so the `isfile` checks at sync.py:68 and 85 become map membership tests.
- Operating-system failures are not modelled: permissions, a missing parent of the replica for `mkdir`, and a copy or removal that fails. The code catches none of them, so each would end the process.
- The internals of `filecmp` are not modelled: its comparison cache, and its check that both entries are regular files, which always holds here. `Cmp` keeps only the shallow decision rule.
- The order of a directory listing is the operating system's choice, and the model does not fix it. Each contract holds for every order, and `PassResult` reports the order that was used.
- SyncProperties.MirrorConverges: states that each replica file compares equal to its source file under the shallow test, not that the two are identical. The code's shallow comparison (sync.py:71) leaves a file alone when its size and modification time match, whatever its bytes; `SyncProperties.ShallowPassKeepsSameSignature` proves this for every pass.
- SyncProperties.RefreshConverges: likewise states equality under the shallow test, for the same reason.
- File names are exact strings, as on a case-sensitive POSIX file system. Case folding and Unicode normalisation are not modelled. On a case-insensitive file system the program finds `a.txt` when it looks for `A.txt` (sync.py:68, 85) and may leave such a pair alone, where the model copies one and removes the other.
- Modification times are integers compared only for equality. The program reads them as floating-point `st_mtime` values; `copy2` may not carry every digit across file systems of different timestamp precision, which the model does not capture.
