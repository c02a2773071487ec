# backup_tools, modelled in Dafny

This project models the core of the `backup_tools` suite, which backs up
directory trees and archives to an archive vault. The model covers four
parts of it.

- **Sync.** The incremental-archive engine.
  - `Snapshot` holds a listing of a tree. Each entry has a path, a content
    hash, a modification time, a length, and an action (None, Add, Remove
    or Move).
  - `Syncronize` marks the differences between a base state and a live
    listing.
  - `Trim` keeps only the tagged entries.
  - `Patch` applies a diff to a state.
  - `SnapshotCollection.BuildSnapshot` folds a chain of diffs, in date
    order, into the state at a date.
  - `SyncApp` drives these:
    - `Backup` builds the state, diffs the live tree against it, appends
      the diff to the chain, and writes the snapshot file and the added
      files to a tar archive.
    - `Restore` deletes the removed files, renames the moved files, and
      moves the extracted files into place. The archive directory is a
      map of files plus the set of directories that exist. A rename into a
      missing directory fails and is logged, as `File.Move` creates none;
      the final moves create the target's directories first.
- **Common helpers.**
  - `ByteBuffer` is a growable FIFO byte buffer.
  - `StreamSplitter` cuts a stream into numbered chunks of a fixed size.
  - `StringExtensions` provides parsing and naming helpers.
  - `CommandLineUtility` turns an argument vector into an options object.
  - `ArchiveMetaData` defines the `name|path|ticks|tags` description
    format.
- **MultipartBackup.** Uploads a stream as the parts of one multipart
  upload and records a database entry for it. The entry is tagged as a
  base archive or as a snapshot.
- **TidyVault.** Aborts every pending upload. Then, for each archive name,
  it deletes every archive that comes after the newest base archive in
  newest-first order. The sort is stable, so an archive dated the same as
  that base is kept only if the inventory lists it before the base. If any
  archive description cannot be read, the run fails before deleting
  anything.

Entries, snapshots, metadata and options are datatypes. Objects whose
fields the source updates in place are classes:

- `SnapshotCollection`, `ByteBuffer` (over an `array<bv8>`),
  `StreamSplitter`, `MultipartBackupApp`, `TidyVaultApp` and `SyncApp`.

The outside world is passed in or recorded:

- **Passed in as parameters:**
  - the file tree, as a map from path to content;
  - the vault inventory;
  - the reads of a stream;
  - the clock.
- **Recorded on an effect list the class keeps:**
  - the archive service's calls;
  - the tar entries written;
  - the errors logged.

Every loop of the source is a method with invariants. Each method is
proved equal to a function, and the properties are proved about that
function:

- `Patch`, `Syncronize`, `BuildSnapshot` and `CreateOptionDictionary`;
- `ByteBuffer.Write` and `ByteBuffer.Read`;
- `StreamSplitter.Run`;
- the upload, delete and restore loops.

The main results are these.

- **Backup round trip.** Append the trimmed diff of a live listing to a
  chain. Building the chain then gives exactly the live listing's paths.
  - `SnapshotCollections.BackupRoundTrip` covers a non-empty chain, all of
    whose diffs are dated no later than the build date. It holds when the
    built state has unique paths and no new live path shares its hash with
    a base entry.
  - `SnapshotCollections.FirstBackupRoundTrip` covers the first backup: the
    empty chain builds the fresh empty state, and the chain of its one
    diff builds back the live paths, provided they are unique.
  - The hash condition is needed: `SyncProperties.CopyTakenForRename` shows
    a preserved copy of a file being taken for a rename, which loses the
    original on restore.
- **Snapshot rules.** Rules for each entry of `Syncronize`:
  - update, keep, remove, add and rename;
  - a rename whose modification time differs is dropped.

  Rules for each entry of `Patch`:
  - keep, with the newest Add time;
  - remove, rename and append.

  Patching with the same rename twice duplicates a path:
  `PatchProperties.PatchTwiceDuplicates`.
- **Other round trips.**
  - The archive description round-trips.
  - Joining a stream's chunks gives the stream back; the uploaded parts
    reassemble the input.
  - A restored archive places every extracted `snapshot/<path>` file at
    path.
- **Backup, then restore.** `SyncApps.BackupArchive` is what the tar of a
  backup extracts to.
  - `SyncApps.FirstRestore`: restoring the first backup's archive onto an
    empty directory gives exactly the live files with their contents.
  - `SyncApps.RestoreStep`: restoring a later backup's archive onto a
    directory that holds the chain's state gives exactly the live files.
    It needs every new path to carry a new hash (so no rename is
    detected), and a file whose time is no newer than the state's to hold
    the same content.
  - `SyncApps.RenameIntoMissingFolder` shows why renames are excluded: a
    file renamed into a new folder is recorded as a Move with no payload,
    and the Move fails on a directory that lacks the folder.
- **TidyVault.** It deletes an archive no more often than the inventory
  lists it, and only an archive that is no newer than a base archive of
  its own name.

## Model

| member | source | states |
|---|---|---|
| Snapshots.PathIndex | BackupTools/Sync/Snapshot.cs:74 | the path dictionary of an entry list with unique paths maps exactly its paths, each to the index of the entry at that path |
| Snapshots.PathIndexAt | BackupTools/Sync/Snapshot.cs:74 | looking up an entry's own path in the dictionary gives back that entry's index |
| Snapshots.Tagged | BackupTools/Sync/Snapshot.cs:181-184 | the kept entries are exactly the entries whose action is not None |
| Snapshots.Trim | BackupTools/Sync/Snapshot.cs:177-186 | the trimmed snapshot holds exactly the tagged entries, and is dated by the clock reading |
| Snapshots.Carried | BackupTools/Sync/Snapshot.cs:60-72 | the carried entries are untagged, their paths are the base paths minus the removed ones, and every surviving base entry is carried with action None |
| Snapshots.ApplyAdds | BackupTools/Sync/Snapshot.cs:75-88 | the Add pass only grows the list and keeps a state untagged |
| Snapshots.ApplyMoves | BackupTools/Sync/Snapshot.cs:90-101 | the Move pass only grows the list and keeps a state untagged |
| Snapshots.Patched | BackupTools/Sync/Snapshot.cs:58-104 | a patched snapshot is a state (no tags), dated by the diff |
| Snapshots.Patch | BackupTools/Sync/Snapshot.cs:58-104 | the in-place construction (carry, then the Add loop, then the Move loop) yields `Patched` |
| Snapshots.PatchAdds | BackupTools/Sync/Snapshot.cs:75-88 | the Add loop, editing entries through the path dictionary, computes `ApplyAdds` |
| Snapshots.PatchMoves | BackupTools/Sync/Snapshot.cs:90-101 | the Move loop computes `ApplyMoves` |
| Snapshots.IndexOfHash | BackupTools/Sync/Snapshot.cs:120-123 | returns an index whose entry carries the hash |
| Snapshots.HashCountOnce | BackupTools/Sync/Snapshot.cs:122 | a hash held once belongs to a single index |
| Snapshots.UniqueHashIndex | BackupTools/Sync/Snapshot.cs:120-123 | the by-hash dictionary holds exactly the hashes held by one entry, each mapped to that entry |
| Snapshots.MarkAll | BackupTools/Sync/Snapshot.cs:128-160 | the marking loop keeps one clone per base entry |
| Snapshots.Syncronized | BackupTools/Sync/Snapshot.cs:111-175 | the diff is dated by the clock reading |
| Snapshots.Syncronize | BackupTools/Sync/Snapshot.cs:111-175 | the two in-place passes (mark, then tag removals) yield `Syncronized` |
| Snapshots.SyncMark | BackupTools/Sync/Snapshot.cs:128-160 | the loop over the target entries computes `MarkAll` from the clones |
| Snapshots.SyncRemoved | BackupTools/Sync/Snapshot.cs:162-172 | the removal loop tags the clones of base paths the target lacks |
| PatchProperties.TaggedAllTagged | BackupTools/Sync/Snapshot.cs:181-184 | trimming a list whose entries are all tagged changes nothing |
| PatchProperties.TrimIdempotent | BackupTools/Sync/Snapshot.cs:177-186 | trimming twice keeps the same entries as trimming once |
| PatchProperties.TrimState | BackupTools/Sync/Snapshot.cs:177-186 | a state trims to no entries |
| PatchProperties.ApplyAddsPaths | BackupTools/Sync/Snapshot.cs:75-88 | the Add pass adds exactly the Add paths of the diff |
| PatchProperties.ApplyAddsKeepsPaths | BackupTools/Sync/Snapshot.cs:77-83 | the Add pass never changes the path of an existing entry |
| PatchProperties.ApplyMovesPaths | BackupTools/Sync/Snapshot.cs:90-101 | the Move pass introduces no path other than a Move destination |
| PatchProperties.ApplyMovesNone | BackupTools/Sync/Snapshot.cs:90 | without Move entries the Move pass changes nothing |
| PatchProperties.ApplyMovesUntouched | BackupTools/Sync/Snapshot.cs:92-96 | an entry that is not the source of a Move is left as it was |
| PatchProperties.PatchPaths | BackupTools/Sync/Snapshot.cs:58-104 | the paths after patching are (base − removed + added) − Move sources, plus only Move destinations |
| PatchProperties.RemovedPathsTagged | BackupTools/Sync/Snapshot.cs:60-63 | trimming a diff keeps all of its Remove paths |
| PatchProperties.ApplyAddsTagged | BackupTools/Sync/Snapshot.cs:75 | the Add pass reads only the Add entries, so trimming the diff does not change it |
| PatchProperties.ApplyMovesTagged | BackupTools/Sync/Snapshot.cs:90 | the Move pass reads only the Move entries, so trimming does not change it |
| PatchProperties.PatchTrimmed | BackupTools/Sync/Snapshot.cs:58-104 | patching with the trimmed diff gives the same entries as with the whole diff |
| PatchProperties.NewestAdd | BackupTools/Sync/Snapshot.cs:77-83 | the newest of a time and the Add times at a path: no smaller than any of them, and equal to one of them |
| PatchProperties.ApplyAddsAt | BackupTools/Sync/Snapshot.cs:77-83 | an existing entry ends with the newest Add time at its path, otherwise unchanged |
| PatchProperties.ApplyAddsAppends | BackupTools/Sync/Snapshot.cs:84-87 | an Add for a path not in the dictionary is appended, untagged |
| PatchProperties.ApplyMovesAt | BackupTools/Sync/Snapshot.cs:92-96 | the entry at a Move source takes the Move's destination path and time |
| PatchProperties.ApplyMovesAppends | BackupTools/Sync/Snapshot.cs:97-100 | a Move whose source is not in the dictionary is appended, untagged |
| PatchProperties.PatchKeeps | BackupTools/Sync/Snapshot.cs:60-88 | a base entry that is neither removed nor moved survives untagged, with the newest Add time at its path |
| PatchProperties.PatchAppendsAdd | BackupTools/Sync/Snapshot.cs:84-87 | an Add for a path the patched base lacks appears in the result |
| PatchProperties.PatchRenames | BackupTools/Sync/Snapshot.cs:92-96 | a base entry named by a single Move reappears at the destination, with the Move's time |
| PatchProperties.PatchAppendsMove | BackupTools/Sync/Snapshot.cs:97-100 | a Move whose source is missing appears as a new entry at its destination |
| PatchProperties.PatchTwiceDuplicates | BackupTools/Sync/Snapshot.cs:74-101 | the path dictionary is never updated, so applying a rename to its own result appends the destination again, and the state holds one path twice |
| PatchProperties.RenameOnce | BackupTools/Sync/Snapshot.cs:90-96 | a one-file rename diff turns {a} into {b} |
| PatchProperties.RenameAgain | BackupTools/Sync/Snapshot.cs:97-100 | applying that rename to {b} yields two entries at b |
| PatchProperties.PatchedRename | BackupTools/Sync/Snapshot.cs:90-96 | a one-entry state patched by a Move from its path is renamed, taking the Move's path and time |
| PatchProperties.PatchedAppend | BackupTools/Sync/Snapshot.cs:97-100 | a Move from a path the state lacks is appended after the existing entry |
| Snapshots.CarriedUnique | BackupTools/Sync/Snapshot.cs:60-74 | carrying entries forward keeps their paths unique, so the path dictionary can be built |
| Snapshots.CanPatch | BackupTools/Sync/Snapshot.cs:60-101 | Patch does not throw when the base paths are unique and every Move has a source |
| Snapshots.AddStep | BackupTools/Sync/Snapshot.cs:75-88 | the list grows by one exactly for an Add at a new path, appended with its time; existing paths stay, times only grow, and an existing Add path ends at least as new as the Add |
| Snapshots.MoveStep | BackupTools/Sync/Snapshot.cs:90-101 | a Move puts its path and time at its source's index, or is appended when the source is absent; no other entry changes |
| Snapshots.MarkStep | BackupTools/Sync/Snapshot.cs:130-159 | clones keep their paths; the consumed set and the appended list only grow, by at most one entry; a target entry with a new path and an unknown hash is appended as an Add |
| Snapshots.MarkRemoved | BackupTools/Sync/Snapshot.cs:162-172 | clone paths and times are kept; a clone is tagged Remove exactly when its base path is not live or it already was |
| Snapshots.Survivors | BackupTools/Sync/Snapshot.cs:144 | no more entries than clones, and none when every clone was consumed |
| SyncProperties.NewestAt | BackupTools/Sync/Snapshot.cs:132-138 | the newest of a time and the target times at a path: no smaller than any of them, and equal to one of them |
| SyncProperties.NewestAtAbsent | BackupTools/Sync/Snapshot.cs:132 | a path the target lacks keeps its time |
| SyncProperties.MarkedCopies | BackupTools/Sync/Snapshot.cs:130-139 | after the marking loop, each base clone is updated exactly as `Updated` says: tagged Add with the newest time when the target is newer, and unchanged otherwise |
| SyncProperties.MarkedAdded | BackupTools/Sync/Snapshot.cs:140-158 | every appended entry is a target entry, either tagged Add at a new path or tagged Move from the single base entry with its hash and time |
| SyncProperties.MarkedAddsNew | BackupTools/Sync/Snapshot.cs:152-157 | a target path new to the base, whose hash is not held by exactly one base entry, is appended as an Add |
| SyncProperties.MarkedRename | BackupTools/Sync/Snapshot.cs:140-150 | a new path with the hash and time of a single base entry is appended as a Move from it, and that entry is consumed, whether or not the target still lists the old path |
| SyncProperties.MarkedMismatch | BackupTools/Sync/Snapshot.cs:140-151 | a new path matching a single base entry's hash, but not its time, is not appended, whether or not the target still lists the old path |
| SyncProperties.SurvivorPaths | BackupTools/Sync/Snapshot.cs:144 | the entries left after renames are at the paths of base entries not consumed |
| SyncProperties.SyncInBoth | BackupTools/Sync/Snapshot.cs:132-139 | a base path the target holds stays as `Updated` says, unless a rename consumed it |
| SyncProperties.SyncRemoves | BackupTools/Sync/Snapshot.cs:162-172 | a base path the target lacks stays tagged Remove, unless a rename consumed it |
| SyncProperties.SyncAddsNew | BackupTools/Sync/Snapshot.cs:152-158 | a new target path is tagged Add, unless exactly one base entry has its hash |
| SyncProperties.SyncRenames | BackupTools/Sync/Snapshot.cs:140-150 | a new path with the hash and time of a single base entry becomes a Move from it, and the old path leaves the diff, even when the target still lists it (a copy) |
| SyncProperties.SyncDropsMismatch | BackupTools/Sync/Snapshot.cs:140-151 | a new path matching a single base entry's hash but not its time is left out of the diff entirely, whether or not the target still lists the old path |
| SyncProperties.SyncUnchanged | BackupTools/Sync/Snapshot.cs:111-186 | a state synced with itself gives itself back, and trims to no entries |
| SyncProperties.MarkedSelf | BackupTools/Sync/Snapshot.cs:128-160 | marking a state against itself appends nothing and changes no clone |
| SyncProperties.NoRenames | BackupTools/Sync/Snapshot.cs:140-158 | when new paths carry new hashes, every appended entry is an Add and nothing is consumed |
| SyncProperties.DiffShape | BackupTools/Sync/Snapshot.cs:111-175 | without renames, the diff is the tagged clones followed by the Adds |
| SyncProperties.ClonesTagged | BackupTools/Sync/Snapshot.cs:162-172 | a clone is tagged Remove exactly when the target lacks its path, and Add only when the target holds it |
| SyncProperties.AddedInTarget | BackupTools/Sync/Snapshot.cs:140-158 | appended entries sit at target paths |
| SyncProperties.DiffRemoves | BackupTools/Sync/Snapshot.cs:162-172 | the diff removes exactly the base paths the target lacks |
| SyncProperties.DiffRemovesLost | BackupTools/Sync/Snapshot.cs:164-170 | every base path the target lacks is removed |
| SyncProperties.DiffRemovesOnlyLost | BackupTools/Sync/Snapshot.cs:164-170 | only base paths the target lacks are removed |
| SyncProperties.DiffAddsNew | BackupTools/Sync/Snapshot.cs:152-158 | every target path new to the base is added |
| SyncProperties.DiffAddsWithin | BackupTools/Sync/Snapshot.cs:128-160 | the diff adds only target paths and holds no Move |
| SyncProperties.PatchByDiff | BackupTools/Sync/Snapshot.cs:58-104 | patching with a Move-free diff, whose removals are exactly the lost paths and whose Adds cover the new ones, gives the live path set |
| SyncProperties.SyncPatchRoundTrip | BackupTools/Sync/Snapshot.cs:111-175 | patching a state with its diff to a listing gives the listing's paths, when new paths carry new hashes |
| SyncProperties.CopyMarked | BackupTools/Sync/Snapshot.cs:140-150 | a copy "b" of "a" with the same time consumes a's clone and is appended as a Move from "a" |
| SyncProperties.CopyDiff | BackupTools/Sync/Snapshot.cs:140-150 | the diff of that copy is a single Move from "a" to "b" |
| SyncProperties.RenameDiff | BackupTools/Sync/Snapshot.cs:128-175 | a file moved, same hash and time, from `a.txt` to `new/a.txt` is diffed as one Move from `a.txt` and nothing else |
| SyncProperties.CopyTakenForRename | BackupTools/Sync/Snapshot.cs:140-150 | patching the base with that diff leaves only "b", although the live tree still holds "a" |
| SyncProperties.MarkAllFresh | BackupTools/Sync/Snapshot.cs:128-160 | marking against an empty base appends every target entry, tagged Add, in order |
| SyncProperties.SyncFromEmpty | BackupTools/Sync/Snapshot.cs:111-175 | syncing the empty state with a listing tags every listed entry Add, in order |
| SyncProperties.FirstDiff | BackupTools/Sync/SyncApp.cs:84 | the first trimmed diff of a listing with unique paths has exactly the listing's paths, unique, all tagged Add |
| SyncProperties.AddsOntoThemselves | BackupTools/Sync/Snapshot.cs:58-104 | such a diff can be patched onto itself and keeps its paths |
| SnapshotCollections.InsertByDate | BackupTools/Sync/SnapshotCollection.cs:61 | insertion adds exactly the new snapshot (as a multiset) |
| SnapshotCollections.OrderByDate | BackupTools/Sync/SnapshotCollection.cs:61 | sorting keeps the length |
| SnapshotCollections.InsertOrdered | BackupTools/Sync/SnapshotCollection.cs:61 | insertion keeps a date-ordered chain ordered |
| SnapshotCollections.OrderByDateOrdered | BackupTools/Sync/SnapshotCollection.cs:61 | `OrderBy(s => s.Date)` is date-ordered |
| SnapshotCollections.OrderByDatePermutes | BackupTools/Sync/SnapshotCollection.cs:61 | `OrderBy(s => s.Date)` is a permutation |
| SnapshotCollections.WithDateAppend | BackupTools/Sync/SnapshotCollection.cs:61 | the snapshots of one date in a concatenation are those of each part, in order |
| SnapshotCollections.InsertWithDate | BackupTools/Sync/SnapshotCollection.cs:61 | insertion places the new snapshot after the others of its date |
| SnapshotCollections.OrderByDateStable | BackupTools/Sync/SnapshotCollection.cs:61 | the sort is stable: snapshots of one date keep their order |
| SnapshotCollections.UpToMembers | BackupTools/Sync/SnapshotCollection.cs:65 | `Where(s => s.Date <= end)` keeps exactly the snapshots dated up to `end` |
| SnapshotCollections.UpToAll | BackupTools/Sync/SnapshotCollection.cs:65 | when all are dated up to `end`, all are kept |
| SnapshotCollections.UpToNone | BackupTools/Sync/SnapshotCollection.cs:65 | when all are later than `end`, none are kept |
| SnapshotCollections.UpToFirst | BackupTools/Sync/SnapshotCollection.cs:65 | the first snapshot is kept first when it is dated up to `end` |
| SnapshotCollections.UpToLatest | BackupTools/Sync/SnapshotCollection.cs:65 | in a date-ordered chain, the last kept snapshot is the latest dated up to `end` |
| SnapshotCollections.PatchAllApplied | BackupTools/Sync/SnapshotCollection.cs:65-68 | a successful fold over diffs gives a state dated by the last diff |
| SnapshotCollections.BuildFails | BackupTools/Sync/SnapshotCollection.cs:65-68 | once a patch fails, the fold fails |
| SnapshotCollections.BuildEmpty | BackupTools/Sync/SnapshotCollection.cs:62 | an empty chain builds to an empty snapshot dated by the clock reading |
| SnapshotCollections.SeedEarliest | BackupTools/Sync/SnapshotCollection.cs:61-62 | the seed of a non-empty chain is its earliest snapshot |
| SnapshotCollections.BuildNothingApplied | BackupTools/Sync/SnapshotCollection.cs:62-68 | when nothing is dated up to `end`, the result is the earliest snapshot, unpatched |
| SnapshotCollections.BuildApplied | BackupTools/Sync/SnapshotCollection.cs:59-71 | when anything is dated up to `end`, the earliest snapshot is the first diff applied; the result is a state dated by an applied snapshot no later than `end` and no earlier than any applied one |
| SnapshotCollections.OrderAppendLatest | BackupTools/Sync/SnapshotCollection.cs:61 | a snapshot dated after the whole chain sorts last |
| SnapshotCollections.BuildAppendLatest | BackupTools/Sync/SnapshotCollection.cs:59-71 | building a chain with a latest diff appended patches the previous build with that diff |
| SnapshotCollections.TrimmedRoundTrip | BackupTools/Sync/SyncApp.cs:84 | patching a state with the trimmed diff of a listing gives the listing's paths |
| SnapshotCollections.BackupRoundTrip | BackupTools/Sync/SyncApp.cs:70-88 | after `Backup` appends the trimmed diff, building the chain gives exactly the live paths (new paths with new hashes) |
| SnapshotCollections.SnapshotCollection.constructor | BackupTools/Sync/SnapshotCollection.cs:13-14 | a new collection has the archive path and no snapshots |
| SnapshotCollections.SnapshotCollection.Load | BackupTools/Sync/SnapshotCollection.cs:21-35 | a missing file gives an empty chain with the archive path; a null document gives an empty collection; otherwise the stored chain and archive path |
| SnapshotCollections.SnapshotCollection.Append | BackupTools/Sync/SyncApp.cs:87 | the chain gets the snapshot at its end; nothing else changes |
| SnapshotCollections.SnapshotCollection.BuildSnapshot | BackupTools/Sync/SnapshotCollection.cs:59-71 | the sort and patch loop computes `Build` (None where a `Patch` would throw) |
| SnapshotCollections.Build | BackupTools/Sync/SnapshotCollection.cs:59-71 | once at least one diff dated no later than `end` has been applied, the result is an untagged state dated no later than `end` |
| SnapshotCollections.BuildSingle | BackupTools/Sync/SnapshotCollection.cs:61-68 | a chain of one diff dated no later than `end` builds that diff patched onto itself |
| SnapshotCollections.FirstBackupRoundTrip | BackupTools/Sync/SyncApp.cs:70-87 | the first backup: an empty chain builds the fresh empty state, and the chain holding only the trimmed diff of a listing with unique paths builds back exactly the listing's paths |
| StringExtensions.ToLowerChar | BackupTools/BitEffects.Common/StringExtensions.cs:123 | the result is no upper-case ASCII letter; other characters are kept |
| StringExtensions.ToUpperChar | BackupTools/BitEffects.Common/StringExtensions.cs:131 | the result is no lower-case ASCII letter; other characters are kept |
| StringExtensions.Lower | BackupTools/BitEffects.Common/StringExtensions.cs:123 | lowers each character, keeping the length |
| StringExtensions.Upper | BackupTools/BitEffects.Common/StringExtensions.cs:131 | uppers each character, keeping the length |
| StringExtensions.UpperOfLower | BackupTools/TidyVault/TidyVaultApp.cs:54 | case-insensitive keys: upper-casing ignores a prior lower-casing |
| StringExtensions.IfEmpty | BackupTools/BitEffects.Common/StringExtensions.cs:13-20 | the fallback is used exactly when the value is null |
| StringExtensions.IfEmptyKeepsEmptyString | BackupTools/BitEffects.Common/StringExtensions.cs:13-25 | the generic `IfEmpty` keeps "", although `IsEmpty("")` holds |
| StringExtensions.TrimWhiteStart | BackupTools/BitEffects.Common/StringExtensions.cs:34 | leading white space is gone |
| StringExtensions.TrimWhiteEnd | BackupTools/BitEffects.Common/StringExtensions.cs:34 | trailing white space is gone |
| StringExtensions.ParseInteger | BackupTools/BitEffects.Common/StringExtensions.cs:32-44 | a parsed value lies in the target type's range |
| StringExtensions.ToInt | BackupTools/BitEffects.Common/StringExtensions.cs:32-37 | the result is a 32-bit value, 0 when parsing fails |
| StringExtensions.ToLong | BackupTools/BitEffects.Common/StringExtensions.cs:39-44 | the result is a 64-bit value, 0 when parsing fails |
| StringExtensions.Show | BackupTools/BitEffects.Common/StringExtensions.cs:32-37 | the decimal rendering is not empty |
| StringExtensions.ShowDigits | BackupTools/BitEffects.Common/StringExtensions.cs:32-37 | the decimal rendering is all digits and denotes the number |
| StringExtensions.ParseShow | BackupTools/BitEffects.Common/StringExtensions.cs:32-44 | parsing a rendered signed number gives it back exactly when it is in range |
| StringExtensions.ToIntShow | BackupTools/BitEffects.Common/StringExtensions.cs:32-44 | `ToInt`/`ToLong` of a rendered number is the number when it fits, 0 otherwise |
| StringExtensions.ToIntRejectsSuffix | BackupTools/BitEffects.Common/StringExtensions.cs:32-44 | a trailing non-digit makes parsing fail, giving 0 |
| StringExtensions.ToBool | BackupTools/BitEffects.Common/StringExtensions.cs:54-64 | empty gives the default; a true word gives true; a false word gives false; anything else gives the default |
| StringExtensions.ToBoolIgnoresCase | BackupTools/BitEffects.Common/StringExtensions.cs:46-53 | the word sets compare ignoring case |
| StringExtensions.ToBoolWords | BackupTools/BitEffects.Common/StringExtensions.cs:46-64 | "yes" and "True" are true, "no" and "0" false, "maybe" the default |
| StringExtensions.Wrap32 | BackupTools/BitEffects.Common/StringExtensions.cs:90 | 32-bit wrap-around: in range, and the identity on 32-bit values |
| StringExtensions.StripNonDigitSuffix | BackupTools/BitEffects.Common/StringExtensions.cs:89 | removes exactly the trailing run of non-digits |
| StringExtensions.ToByteSize | BackupTools/BitEffects.Common/StringExtensions.cs:66-94 | the result is a 32-bit value, 0 for an empty string |
| StringExtensions.ToByteSizeScales | BackupTools/BitEffects.Common/StringExtensions.cs:72-90 | a number with a unit letter is the number times the unit's multiplier, wrapped to 32 bits |
| StringExtensions.ToByteSizeWraps | BackupTools/BitEffects.Common/StringExtensions.cs:75-90 | "1G" is 2^30, "2G" overflows to the 32-bit minimum, "" is 0 |
| StringExtensions.EqualsCI | BackupTools/BitEffects.Common/StringExtensions.cs:102-105 | a null string equals nothing; equal strings have the same length |
| StringExtensions.EqualsCIIsEquivalence | BackupTools/BitEffects.Common/StringExtensions.cs:102-105 | the case-insensitive match is reflexive, symmetric and transitive, and ignores lower-casing |
| StringExtensions.IndexFrom | BackupTools/BitEffects.Common/StringExtensions.cs:109 | `IndexOf` finds the first occurrence at or after the start, or reports none |
| StringExtensions.SplitFirst | BackupTools/BitEffects.Common/StringExtensions.cs:107-119 | without the delimiter the string is the head and the remainder is empty; with it, head + delimiter + remainder rebuilds the string and the head holds no delimiter |
| StringExtensions.SplitFirstJoin | BackupTools/BitEffects.Common/StringExtensions.cs:107-119 | splitting a + delimiter + b gives a and b when a lacks the delimiter |
| StringExtensions.SplitFirstAbsent | BackupTools/BitEffects.Common/StringExtensions.cs:112-115 | a string without the delimiter splits into itself and "" |
| StringExtensions.Dehyphen | BackupTools/BitEffects.Common/StringExtensions.cs:123 | the replacement never lengthens the string |
| StringExtensions.DehyphenClean | BackupTools/BitEffects.Common/StringExtensions.cs:123-126 | after the replacement no separator is followed by a lower-case letter |
| StringExtensions.DehyphenPlain | BackupTools/BitEffects.Common/StringExtensions.cs:123 | a string without separators is unchanged |
| StringExtensions.DehyphenJoin | BackupTools/BitEffects.Common/StringExtensions.cs:123-126 | a separator and a lower-case letter become that letter upper-cased |
| StringExtensions.CamelCased | BackupTools/BitEffects.Common/StringExtensions.cs:121-127 | the first character is not upper-case, and the rest has no separator before a lower-case letter |
| StringExtensions.PascalCased | BackupTools/BitEffects.Common/StringExtensions.cs:129-135 | the first character is not lower-case, and the rest has no separator before a lower-case letter |
| StringExtensions.CamelPascalAgree | BackupTools/BitEffects.Common/StringExtensions.cs:121-135 | camelCased and PascalCased differ only in the case of the first character |
| StringExtensions.UpperRun | BackupTools/BitEffects.Common/StringExtensions.cs:139 | the length of the maximal leading run of upper-case letters |
| StringExtensions.TrimStartDash | BackupTools/BitEffects.Common/StringExtensions.cs:153 | the result does not start with '-' |
| StringExtensions.CamelCaseToDashed | BackupTools/BitEffects.Common/StringExtensions.cs:137-154 | the result does not start with '-' |
| StringExtensions.DashRunLetters | BackupTools/BitEffects.Common/StringExtensions.cs:143-151 | the replacement of one upper-case run holds the run's letters lower-cased, plus dashes |
| StringExtensions.DashRunSplit | BackupTools/BitEffects.Common/StringExtensions.cs:147-151 | a run of several letters splits off its last letter with a dash, keeping the letters |
| StringExtensions.DashRunsLetters | BackupTools/BitEffects.Common/StringExtensions.cs:139-152 | the replacement keeps the letters (lower-cased) and adds only dashes |
| StringExtensions.TrimStartDashLetters | BackupTools/BitEffects.Common/StringExtensions.cs:153 | trimming the leading dashes removes only dashes |
| StringExtensions.CamelCaseToDashedLetters | BackupTools/BitEffects.Common/StringExtensions.cs:137-154 | the dashed name is the lower-cased name with dashes inserted, and holds no upper-case letter |
| StringExtensions.DashRunsPlain | BackupTools/BitEffects.Common/StringExtensions.cs:139 | a string without upper-case letters is unchanged |
| StringExtensions.UpperRunExample | BackupTools/BitEffects.Common/StringExtensions.cs:139 | the leading run of "ABBRProp" is 5 letters long |
| StringExtensions.DashRunsExample | BackupTools/BitEffects.Common/StringExtensions.cs:139-152 | "ABBRProp" becomes "-abbr-prop" before trimming |
| StringExtensions.TrimDashExample | BackupTools/BitEffects.Common/StringExtensions.cs:153 | the leading dash of "-abbr-prop" is trimmed |
| StringExtensions.DashedExample | BackupTools/BitEffects.Common/StringExtensions.cs:137-154 | "ABBRProp" becomes "abbr-prop" |
| StringExtensions.DistinctBy | BackupTools/BitEffects.Common/StringExtensions.cs:230-233 | the kept elements have pairwise distinct keys |
| StringExtensions.DistinctByCovers | BackupTools/BitEffects.Common/StringExtensions.cs:230-233 | every key of the input is kept |
| StringExtensions.DistinctByFirst | BackupTools/BitEffects.Common/StringExtensions.cs:230-233 | each kept element is the first one with its key (`g.First()`) |
| StringExtensions.DistinctByOrder | BackupTools/BitEffects.Common/StringExtensions.cs:230-233 | the kept elements come in the order in which their keys first occur in the input (`GroupBy` keeps first-key order) |
| StringExtensions.SplitOn | BackupTools/BackupTools.Common/ArchiveMetaData.cs:41 | `Split(',')` always yields at least one piece |
| StringExtensions.SplitOnPlain | BackupTools/BackupTools.Common/ArchiveMetaData.cs:41 | a string without the separator is one piece |
| StringExtensions.SplitOnFirst | BackupTools/BackupTools.Common/ArchiveMetaData.cs:41 | splitting peels off the part before the first separator |
| StringExtensions.SplitJoin | BackupTools/BackupTools.Common/ArchiveMetaData.cs:41-47 | splitting a join of separator-free pieces gives the pieces back |
| StringExtensions.SplitOnClean | BackupTools/BackupTools.Common/ArchiveMetaData.cs:41 | no piece holds the separator |
| StringExtensions.IsEmpty | BackupTools/BitEffects.Common/StringExtensions.cs:27-30 | a string is empty exactly when it is null or has no characters |
| StringExtensions.Multiplier | BackupTools/BitEffects.Common/StringExtensions.cs:72-87 | the scale a size suffix gives: 1 for any last character other than g, m or k (either case), otherwise 1024, 1024² or 1024³ |
| StringExtensions.JoinWith | BackupTools/BackupTools.Common/ArchiveMetaData.cs:47 | `string.Join`: empty for no pieces; otherwise the result starts with the first piece, followed by the separator when more pieces follow |
| Archives.Make | BackupTools/BackupTools.Common/ArchiveMetaData.cs:19-23 | the metadata has the given name and path, the clock reading, and no tags |
| Archives.FileName | BackupTools/BackupTools.Common/ArchiveMetaData.cs:27 | the file name is the suffix of the path after its last '/' |
| Archives.FileNameAfterSlash | BackupTools/BackupTools.Common/ArchiveMetaData.cs:27 | the file name of dir/file is file |
| Archives.FromPath | BackupTools/BackupTools.Common/ArchiveMetaData.cs:26-29 | the name is the path's file name (null for a null path) |
| Archives.FromPathExample | BackupTools/BackupTools.CommonTests/ArchiveMetaDataTests.cs:16-17 | "path/to/file" is named "file" |
| Archives.NonEmpty | BackupTools/BackupTools.Common/ArchiveMetaData.cs:41 | `RemoveEmptyEntries` keeps only non-empty pieces |
| Archives.NonEmptyKeeps | BackupTools/BackupTools.Common/ArchiveMetaData.cs:41 | non-empty pieces are all kept |
| Archives.TagSetDistinct | BackupTools/BackupTools.Common/ArchiveMetaData.cs:17 | a set built from distinct tags keeps them in order |
| Archives.TagsRoundTrip | BackupTools/BackupTools.Common/ArchiveMetaData.cs:41-47 | joining distinct clean tags with ',' and parsing them back gives the tags |
| Archives.ToDescription | BackupTools/BackupTools.Common/ArchiveMetaData.cs:45-48 | a description holds at least its three separators |
| Archives.FromDescription | BackupTools/BackupTools.Common/ArchiveMetaData.cs:31-43 | a parsed description has a name, a path, ticks within the DateTime range, and clean tags |
| Archives.TagsClean | BackupTools/BackupTools.Common/ArchiveMetaData.cs:41 | parsed tags are non-empty and hold no ',' |
| Archives.DistinctByKeepsFrom | BackupTools/BackupTools.Common/ArchiveMetaData.cs:41 | every tag of the set comes from the pieces |
| Archives.ReadFields | BackupTools/BackupTools.Common/ArchiveMetaData.cs:33-36 | the three `SplitFirst` calls recover name, path, date and tags from name\|path\|date\|tags |
| Archives.DescriptionRoundTrip | BackupTools/BackupTools.Common/ArchiveMetaData.cs:31-48 | `FromDescription(ToDescription(m)) == m` for a named archive with '\|'-free fields, ticks in range and distinct clean tags |
| Archives.DescriptionWithoutFields | BackupTools/BackupTools.Common/ArchiveMetaData.cs:33-36 | a description without '\|' is all name, with an empty path, tick 0 and no tags |
| Archives.DescriptionBadDate | BackupTools/BackupTools.Common/ArchiveMetaData.cs:40 | an unparsable date reads as tick 0 |
| Archives.DescriptionTicksOutOfRange | BackupTools/BackupTools.Common/ArchiveMetaData.cs:40 | a tick count outside the DateTime range makes reading the description fail |
| CommandLine.CreateOptionDictionary | BackupTools/BitEffects.Common/CommandLineUtility.cs:145-183 | the argument loop computes `OptionDictionary` |
| CommandLine.SaveCurrentOption | BackupTools/BitEffects.Common/CommandLineUtility.cs:171-180 | a named option is stored with its values; an unnamed one is dropped |
| CommandLine.RunValues | BackupTools/BitEffects.Common/CommandLineUtility.cs:164-167 | plain arguments are collected as the current option's values |
| CommandLine.LeadingValuesIgnored | BackupTools/BitEffects.Common/CommandLineUtility.cs:149-175 | values before the first option are dropped |
| CommandLine.DashCountIgnored | BackupTools/BitEffects.Common/CommandLineUtility.cs:156 | "-x" and "--x" mean the same option |
| CommandLine.OptionName | BackupTools/BitEffects.Common/CommandLineUtility.cs:156 | a dashed argument without '=' names the option, with no inline value |
| CommandLine.OptionTakesValues | BackupTools/BitEffects.Common/CommandLineUtility.cs:151-169 | an option followed by plain arguments maps to exactly those values, overriding earlier ones |
| CommandLine.InlineValueCloses | BackupTools/BitEffects.Common/CommandLineUtility.cs:156-162 | "-n=v" stores [v] and closes the option, so following plain arguments are dropped |
| CommandLine.FirstPresent | BackupTools/BitEffects.Common/CommandLineUtility.cs:121-123 | the first key present, or none when no key is present |
| CommandLine.FindKey | BackupTools/BitEffects.Common/CommandLineUtility.cs:103-138 | a found key is present and is one of the member's candidate names; none only when no candidate is present |
| CommandLine.FindKeyIsFirstCandidate | BackupTools/BitEffects.Common/CommandLineUtility.cs:103-138 | the key is the first present of: name, PascalCased, camelCased, aliases, dashed name |
| CommandLine.ChangeType | BackupTools/BitEffects.Common/CommandLineUtility.cs:84 | a converted value fits the target type; text converts unchanged |
| CommandLine.ConvertAll | BackupTools/BitEffects.Common/CommandLineUtility.cs:71 | the array conversion fails exactly when some element fails, otherwise converts each element |
| CommandLine.Convert | BackupTools/BitEffects.Common/CommandLineUtility.cs:67-87 | arrays convert element-wise; bool takes `ToBool(first value, true)`; other types convert the space-joined values |
| CommandLine.Assign | BackupTools/BitEffects.Common/CommandLineUtility.cs:60-90 | a member is untouched exactly when no non-empty key is found; the options object's own hook takes precedence; an assigned value fits the member's type |
| CommandLine.ParseOptions | BackupTools/BitEffects.Common/CommandLineUtility.cs:42-93 | the fields-then-properties loop computes `Parsed` |
| CommandLine.SetAllFails | BackupTools/BitEffects.Common/CommandLineUtility.cs:47-58 | the loop fails exactly when a writable member's conversion throws |
| CommandLine.SetAllSettings | BackupTools/BitEffects.Common/CommandLineUtility.cs:47-58 | each writable member with a key gets its conversion, and the others are unset |
| CommandLine.SetAllKeeps | BackupTools/BitEffects.Common/CommandLineUtility.cs:47-58 | settings of names outside the member list are kept |
| CommandLine.SetAllNames | BackupTools/BitEffects.Common/CommandLineUtility.cs:47-58 | only member names are set |
| CommandLine.ParsedMeaning | BackupTools/BitEffects.Common/CommandLineUtility.cs:42-93 | parsing fails exactly when a writable member's conversion throws; otherwise a member is set exactly when it is writable and keyed, to its conversion, and nothing else is set |
| CommandLine.Step | BackupTools/BitEffects.Common/CommandLineUtility.cs:151-180 | one argument: saved names are never lost and "" is never saved; a plain argument only joins the current values; an option saves the option being read |
| CommandLine.Run | BackupTools/BitEffects.Common/CommandLineUtility.cs:151-168 | over the whole argument list, saved names are never lost and "" is never saved |
| CommandLine.OptionDictionary | BackupTools/BitEffects.Common/CommandLineUtility.cs:145-183 | no option is stored under the empty name, and an argument list without options gives the empty dictionary |
| CommandLine.Candidates | BackupTools/BitEffects.Common/CommandLineUtility.cs:103-138 | the names tried: the member name first, every alias, and the dashed name last, four names besides the aliases |
| CommandLine.SetAll | BackupTools/BitEffects.Common/CommandLineUtility.cs:47-58 | a run of the member loops that does not throw keeps every setting already made; with no writable member nothing is set |
| CommandLine.Parsed | BackupTools/BitEffects.Common/CommandLineUtility.cs:42-93 | with no writable member, parsing succeeds and sets nothing |
| ByteBuffers.Grown | BackupTools/BitEffects.Common/ByteBuffer.cs:30-35 | the grown capacity fits the need and is less than twice the need whenever it grew |
| ByteBuffers.GrownDoubles | BackupTools/BitEffects.Common/ByteBuffer.cs:30-35 | the grown capacity is the old one times a power of two |
| ByteBuffers.ByteBuffer.constructor | BackupTools/BitEffects.Common/ByteBuffer.cs:17-20 | an empty buffer of the given capacity |
| ByteBuffers.ByteBuffer.Write | BackupTools/BitEffects.Common/ByteBuffer.cs:27-42 | the contents become the old contents plus the first min(data.Length, size) bytes; the capacity doubles until they fit |
| ByteBuffers.ByteBuffer.Grow | BackupTools/BitEffects.Common/ByteBuffer.cs:30-35 | doubling keeps the contents and reaches `Grown` |
| ByteBuffers.ByteBuffer.Append | BackupTools/BitEffects.Common/ByteBuffer.cs:37-41 | the copy loop appends the bytes in place |
| ByteBuffers.ByteBuffer.Read | BackupTools/BitEffects.Common/ByteBuffer.cs:49-67 | returns the first min(Length, size) bytes and leaves the rest, in FIFO order; an empty buffer returns nothing; a negative size on a non-empty buffer fails (the array allocation throws) and leaves the contents |
| ByteBuffers.ByteBuffer.ShiftOut | BackupTools/BitEffects.Common/ByteBuffer.cs:63 | shifting left drops exactly the first n bytes |
| ByteBuffers.InputMatchesOutput | BackupTools/BitEffects.CommonTests/ByteBufferTests.cs:14-25 | writing "ABC", "DEF", "G" and reading 7 gives "ABCDEFG" |
| ByteBuffers.ReadCount | BackupTools/BitEffects.Common/ByteBuffer.cs:51-56 | a read takes no more than is held nor more than asked, and less than is held only when it takes all it was asked for |
| StreamSplitters.ChunksJoin | BackupTools/BitEffects.Common/StreamSplitter.cs:35-58 | the chunks join back to the data, and have the chunk shape |
| StreamSplitters.ChunkedUnique | BackupTools/BitEffects.Common/StreamSplitter.cs:35-58 | the chunk shape determines the chunks: any chunked list is `Chunks` of its join |
| StreamSplitters.ChunkCount | BackupTools/BitEffects.Common/StreamSplitter.cs:35-58 | the number of chunks is the ceiling of length / size, and one for empty data |
| StreamSplitters.ChunksExample | BackupTools/BitEffects.CommonTests/StreamSplitterTests.cs:15-38 | "ABCDEFG" in chunks of 3 is "ABC", "DEF", "G" |
| StreamSplitters.StopAt | BackupTools/BitEffects.Common/StreamSplitter.cs:39-54 | reading stops at the first empty read |
| StreamSplitters.StreamSplitter.constructor | BackupTools/BitEffects.Common/StreamSplitter.cs:19-33 | the chunk size is set and numbering starts at 0 |
| StreamSplitters.StreamSplitter.Run | BackupTools/BitEffects.Common/StreamSplitter.cs:35-58 | the callback receives exactly `Chunks(received bytes, chunkSize)`, numbered consecutively from `fileIndex` |
| StreamSplitters.StreamSplitter.Collect | BackupTools/BitEffects.Common/StreamSplitter.cs:39-54 | the read loop sends full chunks and keeps at most a chunk buffered, sent + buffered being the bytes read |
| StreamSplitters.StreamSplitter.Feed | BackupTools/BitEffects.Common/StreamSplitter.cs:43-49 | one read: buffer it, then send full chunks while more than a chunk is held |
| StreamSplitters.StreamSplitter.Take | BackupTools/BitEffects.Common/StreamSplitter.cs:45 | the read is appended to the buffer |
| StreamSplitters.StreamSplitter.Emit | BackupTools/BitEffects.Common/StreamSplitter.cs:46-49 | the inner loop sends full chunks and leaves 1..chunkSize bytes when it sent any |
| StreamSplitters.Chunks | BackupTools/BitEffects.Common/StreamSplitter.cs:46-57 | there is always at least one chunk (the final one may be empty), none is larger than the chunk size, and the first is the head of the data |
| MultipartBackups.ValidateOptions | BackupTools/MultipartBackup/MultipartBackupApp.cs:29-40 | accepted exactly when the chunk size is positive and the path non-empty; the chunk size is checked first |
| MultipartBackups.TagFor | BackupTools/MultipartBackup/MultipartBackupApp.cs:82-94 | the base-archive tag exactly when no entry's path matches (ignoring case), else the snapshot tag |
| MultipartBackups.NewEntry | BackupTools/MultipartBackup/MultipartBackupApp.cs:81-94 | the entry has the archive id, the path, its file name and the single tag `TagFor` chooses |
| MultipartBackups.SecondBackupIsSnapshot | BackupTools/MultipartBackup/MultipartBackupApp.cs:82-94 | a second backup of the same path (in any case) is tagged as a snapshot |
| MultipartBackups.TagIgnoresOtherPaths | BackupTools/MultipartBackup/MultipartBackupApp.cs:82-83 | entries of other paths do not change the tag |
| MultipartBackups.UploadOf | BackupTools/MultipartBackup/MultipartBackupApp.cs:105-117 | a chunk is uploaded as one part, unless it is empty |
| MultipartBackups.Uploads | BackupTools/MultipartBackup/MultipartBackupApp.cs:105-117 | at most one part per chunk |
| MultipartBackups.UploadsFrom | BackupTools/MultipartBackup/MultipartBackupApp.cs:105-117 | every part is a non-empty chunk |
| MultipartBackups.UploadsReassemble | BackupTools/MultipartBackup/MultipartBackupApp.cs:105-117 | the uploaded parts concatenate to the chunks' concatenation |
| MultipartBackups.UploadCount | BackupTools/MultipartBackup/MultipartBackupApp.cs:109 | one part per chunk, and none for empty data |
| MultipartBackups.FullChunksUploaded | BackupTools/MultipartBackup/MultipartBackupApp.cs:109 | full chunks are all uploaded |
| MultipartBackups.BackupParts | BackupTools/MultipartBackup/MultipartBackupApp.cs:68-74 | every part is non-empty and at most the chunk size |
| MultipartBackups.ChunksFit | BackupTools/BitEffects.Common/StreamSplitter.cs:46-57 | chunks are no larger than the chunk size |
| MultipartBackups.BackupReassembles | BackupTools/MultipartBackup/MultipartBackupApp.cs:68-74 | the parts reassemble the input, one per chunk, none for empty input |
| MultipartBackups.ThreeParts | BackupTools/MultipartBackupTests/MultipartBackupAppTests.cs:79-90 | "ABCDEFG" with chunk size 3 is uploaded as three parts |
| MultipartBackups.ThreeSession | BackupTools/MultipartBackupTests/MultipartBackupAppTests.cs:79-90 | the whole call sequence for that input: initiate, three parts, complete, add entry |
| MultipartBackups.MultipartBackupApp.constructor | BackupTools/MultipartBackup/MultipartBackupApp.cs:21-27 | an app is built only from accepted options |
| MultipartBackups.MultipartBackupApp.PerformBackup | BackupTools/MultipartBackup/MultipartBackupApp.cs:64-103 | with no upload id it fails after initiating; otherwise it initiates, uploads the parts, completes, and adds the tagged entry |
| MultipartBackups.MultipartBackupApp.Upload | BackupTools/MultipartBackup/MultipartBackupApp.cs:68-74 | the splitter run uploads exactly `BackupParts` |
| MultipartBackups.MultipartBackupApp.SaveEntry | BackupTools/MultipartBackup/MultipartBackupApp.cs:77-97 | completes the upload and appends the new entry |
| MultipartBackups.MultipartBackupApp.UploadAll | BackupTools/MultipartBackup/MultipartBackupApp.cs:105-117 | each chunk goes through `ProcessData` in order |
| MultipartBackups.MultipartBackupApp.ProcessData | BackupTools/MultipartBackup/MultipartBackupApp.cs:105-117 | a non-empty buffer is uploaded as one part; an empty one is skipped |
| MultipartBackups.FirstBackup | BackupTools/MultipartBackupTests/MultipartBackupAppTests.cs:63-77 | a first backup of "path/to/file" adds one base-archive entry "file" with id "ID", after three parts |
| MultipartBackups.HasPath | BackupTools/MultipartBackup/MultipartBackupApp.cs:82-83 | an entry with exactly the path is found, and a found entry has the path up to case |
| MultipartBackups.Session | BackupTools/MultipartBackup/MultipartBackupApp.cs:74-96 | after the parts, the upload is completed once and the entry is added last |
| TidyVault.Group | BackupTools/TidyVault/TidyVaultApp.cs:53-55 | a group holds archives of its key only, starting with the first one |
| TidyVault.Without | BackupTools/TidyVault/TidyVaultApp.cs:53-55 | the rest holds archives of other keys only |
| TidyVault.Groups | BackupTools/TidyVault/TidyVaultApp.cs:53-55 | every group is non-empty |
| TidyVault.SplitByKey | BackupTools/TidyVault/TidyVaultApp.cs:53-55 | a group and the rest partition the inventory |
| TidyVault.GroupWithout | BackupTools/TidyVault/TidyVaultApp.cs:53-55 | removing one key leaves the other groups intact |
| TidyVault.GroupsByKey | BackupTools/TidyVault/TidyVaultApp.cs:53-55 | each group is all the archives of its key, keys are distinct, and groups hold inventory archives |
| TidyVault.GroupIgnoresOthers | BackupTools/TidyVault/TidyVaultApp.cs:54 | archives of other keys do not change a group |
| TidyVault.Insert | BackupTools/TidyVault/TidyVaultApp.cs:63 | insertion adds one element |
| TidyVault.InsertNewestFirst | BackupTools/TidyVault/TidyVaultApp.cs:63 | insertion keeps the newest-first order |
| TidyVault.InsertKeeps | BackupTools/TidyVault/TidyVaultApp.cs:63 | insertion adds exactly the new archive |
| TidyVault.SortNewestFirst | BackupTools/TidyVault/TidyVaultApp.cs:63 | sorting keeps the length |
| TidyVault.SortSpec | BackupTools/TidyVault/TidyVaultApp.cs:63 | `OrderByDescending(CreationDate)` is newest-first and a permutation |
| TidyVault.SortOrders | BackupTools/TidyVault/TidyVaultApp.cs:63 | the sort is newest-first |
| TidyVault.SortKeeps | BackupTools/TidyVault/TidyVaultApp.cs:63 | the sort is a permutation |
| TidyVault.FirstBase | BackupTools/TidyVault/TidyVaultApp.cs:64 | the index of the first base archive, or the length when there is none |
| TidyVault.SkipToFirstBase | BackupTools/TidyVault/TidyVaultApp.cs:64 | `SkipWhile` drops exactly the archives before the first base |
| TidyVault.Selection | BackupTools/TidyVault/TidyVaultApp.cs:61-66 | with no base nothing is deleted; otherwise exactly the archives after the first base, none newer than it |
| TidyVault.GroupSelection | BackupTools/TidyVault/TidyVaultApp.cs:61-66 | for a group: nothing deleted when it has no base; otherwise exactly the archives after its newest base, all no newer than it |
| TidyVault.SameDateTie | BackupTools/TidyVault/TidyVaultApp.cs:62-66 | of three same-dated archives listed x, base, y, the stable sort keeps x before the base, so x is kept and only y is deleted |
| TidyVault.FirstBaseNewest | BackupTools/TidyVault/TidyVaultApp.cs:63-64 | in newest-first order, the first base archive is the newest base |
| TidyVault.ToDeleteWithin | BackupTools/TidyVault/TidyVaultApp.cs:62-66 | a group deletes only its own archives, each at most as often as it occurs |
| TidyVault.DeletedOnce | BackupTools/TidyVault/TidyVaultApp.cs:53-72 | the whole plan deletes only inventory archives, none more often than it occurs |
| TidyVault.DeletedFromOwnGroup | BackupTools/TidyVault/TidyVaultApp.cs:53-66 | a deleted archive is deleted from the group of its own name |
| TidyVault.DeletedBehindBase | BackupTools/TidyVault/TidyVaultApp.cs:43-66 | a deleted archive is never newer than some base archive of its group |
| TidyVault.Aborts | BackupTools/TidyVault/TidyVaultApp.cs:35-40 | one abort per pending upload, in order |
| TidyVault.Deletes | BackupTools/TidyVault/TidyVaultApp.cs:68-71 | one delete per archive, in order |
| TidyVault.AbortsFirst | BackupTools/TidyVault/TidyVaultApp.cs:24-28 | in the calls of a run, every abort comes before every delete, whatever the inventory |
| TidyVault.TidyVaultApp.constructor | BackupTools/TidyVault/TidyVaultApp.cs:18-22 | no calls yet |
| TidyVault.TidyVaultApp.Run | BackupTools/TidyVault/TidyVaultApp.cs:24-28 | the calls are the aborts, then the deletes of `Tidied`; the run fails exactly when a description cannot be read |
| TidyVault.TidyVaultApp.AbortPendingUploads | BackupTools/TidyVault/TidyVaultApp.cs:30-41 | aborts every pending upload in order |
| TidyVault.TidyVaultApp.RemoveAbandonedArchives | BackupTools/TidyVault/TidyVaultApp.cs:47-73 | fails, deleting nothing, exactly when a description cannot be read; otherwise deletes `Plan` of the read archives, group by group |
| TidyVault.TidyVaultApp.DeleteAll | BackupTools/TidyVault/TidyVaultApp.cs:68-71 | deletes the given archives in order |
| TidyVault.TidyVaultApp.DeleteGroups | BackupTools/TidyVault/TidyVaultApp.cs:57-72 | the loop over the name groups deletes each group's selection, group after group |
| TidyVault.ReadInventory | BackupTools/TidyVault/TidyVaultApp.cs:52-55 | reading succeeds exactly when every description parses; each archive is then its inventory entry with the parsed metadata, in order |
| TidyVault.Key | BackupTools/TidyVault/TidyVaultApp.cs:54 | the grouping key is the name upper-cased, of the same length (a null name reads as "") |
| TidyVault.IsBase | BackupTools/TidyVault/TidyVaultApp.cs:64 | an archive is a base archive exactly when its tags hold the base-archive tag |
| TidyVault.ToDelete | BackupTools/TidyVault/TidyVaultApp.cs:62-66 | a non-empty group always keeps at least one archive |
| TidyVault.Plan | BackupTools/TidyVault/TidyVaultApp.cs:53-72 | the plan deletes inventory archives only, and no more of them than the inventory holds |
| TidyVault.Tidied | BackupTools/TidyVault/TidyVaultApp.cs:47-73 | the archive removal only deletes archives, and deletes nothing when some description cannot be read |
| TidyVault.TidiedRead | BackupTools/TidyVault/TidyVaultApp.cs:52-72 | for a readable inventory, the deletes are the selections of its name groups, group after group |
| TidyVault.UnreadableDeletesNothing | BackupTools/TidyVault/TidyVaultApp.cs:52-55 | one unreadable description stops every delete, those of other names included |
| SyncApps.ValidateOptions | BackupTools/Sync/SyncApp.cs:27-49 | accepted exactly when the path is set, and either backup (with a snapshot file) or restore is asked for; otherwise the source's message, in its order |
| SyncApps.RunMode | BackupTools/Sync/SyncApp.cs:51-63 | backup when asked for, else restore when asked for |
| SyncApps.AcceptedRuns | BackupTools/Sync/SyncApp.cs:24-63 | accepted options always select a mode, and a backup always has a snapshot file |
| SyncApps.PlanBackup | BackupTools/Sync/SyncApp.cs:70-141 | a failure is never `Archived`; a diff is non-empty, dated by the clock reading, and holds only tagged entries |
| SyncApps.PayloadOf | BackupTools/Sync/SyncApp.cs:112-135 | at most one archive entry or error per diff entry |
| SyncApps.PayloadSound | BackupTools/Sync/SyncApp.cs:112-135 | every payload item comes from an Add entry that is not the output file: written under `snapshot/` if readable, else an error logged |
| SyncApps.PayloadComplete | BackupTools/Sync/SyncApp.cs:112-135 | every Add entry that is not the output file is written under `snapshot/`, or its error is logged |
| SyncApps.Latest | BackupTools/Sync/SyncApp.cs:183-185 | none exactly for an empty chain; otherwise the first snapshot with the greatest date |
| SyncApps.Target | BackupTools/Sync/SyncApp.cs:237 | an extracted name maps to a non-empty target path exactly when it is longer than the `snapshot/` prefix |
| SyncApps.TargetOfStored | BackupTools/Sync/SyncApp.cs:128 | a file stored as `snapshot/` + path is moved back to path |
| SyncApps.RemovePassFiles | BackupTools/Sync/SyncApp.cs:190-204 | the removal pass deletes exactly the Remove paths and logs nothing |
| SyncApps.MovePassElsewhere | BackupTools/Sync/SyncApp.cs:206-221 | the rename pass leaves files it does not move, or move onto, unchanged |
| SyncApps.MoveCarries | BackupTools/Sync/SyncApp.cs:210-215 | a rename onto a free path whose directory exists carries the content, frees the source and logs nothing |
| SyncApps.MoveNeedsDir | BackupTools/Sync/SyncApp.cs:210-220 | a rename into a directory that does not exist is logged and leaves every file where it was |
| SyncApps.StoredTargetsDiffer | BackupTools/Sync/SyncApp.cs:237 | distinct stored names target distinct paths |
| SyncApps.OverlayPlaces | BackupTools/Sync/SyncApp.cs:229-247 | every extracted file lands at its target with its content, and untargeted files are unchanged |
| SyncApps.OverlayKeepsLog | BackupTools/Sync/SyncApp.cs:233-246 | placing stored names logs nothing |
| SyncApps.OverlayElsewhere | BackupTools/Sync/SyncApp.cs:233-246 | a file no listed name targets keeps its content |
| SyncApps.OverlayAt | BackupTools/Sync/SyncApp.cs:237-240 | a listed stored name lands at its target with its content, and no later name overwrites it |
| SyncApps.RestorePlaces | BackupTools/Sync/SyncApp.cs:227-247 | an extracted `snapshot/<path>` file is placed at path with its extracted content |
| SyncApps.SyncApp.constructor | BackupTools/Sync/SyncApp.cs:19-25 | an app is built only from accepted options, over the given files and directories, with no effects yet |
| SyncApps.SyncApp.Backup | BackupTools/Sync/SyncApp.cs:65-142 | a failing plan changes nothing; otherwise the diff is appended to the chain, the chain is saved, and the snapshot file and payload are written; the file tree is untouched |
| SyncApps.SyncApp.WritePayload | BackupTools/Sync/SyncApp.cs:112-135 | the Add loop emits exactly `Payload` |
| SyncApps.SyncApp.Restore | BackupTools/Sync/SyncApp.cs:144-251 | the files, directories and log become `Restored` from the latest snapshot's entries and the extracted files |
| SyncApps.SyncApp.RemoveAll | BackupTools/Sync/SyncApp.cs:190-204 | the removal loop computes `RemovePass` |
| SyncApps.SyncApp.MoveAll | BackupTools/Sync/SyncApp.cs:206-221 | the rename loop, which fails and logs a rename onto an existing file or into a missing directory, computes `MovePass` |
| SyncApps.SyncApp.OverlayAll | BackupTools/Sync/SyncApp.cs:233-246 | the final move loop, creating each target's directories, computes `Overlay` |
| SyncApps.RemovePass | BackupTools/Sync/SyncApp.cs:189-204 | the removal loop only deletes files (contents unchanged), logs nothing, and keeps every file no entry tags Remove |
| SyncApps.MovePass | BackupTools/Sync/SyncApp.cs:206-221 | the rename loop only adds to the log and creates no directory; a new file appears only at a Move destination, and a file no Move names as a source or destination stays |
| SyncApps.Overlay | BackupTools/Sync/SyncApp.cs:229-247 | moving the extracted files into place only adds to the log, loses no file and removes no directory |
| SyncApps.Restored | BackupTools/Sync/SyncApp.cs:144-251 | the whole restore only adds to the log, and a file no entry removes or moves is still there afterwards |
| SyncApps.DirOf | BackupTools/Sync/SyncApp.cs:239 | the directory part of a path is "" or a proper prefix of it followed by '/', and no '/' follows it |
| SyncApps.AncestorsHaveDir | BackupTools/Sync/SyncApp.cs:239-240 | once `CreateDirectory` has made a path's ancestors, the file's directory exists |
| SyncApps.RenameTrimmed | BackupTools/Sync/Snapshot.cs:128-186 | a file moved, same hash and time, from `a.txt` to `new/a.txt` gives the one-entry diff Move `a.txt` → `new/a.txt` |
| SyncApps.MoveIntoMissingFolder | BackupTools/Sync/SyncApp.cs:206-221 | that Move has no payload, and restoring it onto a directory holding `a.txt` and no folders logs the failure and changes no file |
| SyncApps.RenameIntoMissingFolder | BackupTools/Sync/SyncApp.cs:84-135 | a rename into a new folder is backed up as a Move with no payload, and its restore onto the old tree fails, so `new/a.txt` is never restored |
| SyncApps.Extracted | BackupTools/Sync/SyncApp.cs:164-168 | every extracted name was written from an existing file with that file's content, and every such write is extracted |
| SyncApps.PayloadExtracts | BackupTools/Sync/SyncApp.cs:111-135 | when every added path is readable and not the output file, the archive extracts exactly `snapshot/<p>` for each added p, with p's content |
| SyncApps.StoredOf | BackupTools/Sync/SyncApp.cs:128 | a non-empty path stored under `snapshot/` is a stored name |
| SyncApps.OverlayOnly | BackupTools/Sync/SyncApp.cs:233-246 | the final moves create a file only at the target of a listed name |
| SyncApps.NoMovesKeep | BackupTools/Sync/SyncApp.cs:206-221 | without Move entries the rename loop changes no file |
| SyncApps.OverlayGives | BackupTools/Sync/SyncApp.cs:227-247 | overlaying the extracted added files onto a tree that agrees with the live files elsewhere gives exactly the live files |
| SyncApps.OverlayGivesOnly | BackupTools/Sync/SyncApp.cs:233-246 | after overlaying a payload of `snapshot/<p>` names, a file was already there or is one of those p |
| SyncApps.RestoreByDiff | BackupTools/Sync/SyncApp.cs:144-251 | restoring a rename-free diff that removes what the live tree lost and adds what it gained or changed gives exactly the live files |
| SyncApps.LatestAppended | BackupTools/Sync/SyncApp.cs:183-185 | after appending a snapshot later than all others, the restore reads that snapshot's entries |
| SyncApps.FirstPlan | BackupTools/Sync/SyncApp.cs:70-87 | the first backup's diff tags every live path Add and removes nothing |
| SyncApps.FirstRestore | BackupTools/SyncTests/SyncAppTests.cs:65-123 | restoring the first backup's archive onto an empty directory gives exactly the live files with their contents |
| SyncApps.StepPlan | BackupTools/Sync/SyncApp.cs:70-87 | without renames, a later diff removes the lost paths, adds every new path, adds only live paths, and leaves unadded only paths that are no newer |
| SyncApps.UnaddedNotNewer | BackupTools/Sync/Snapshot.cs:128-160 | without renames, a base path the listing holds and the diff does not add is no newer in the listing |
| SyncApps.UnaddedAt | BackupTools/Sync/Snapshot.cs:128-160 | for one base entry: without renames, a base path the diff does not add is no newer in the listing |
| SyncApps.RestoreStep | BackupTools/SyncTests/SyncAppTests.cs:80-147 | restoring a later backup's archive onto the chain's state gives exactly the live files, when no rename is detected and an unchanged time means unchanged content |
| SyncApps.BackupArchive | BackupTools/Sync/SyncApp.cs:84-135 | what the archive of a backup extracts to: the payload of its diff, nothing when it fails |
| SyncApps.Payload | BackupTools/Sync/SyncApp.cs:112-135 | at most one tar entry or logged error per diff entry, and none for a diff without Add entries |

## Left out

- **I/O and services.** The following are not modelled:
  - file, console and stream I/O;
  - JSON serialisation and gzip;
  - the tar format;
  - `async`;
  - the logger's info messages;
  - the archive service's responses.

  Instead, the file tree is a map from path to content. Listings and
  inventories are parameters, and the service calls, tar entries and
  logged errors are effect values. `Entry(FileInfo)` (the MD5 hash and the
  file metadata) is not modelled: live entries are given.
- **Reflection** in `ParseOptions` is replaced by a list of `Member`
  descriptions: the fields, then the properties. `Convert.ChangeType` is
  modelled for string, 32-bit and 64-bit integer targets only.
- **Character handling.** Case mapping covers ASCII letters only and is
  culture-invariant. `ToUpper()`/`ToLower()` in `TidyVaultApp.cs` and
  `StringExtensions.cs` use the current culture, so a Turkish culture
  maps `'i'` to `'İ'` there and not here. White space is space, tab, CR
  and LF. `Regex.Replace` is written out as recursion over the string.
- **StringExtensions.IndexFrom** matches the delimiter ordinally,
  character by character. `str.IndexOf(delim)` in `SplitFirst` is a
  culture-sensitive search, which does not match a delimiter followed by
  a combining mark. For such input (`"a|\u0301b"`, say) the source finds
  no delimiter and the model splits. `SplitFirst`, `CommandLine.Step`'s
  `--name=value` split and `Archives.DescriptionRoundTrip` therefore hold
  as stated only for fields that do not start with a combining mark.
- **Dates** are DateTime ticks as integers. `DateTime.UtcNow` is a `now`
  parameter, read once per operation.
- **StringExtensions.IfEmpty** follows the code. Inside the generic
  method, only null counts as empty, so `""` is kept. A reading in which an
  empty string triggers the fallback would disagree with the code.
- **Snapshots.Trim**: the trimmed snapshot is dated by the clock, as the
  fresh `Snapshot()` is.
- **SnapshotCollections.SnapshotCollection.BuildSnapshot** returns None
  where `Patch` would throw. That happens when the carried state has a
  duplicate path (`ToDictionary`) or a Move has no source.
- **ByteBuffers.ByteBuffer.Write** requires `size >= 0`. It also requires
  a non-zero capacity before data is written, because doubling an empty
  array never terminates in the source.
- **ByteBuffers.ByteBuffer.Grow**: capacities are unbounded integers.
  In the source, `bytes.Length * 2` is a 32-bit product. Past 2^30 bytes
  it overflows and the array allocation throws. The model never fails
  there, so `Write` always succeeds.
- **Archives.FromDescription** returns None when the ticks are outside
  the DateTime range, where the constructor throws. `FileName` splits on
  '/' only.
- **Archives tags**: the `HashSet` enumeration order is taken as
  first-insertion order.
- **MultipartBackups.MultipartBackupApp.PerformBackup** gives the chunks
  to `ProcessData` after the splitter has produced them, rather than
  interleaved with the reads. The effects are the same.
- **Run of MultipartBackupApp** is not modelled: choosing between the
  input file and redirected standard input is I/O.
- **TidyVault.Key**: a null name is read as "".
- **TidyVault.ReadInventory**: a null description is not modelled;
  descriptions are strings.
- **TidyVault.Plan**: the dictionary is enumerated in first-key order,
  and `OrderByDescending` is stable.
- **SyncApps.SyncApp.Backup**:
  - it takes the loaded collection and the live listing as arguments;
  - the output file is a relative path, compared with entry paths;
  - `Save` is recorded as a `SaveChain` effect.
- **SyncApps.Target** and **SyncApps.SyncApp.Restore**: an extracted
  name is cut after "snapshot/", that is at |"snapshot"| + 1 characters of
  the name relative to the extraction directory. The source cuts at the
  length of the full path of `<temp>/snapshot` plus one, applied to names
  that start with the archive path it was given. These agree only when
  `--path` is absolute. For a relative `--path` the source cuts at a
  different place, and the model does not capture that.
- **SyncApps.SyncApp.Restore**:
  - the extracted files and their enumeration order are parameters;
  - extraction errors are not modelled;
  - the deletion of the temporary directory is not modelled;
  - directories are only what `File.Move` and `Directory.CreateDirectory`
    need: a set of paths that exist. Removing files never removes a
    directory.
  - it is proved end to end (`FirstRestore`, `RestoreStep`) only for a
    diff without a detected rename. A diff with a Move is not covered:
    `RenameIntoMissingFolder` shows it can fail to restore a file.
- **Restored**: its own contract states only what any restore keeps (the
  log grows, unremoved and unmoved files stay). What it produces is stated
  by `FirstRestore` and `RestoreStep`, under their conditions.
