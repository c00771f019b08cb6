# folder-sync, modelled in Dafny

`folder-sync.py` keeps a destination photo folder in step with several source folders. Each
source is either a local directory or a Nextcloud tag. Media files get a symlink under
`dest_root/<source>/<relative path>`. In a source that filters media and quarantines,
every other file is moved under `quarantine_root`. The script keeps incremental state in
the SQLite table `files`, keyed by `source_path`. When a file leaves its source, `cleanup`
removes the stale link and prunes the directories that became empty.

This project models the bookkeeping core of that script:

- **`classify.dfy` (`Classify`):** the per-file decisions. These are `is_media`,
  `filetype_restricted` and `file_has_changed`, together with the extension rule of
  `pathlib` behind them.
- **`state_db.dfy` (`StateDb`):** the `files` table as a map from `source_path` to a row.
  The reset, upsert and marker statements of `sync_source`, and the `UPDATE` of
  `cleanup`, are written as functions from the table before to the table after. The
  lemmas say what a whole run of `sync_source` or `cleanup` leaves in the table.
- **`dir_tree.dfy` (`DirTree`):** the directories and files under the roots. The
  `FileSystem` class has:
  - `Unlink`;
  - `Place`, the effect of `apply_file_action`, specified by the function `Placed`, with
    `Ancestors` for the directories `mkdir(parents=True)` creates;
  - the `PruneEmptyDirs` loop, specified by the function `Prune`.
- **`folder_sync.dfy` (`FolderSync`):**
  - the `StateStore` class, whose methods update the table in place with the loops of
    `upsert_file_record`, `sync_source` and `cleanup`, each proved equal to the
    corresponding `StateDb` function;
  - the choice of sources in `main`;
  - one run of `main`: sync each chosen source, then clean up.
- **`nextcloud_api.dfy` (`NextcloudApi`):** the response parsing of `nc_tag_id`,
  `nc_tag_relations` and `nc_node_meta`, with round trips from a well-formed server
  response back to the values in it.
- **`text.dfy` (`Text`):** the Python string operations the script relies on: `in`,
  `find`, `rfind`, `split`, `join`, `strip`, `lstrip` and `lower`.
- **`paths.dfy` (`Paths`):** the `pathlib` operations: `parent`, `name`, `suffix` and `/`.
- **`wrappers.dfy` (`Wrappers`):** `Option` and `Result`.

Paths are sequences of components, and `[]` is "/".

Several functions carry no contract of their own; the lemmas about them do:

- `Classify.IsMedia` is `is_media`, the extension test on `Classify.Extension`.
- `StateDb.Step` is one iteration of the loop of `sync_source`.
- `StateDb.Run` is the whole loop, and `StateDb.SyncResult` is the reset followed by the loop.
- `StateDb.CleanupRows` is the `UPDATE` of `cleanup` for every stale row.
- In `FolderSync`:
  - `PlaceAll` applies file actions in order;
  - `RowCleaned` is one stale row's unlink and prune;
  - `CleanedTree` handles rows one by one in a given order.

The outside world comes in as parameters:

- **An entry's observation:** whether the entry is stable, whether its destination
  exists, and the clock value `upsert_file_record` reads. These come as an `Observation`
  per entry.
- **The entry lists `gather` returns for each source.**
- **The HTTP status and response text.**
- **`now` for `cleanup`.**
- **The `locked` directories:** the set of directories whose listing or removal raises
  `OSError`.

## Model

All sources are in `packages/folder-sync/folder-sync.py`.

| member | source | states |
|---|---|---|
| Classify.FiletypeRestricted | packages/folder-sync/folder-sync.py:73-79 | A file is quarantined exactly when its source has both `filter_media` and `quarantine` set and its extension is in neither the image nor the video list. With either flag off it is never quarantined. |
| Classify.ExtensionOfName | packages/folder-sync/folder-sync.py:34-37 | The extension of `dir/stem.tail` is `tail` lower-cased, with the dot stripped. |
| Classify.ExtensionWithoutDot | packages/folder-sync/folder-sync.py:34-37 | A name without a dot after its first character has the empty extension. This covers dot-files such as `.hidden`. |
| Classify.ClassificationIgnoresCase | packages/folder-sync/folder-sync.py:34-37 | Two names equal up to ASCII case get the same extension, the same media verdict and the same quarantine verdict. |
| Classify.SuffixOfLower | packages/folder-sync/folder-sync.py:35 | `suffix` of the lower-cased name is the lower-cased `suffix`. |
| Classify.FileHasChanged | packages/folder-sync/folder-sync.py:81-86 | A file counts as changed iff the table has no row for it or the stored `(mtime, size)` differs from the observed pair. |
| StateDb.ResetSource | packages/folder-sync/folder-sync.py:297-300 | Exactly the rows whose `source_name` is this source get both markers cleared. No row is added or removed, other rows are unchanged, and no other column changes. |
| StateDb.Upsert | packages/folder-sync/folder-sync.py:137-157 | The row of `ap` is present afterwards, stores the new stamp and has `exists_in_source`, `last_check` and `quarantined` set. A new row belongs to this source, with its relative path and no destination marker. An existing row keeps its source, type, relative path and destination marker. Every other row is unchanged. |
| StateDb.UpsertSettles | packages/folder-sync/folder-sync.py:137-157 | After an upsert, the same observation no longer counts as changed. |
| StateDb.Actions | packages/folder-sync/folder-sync.py:331-342 | The loop makes at most one file action per entry, and each is the action for a stable entry. |
| StateDb.ActedKeys | packages/folder-sync/folder-sync.py:331-348 | Every path the loop acts on is the path of a stable observed entry. |
| StateDb.SeenKeys | packages/folder-sync/folder-sync.py:331-353 | Every path that reaches `exists_in_source=1` is an observed entry that is stable or whose destination exists. |
| StateDb.StepFacts | packages/folder-sync/folder-sync.py:323-353 | One iteration adds a row only when it acts. It sets the destination marker only when it acts, and the source marker only when it does not skip. It keeps the identity of existing rows and changes no row but the entry's own. |
| StateDb.RunFacts | packages/folder-sync/folder-sync.py:312-353 | After the loop, the keys are the old keys plus the acted-on paths. A row has the destination marker iff its path was acted on or it had the marker, and the source marker iff its path was not skipped or it had the marker. Existing rows keep source, type and relative path. New rows belong to this source. |
| StateDb.RunKeys | packages/folder-sync/folder-sync.py:312-348 | After the loop, the keys are the old keys plus the acted-on paths. Existing rows keep their identity, and new rows belong to this source. |
| StateDb.RunDestMarker | packages/folder-sync/folder-sync.py:312-348 | After the loop, the destination marker is set iff the path was acted on or the row had it. |
| StateDb.RunSourceMarker | packages/folder-sync/folder-sync.py:312-353 | After the loop, the source marker is set iff the path was not skipped or the row had it. |
| StateDb.RunLeavesOthers | packages/folder-sync/folder-sync.py:312-353 | A row whose path no entry has comes out of the loop unchanged. |
| StateDb.ActionsAreActed | packages/folder-sync/folder-sync.py:339-342 | The paths the file actions come from are exactly the acted-on paths. |
| StateDb.StableSettles | packages/folder-sync/folder-sync.py:323-348 | After a stable entry's iteration, the same entry observed again with its destination present needs no action. |
| StateDb.SyncMarkers | packages/folder-sync/folder-sync.py:297-353 | After `sync_source`, the destination marker is set iff the path was acted on or the row belongs to another source and had it. The source marker is set iff the path was not skipped or the row belongs to another source and had it. |
| StateDb.SyncLeavesOtherSources | packages/folder-sync/folder-sync.py:297-353 | A row of another source that no entry names is unchanged by `sync_source`. |
| StateDb.UnstableLosesSourceMarker | packages/folder-sync/folder-sync.py:323-336 | Take a row of this source whose entry, every time it is seen, is unstable and needs action: its destination is missing, or its stamp differs from the row's. The row ends with both markers cleared. |
| StateDb.UnstableNeverSeen | packages/folder-sync/folder-sync.py:323-336 | An entry that is unstable and needs action every time it is seen is never acted on and never marked seen, and its row comes out of the loop unchanged. |
| StateDb.UnchangedNeverActed | packages/folder-sync/folder-sync.py:323-331 | An entry that always has its stored stamp and its destination present is never acted on, so its stamp stays. |
| StateDb.UnchangedLosesDestMarker | packages/folder-sync/folder-sync.py:297-353 | An unchanged file whose destination exists ends with `exists_in_source=1` but `exists_in_dest=0`. |
| StateDb.SeenOnce | packages/folder-sync/folder-sync.py:331-353 | An unchanged entry seen with its destination present is not skipped. |
| StateDb.StaleKeys | packages/folder-sync/folder-sync.py:399-404 | The stale rows are exactly the rows with `exists_in_source=0`. |
| StateDb.TouchFile | packages/folder-sync/folder-sync.py:417-421 | Exactly the rows with that source name and relative path get `exists_in_dest=0` and `mtime=now`. Nothing else changes. |
| StateDb.TouchAllStep | packages/folder-sync/folder-sync.py:406-421 | Touching one more stale row's `(source_name, relative_path)` extends the set of handled rows by that row. |
| StateDb.RowDest | packages/folder-sync/folder-sync.py:407-408 | A row's destination lies strictly below its root. |
| StateDb.LinksStep | packages/folder-sync/folder-sync.py:410-413 | Handling one more stale row adds its link to the unlinked destinations, unless the row is quarantined. |
| StateDb.CleanupFacts | packages/folder-sync/folder-sync.py:399-421 | `cleanup` deletes no row and never changes `exists_in_source`. It changes only `exists_in_dest` (to 0) and `mtime` (to `now`). It changes exactly the rows that share source name and relative path with a stale row, every stale row included. |
| StateDb.CleanupOnlyStale | packages/folder-sync/folder-sync.py:399-421 | When no live row shares source name and relative path with a stale row, `cleanup` changes stale rows only. |
| StateDb.CleanupTouchesLiveTwin | packages/folder-sync/folder-sync.py:417-421 | Any stale row with the same source name and relative path as a live row, under a different `source_path`, makes `cleanup` clear the live row's destination marker and set its `mtime` to `now`. The live row keeps its source marker. |
| StateDb.CleanupUnlinksLiveTwin | packages/folder-sync/folder-sync.py:406-413 | Such a stale row also makes `cleanup` unlink the live row's link. |
| StateDb.CleanupIdempotent | packages/folder-sync/folder-sync.py:399-421 | Running `cleanup` twice at the same time leaves the table of running it once. |
| DirTree.Prune | packages/folder-sync/folder-sync.py:369-383 | The pruned directories are a subset of the directories before. |
| DirTree.PruneRemovesChain | packages/folder-sync/folder-sync.py:369-383 | Every directory removed is the start or an ancestor of it, is not `root`, is not locked, and held no file and no directory that was not removed too. The removed directories form a contiguous chain upwards. |
| DirTree.PruneStops | packages/folder-sync/folder-sync.py:372-381 | The walk stops at the first directory that is not removable: the start if nothing was removed, otherwise the parent of the topmost removed directory. |
| DirTree.PruneKeepsParents | packages/folder-sync/folder-sync.py:369-383 | Pruning keeps the parent of every remaining entry in place. |
| DirTree.PruneBelowRoot | packages/folder-sync/folder-sync.py:369-383 | Starting from a leaf below `root`, every removed directory lies strictly between `root` and the leaf. Neither `root` nor the leaf is removed. |
| DirTree.PruneWithin | packages/folder-sync/folder-sync.py:371-372 | A walk that starts at or below `root` never removes anything at or above it. |
| DirTree.PruneKeepsHolders | packages/folder-sync/folder-sync.py:369-383 | A directory that holds a file is never pruned. |
| DirTree.Ancestors | packages/folder-sync/folder-sync.py:91-92 | `mkdir(parents=True)` on a destination's parent creates exactly the proper prefixes of the destination. |
| DirTree.AncestorsClosed | packages/folder-sync/folder-sync.py:91-92 | The created directories include the destination's parent and are closed under taking the parent. |
| DirTree.Placed | packages/folder-sync/folder-sync.py:89-111 | Take a file action whose destination is not a directory and has no file above it. Afterwards the destination is a file and the new directories are exactly its proper prefixes. The source disappears when it is moved. Any other file is present iff it was before. When the destination is blocked, the tree is unchanged. |
| DirTree.FileSystem.Unlink | packages/folder-sync/folder-sync.py:411-413 | The path is no longer a file or link. Directories are unchanged. |
| DirTree.FileSystem.Place | packages/folder-sync/folder-sync.py:89-111 | The tree becomes `Placed` of the old tree, is still well formed, and keeps its locked directories. |
| DirTree.FileSystem.PruneEmptyDirs | packages/folder-sync/folder-sync.py:365-383 | The loop leaves exactly the directories `Prune` gives, keeps the tree well formed, and changes no file. |
| FolderSync.StateStore.Open | packages/folder-sync/folder-sync.py:467-468 | Opening the database keeps an existing table as it is. |
| FolderSync.StateStore.UpsertFileRecord | packages/folder-sync/folder-sync.py:137-157 | The table becomes `Upsert` of the old table. The caller's row argument is `None` exactly when the table has no row for `ap`. |
| FolderSync.StateStore.SyncEntry | packages/folder-sync/folder-sync.py:323-353 | One iteration of the loop body. The table becomes `Step` of the old table. There is one file action exactly when the entry is acted on, and the tree becomes that action applied to the old tree. |
| FolderSync.StateStore.ActOn | packages/folder-sync/folder-sync.py:337-348 | The acting branch: the table becomes the upsert followed by the destination marker. The file action is `ActionFor` the entry, and the tree is the old tree with that action applied. |
| FolderSync.StateStore.MarkDestination | packages/folder-sync/folder-sync.py:345-348 | Only the row of that path gets `exists_in_dest=1`. |
| FolderSync.StateStore.MarkSeen | packages/folder-sync/folder-sync.py:350-353 | Only the row of that path gets `exists_in_source=1`. |
| FolderSync.StateStore.SyncSource | packages/folder-sync/folder-sync.py:289-362 | The table becomes `SyncResult` of the old table: the reset, then the loop. The file actions are `Actions` of the reset table, and the tree is the old tree with those actions applied in order. |
| FolderSync.StateStore.CleanupRow | packages/folder-sync/folder-sync.py:406-421 | One stale row: its destination is unlinked unless it is quarantined. The directories become exactly `Prune` from the destination's parent up to its root, and only directories strictly between the root and the destination go. The rows with its source name and relative path are touched. |
| FolderSync.StateStore.Cleanup | packages/folder-sync/folder-sync.py:390-423 | The table becomes `CleanupRows` of the old table. Exactly the links of the non-quarantined stale rows are gone. Every removed directory lies strictly between a stale row's root and its destination. The loop takes each stale row exactly once, in some order, and the tree is `CleanedTree` of the old tree in that order. |
| FolderSync.StateStore.SyncSources | packages/folder-sync/folder-sync.py:470-471 | Syncing the chosen sources in order gives `SyncAll` and the concatenated file actions. The tree is the old tree with all those actions applied in order. |
| FolderSync.PlaceAllAppend | packages/folder-sync/folder-sync.py:470-471 | Applying two runs of actions one after the other is applying the joined run. |
| FolderSync.Named | packages/folder-sync/folder-sync.py:458 | The filtered list holds only sources with that name, each as often as in the configuration. |
| FolderSync.NamedAppend | packages/folder-sync/folder-sync.py:458 | Filtering a joined list gives the joined filtered parts. |
| FolderSync.NamedKeepsOrder | packages/folder-sync/folder-sync.py:458 | A source with the name keeps its place between the filtered sources before and after it. A source without the name is dropped. |
| FolderSync.SelectSources | packages/folder-sync/folder-sync.py:454-462 | A missing or empty name, or `timer`, selects all sources. Otherwise the selection is `Named`: the sources with that name, in configuration order. It fails, naming the missing source, iff there are none, and a success is never empty. |
| FolderSync.RunOnce | packages/folder-sync/folder-sync.py:453-473 | A failed selection changes nothing. Otherwise each chosen source is synced and its file actions placed in order, then `cleanup` runs on the result. The table becomes `CleanupRows` of the synced table. The files are the placed files less the stale links. Every removed directory lies strictly between a stale row's root and its destination. The tree is `CleanedTree` of the placed tree, taking each stale row once. |
| NextcloudApi.NcTagId | packages/folder-sync/folder-sync.py:173-178 | `None` iff no `<d:response>` block holds both the exact display-name element and `<oc:id>`. Otherwise the result is the id of the first block that holds both. |
| NextcloudApi.FirstTagId | packages/folder-sync/folder-sync.py:173-178 | The loop over the blocks returns `None` iff no block holds both the display-name element and `<oc:id>`. Otherwise it returns the id of the first block that does. |
| NextcloudApi.NcTagRelations | packages/folder-sync/folder-sync.py:190-195 | The loop yields `IdsIn` of the blocks: one id per block holding `<oc:id>`, in block order. |
| NextcloudApi.IdsIn | packages/folder-sync/folder-sync.py:190-195 | There are never more ids than blocks. |
| NextcloudApi.IdsInAppend | packages/folder-sync/folder-sync.py:191-194 | The ids of concatenated blocks are the concatenated ids. |
| NextcloudApi.IdsInNone | packages/folder-sync/folder-sync.py:192 | Blocks without `<oc:id>` yield no id. |
| NextcloudApi.IdsInEvery | packages/folder-sync/folder-sync.py:191-194 | When every block holds `<oc:id>`, there is exactly one id per block, in block order. |
| NextcloudApi.NcNodeMeta | packages/folder-sync/folder-sync.py:209-220 | `None` iff the status is 400 or above or the response lacks `<oc:meta-path>`. Otherwise the path is the meta path joined onto the local root, and "folder" holds iff `<d:collection/>` occurs. |
| NextcloudApi.BetweenTags | packages/folder-sync/folder-sync.py:217 | Take a text with no opening tag before the first one, enclosed text without `<`, and two distinct tags. The split-and-strip extraction reads back that enclosed text, stripped. |
| NextcloudApi.IdOfElement | packages/folder-sync/folder-sync.py:192-193 | An `<oc:id>` element holding a plain id reads back as that id. |
| NextcloudApi.IdsOfElements | packages/folder-sync/folder-sync.py:191-194 | One `<oc:id>` element per id reads back as those ids. |
| NextcloudApi.BlocksOfResponse | packages/folder-sync/folder-sync.py:191 | A head without `<d:response>`, followed by one response per id, splits back into exactly those blocks. |
| NextcloudApi.RelationsRoundTrip | packages/folder-sync/folder-sync.py:190-195 | A response whose head has neither `<d:response>` nor `<oc:id>`, followed by one response per id, yields exactly those ids, in order. |
| NextcloudApi.NodeMetaRoundTrip | packages/folder-sync/folder-sync.py:209-220 | A successful response whose first `<oc:meta-path>` holds the components of a relative path gives the local root extended by those components. It reports a folder iff `<d:collection/>` occurs. |
| NextcloudApi.TagUnbordered | packages/folder-sync/folder-sync.py:191 | A tag cannot overlap itself, so splitting on a response tag is undone by joining with it. |
| NextcloudApi.NoTagInElement | packages/folder-sync/folder-sync.py:191 | An id element holds no `<d:response>`. |
| Text.Find | packages/folder-sync/folder-sync.py:174-176 | `find` returns the first occurrence, and `None` iff the pattern does not occur. |
| Text.LastIndexOf | packages/folder-sync/folder-sync.py:35 | `rfind` returns the last index holding the character, and `None` iff the character does not occur. |
| Text.Split | packages/folder-sync/folder-sync.py:191-193 | `split` always yields at least one piece, and more than one iff the separator occurs. No piece contains the separator, and joining the pieces gives the text back. |
| Text.SplitHead | packages/folder-sync/folder-sync.py:193 | The first piece of a split is the text before the first separator. |
| Text.SplitJoin | packages/folder-sync/folder-sync.py:191 | Splitting a join of separator-free parts on a non-overlapping separator gives the parts back. |
| Text.Strip | packages/folder-sync/folder-sync.py:217 | `strip` yields the slice that neither starts nor ends with whitespace, with only whitespace cut off on either side. |
| Text.StripKeeps | packages/folder-sync/folder-sync.py:217 | `strip` leaves text without surrounding whitespace unchanged. |
| Text.TrimLeading | packages/folder-sync/folder-sync.py:35 | `lstrip('.')` drops exactly the leading dots. |
| Text.Lower | packages/folder-sync/folder-sync.py:35 | `lower` keeps the length, maps each ASCII upper-case letter to its lower-case partner, and keeps every other character. |
| Paths.Suffix | packages/folder-sync/folder-sync.py:35 | `suffix` is empty, or is a proper tail of the name whose only `.` is its first character, after a non-empty stem. |
| Paths.SuffixOf | packages/folder-sync/folder-sync.py:35 | `stem.tail` has suffix `.tail`. |
| Paths.NoSuffix | packages/folder-sync/folder-sync.py:35 | A name with no dot after its first character has no suffix. |
| Paths.JoinPath | packages/folder-sync/folder-sync.py:220 | `root / rel` appends the components of `rel` to `root`, or replaces `root` when `rel` starts with `/`. |
| Paths.JoinPathRoundTrip | packages/folder-sync/folder-sync.py:220 | Joining components written with `/` between them onto a root appends exactly those components. |

## Left out

- `packages/folder-sync/generate-path-units.py`. It reads YAML and writes systemd unit
  files, so there is no bookkeeping in it.
- HTTP and Nextcloud authentication.
  - `requests.request`, `raise_for_status` and the exception it raises are not modelled.
  - `NcTagId` and `NcTagRelations` take the response text.
  - `NcNodeMeta` takes the status code and the text.
- `FolderSync.RunOnce`: the entries of a source come from `gather`, a fixed function of
  the source's configuration entry: name, kind, `path`, `tag` and flags. Two identical
  entries therefore see the same files. A file moved into quarantine by an earlier sync
  in the same run is not removed from a later source's entries.
- `gather_entries` and `gather_nc_tagged` are left out: directory walking, `stat`,
  `relative_to` and `expanduser`. This includes the `if not tagid` test, which also treats
  an empty id as a missing tag. Their result comes in as the observation list per source
  (`gather` in `RunOnce`).
- `is_stable` depends on timing (`time.time`, `time.sleep` and float `mtime`). It comes in
  as the `stable` field of an observation.
- `DirTree.Placed`: a blocked destination leaves the tree unchanged. A destination is
  blocked when it is a directory or has a file above it. The source aborts the whole run
  in most blocked cases. When a file sits two or more levels above the destination,
  `mkdir(parents=True)` raises. Otherwise a non-quarantined file raises at the second
  `unlink` or at `symlink`. Only a quarantined file whose destination is a directory or
  whose parent is a file fails its `rename` with the error caught, leaving the tree
  unchanged as modelled. The abort is not modelled.
- `DirTree.FileSystem.Place`: the same blocked cases as `DirTree.Placed`. The tree is
  left unchanged where the source would abort the run.
- `DirTree.FileSystem.Place`: the move always succeeds when the destination is not
  blocked. Permissions, a missing source file and the `locked` directories do not stop it.
  Source files outside the tree are not tracked.
- `FolderSync.StateStore.SyncEntry`: the observation's `destExists` stands for
  `dest.exists()` and is not read from the tree. A dangling link and a live one are not
  told apart; either ends as the new link.
- The `fcntl` lock in `main` guards against concurrent runs. Concurrency is outside the
  model.
- The SQLite engine, cursors, `commit` and rollback are not modelled; the table is a map,
  and every statement applies at once.
- The `id` column is never read by the script and is not modelled.
- The re-`SELECT` at the end of each loop iteration of `sync_source` is not modelled,
  because its result is never used.
- YAML loading, `argparse`, `tqdm` and `print` are not modelled. `argparse` is reduced to
  the `--source` argument as an `Option<string>`.
- Path strings are not modelled.
  - A path is a sequence of components, and a source name is taken as one component.
  - The POSIX `//` root and `Path.resolve` are not modelled.
- `Text.Lower`: lower-cases ASCII letters only. Python's `str.lower` also maps non-ASCII
  letters, so an extension such as `.JPG` written with non-ASCII letters is not covered.
- `Classify.Extension` inherits the ASCII-only `Lower`.
- `DirTree.FileSystem.Unlink`: a directory at a destination path is not modelled. There,
  `unlink` would raise and abort `cleanup`.
- `DirTree.FileSystem.PruneEmptyDirs`: dangling and live symlinks are not distinguished.
  Any link counts as an entry that exists.
- `NextcloudApi.NcTagId` has no round trip from a generated response. Its contract
  states the first matching block directly.
