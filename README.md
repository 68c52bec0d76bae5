# megadvc lock model

A Dafny model of the snapshot ("lock") core of megadvc, a tool that keeps a
directory in sync with a remote store the way a version-control system would.

A lock maps the 32-byte BLAKE3 hash of each regular file's content to the
file's path, and carries a generation counter. Two locks are compared key by
key:
- a hash held by both at different paths is a move, reported as (old path, new path);
- a hash held only by the older lock is a deletion;
- a hash held only by the newer lock is an addition.

The local lock also keeps two staging sets: paths queued for addition and
paths queued for removal. It resolves them into the `staged` and `to_remove`
views by set difference. `update` rescans the root, moves to the next
generation, keeps the staging sets and hands back the previous lock. The `add`
and `remove` commands load `.mega.lock`, stage each requested path (stopping at
the first one that does not exist) and write the lock back only when every
step succeeded.

Modules:
- `Results` (results.dfy): Rust's `Option` and `Result`.
- `Lock` (lock.dfy): src/lock.rs. It holds the hash and path types, the diff
  functions over `map<Hash, Path>`, the scan (`hashed_files`) as a loop proved
  against a fold, and the `LocalLock` class.
- `Staging` (staging.dfy): what src/add.rs and src/remove.rs share. It holds the
  workspace they see, their error type and the function `Run` that gives one
  invocation's outcome, with the lemmas about it.
- `Add` (add.dfy) and `Remove` (remove.dfy): the two commands as loops over a
  freshly loaded `LocalLock`, each proved equal to `Run`.
- `Scenarios` (scenarios.dfy): clients of `LocalLock` that derive the staging
  promises from the method contracts alone.

Environment in the model:
- The directory walk is a parameter `tree: Path -> Walk`. A walk is the
  sequence of items WalkDir yields. Each item is an I/O error or an entry
  carrying its path, its metadata (regular file or not) and the result of
  reading it.
- BLAKE3 is a parameter `hash: seq<Byte> -> Hash`.
- The state of the working directory seen by `add` and `remove` is a
  `Workspace` value. It records whether `current_dir()` fails, whether
  `.mega.toml` exists, the state of `.mega.lock`, the set of existing paths and
  whether writing the lock fails.
- Whether `toml::to_string` succeeds is a parameter `serializes`.

Two consequences of the code's order of operations:
- A failed batch stages its earlier paths only in the in-memory lock
  (src/add.rs:39-44). The early return drops that lock, so `.mega.lock` is
  never rewritten. `Staging.ErrorKeepsLockFile` states this.
- The code stages each path as it goes, but what is written to disk is
  all-or-nothing, because the only write comes after the loop
  (src/add.rs:48-49).

## Model

| member | source | states |
|---|---|---|
| `Lock.Moved` | src/lock.rs:26-44 | every reported move has two different paths; the first is a path of the compared (older) lock and the second a path of the receiver |
| `Lock.MovedExactly` | src/lock.rs:32-43 | (from, to) is reported exactly when some hash is held by both locks, at `from` in the older one and at `to` in the receiver, and `from != to`; the old path comes first |
| `Lock.Deleted` | src/lock.rs:46-56 | deletions are paths of the older lock, and there are no more of them than hashes missing from the receiver |
| `Lock.Added` | src/lock.rs:58-67 | additions are paths of the receiver, and there are no more of them than hashes missing from the older lock |
| `Lock.AddedDeletedExactly` | src/lock.rs:46-67 | a path is deleted exactly when the older lock holds it under a hash the receiver lacks; it is added exactly when the receiver holds it under a hash the older lock lacks |
| `Lock.SelfDiffEmpty` | src/lock.rs:26-67 | diffing a lock against any lock with the same map reports no move, deletion or addition; every path is unchanged |
| `Lock.DiffDuality` | src/lock.rs:26-67 | swapping the two locks turns the additions into the deletions, reverses every move and keeps the unchanged paths |
| `Lock.DiffCoversNewLock` | src/lock.rs:26-44 | every path of the receiver is added, the target of a move, or unchanged, and only those |
| `Lock.DiffCoversOldLock` | src/lock.rs:26-56 | every path of the older lock is deleted, the source of a move, or unchanged, and only those |
| `Lock.DiffPartitionsNewLock` | src/lock.rs:26-44 | when no path of the receiver is held under two hashes, the added, moved-to and unchanged groups are pairwise disjoint, so with `DiffCoversNewLock` each path is in exactly one |
| `Lock.DiffPartitionsOldLock` | src/lock.rs:26-56 | when no path of the older lock is held under two hashes, the deleted, moved-from and unchanged groups are pairwise disjoint, so with `DiffCoversOldLock` each path is in exactly one |
| `Lock.SharedPathAddedAndMoved` | src/lock.rs:32-43 | without that hypothesis the groups overlap: a path held under two hashes, one of them also in the older lock at another path, is both added and the target of a move |
| `Lock.MoveDetected` | src/lock.rs:32-43 | the same content at a new path gives exactly one move (old path, new path) and no addition or deletion |
| `Lock.ContentChangeIsNotMove` | src/lock.rs:26-67 | new content at an old path gives one addition and one deletion of that path and no move |
| `Lock.ScanErrPersists` | src/lock.rs:107-113 | once the walk has failed, later items cannot change the result: the scan fails with the same error |
| `Lock.ScanFails` | src/lock.rs:104-117 | the scan fails exactly when some walked item fails (walk error, unreadable metadata, or a regular file that cannot be read), and it fails with the error of the first such item |
| `Lock.ScanLastWriterWins` | src/lock.rs:104-117 | a successful scan holds exactly the hashes of the regular files walked, and each hash maps to the path of the last file with that content |
| `Lock.SameContentKeepsLaterPath` | src/lock.rs:109-112 | two files with identical bytes collapse onto one entry, which keeps the later path |
| `Lock.ScanInjective` | src/lock.rs:104-117 | a successful scan of a walk that visits each path once holds every path under at most one hash, which is the hypothesis of the two partition lemmas |
| `Lock.HashedFiles` | src/lock.rs:104-117 | the scanning loop, with its early returns on error, gives exactly the fold `Scan` over the walk |
| `Lock.LocalLock.FromRecord` | src/lock.rs:86-93 | the lock built from a stored record holds exactly that record's fields |
| `Lock.LocalLock.FromPath` | src/lock.rs:120-131 | it fails exactly when the scan of the root fails, with that I/O error; otherwise it gives a fresh lock at generation 0 with the given root, empty staging sets and the scanned map |
| `Lock.LocalLock.Replace` | src/lock.rs:146 | the lock takes the new state, and a fresh lock holding the previous state is returned |
| `Lock.LocalLock.Update` | src/lock.rs:133-149 | it fails exactly when the rescan fails, and then the lock is unchanged; on success the returned lock is the pre-call state, and the lock has generation + 1, the new map, and the same root and staging sets |
| `Lock.LocalLock.Files` | src/lock.rs:151-153 | the path of every entry is listed, every listed path is some entry's, and there are no more paths than entries |
| `Lock.LocalLock.StageRemove` | src/lock.rs:155-157 | returns true iff the path was not yet queued for removal; the removal set gains the path and nothing else changes |
| `Lock.LocalLock.StageAdd` | src/lock.rs:159-161 | returns true iff the path was not yet queued for addition; the addition set gains the path and nothing else changes |
| `Lock.LocalLock.Staged` | src/lock.rs:163-165 | the view is inside the addition set, shares no path with the removal set, and misses only paths of the removal set |
| `Lock.LocalLock.ToRemove` | src/lock.rs:167-169 | the view is inside the removal set, shares no path with the addition set, and misses only paths of the addition set |
| `Lock.ResolvedViewsDisjoint` | src/lock.rs:163-169 | the two views never share a path; a path queued both ways is in neither; a path is in one of them iff it is queued exactly one way |
| `Staging.FirstAbsent` | src/add.rs:39-42 | the index returned is that of a path that does not exist, and every earlier path exists; no index means every path exists |
| `Staging.AbsentRepository` | src/add.rs:32-34 | without `.mega.toml` or `.mega.lock` the result is `Absent` and the workspace is untouched (src/remove.rs:32-34 alike) |
| `Staging.FirstAbsentPathReported` | src/add.rs:39-42 | if path i does not exist and all earlier ones do, the result is `FileAbsent` of path i and the workspace is untouched (src/remove.rs:39-42 alike) |
| `Staging.ErrorKeepsLockFile` | src/add.rs:36-49 | every error, including one after loading, leaves the stored lock as it was (src/remove.rs:36-49 alike) |
| `Staging.SuccessStagesEveryPath` | src/add.rs:26-52 | success iff the repository is present and readable, every path exists, and the staged lock serialises and is written; then the stored lock gains every requested path in the one set the command targets, and its root, generation, map and other set are unchanged (src/remove.rs:26-52 alike) |
| `Staging.FirstAbsentIgnoresRepeat` | src/add.rs:39-42 | repeating a path anywhere after its first occurrence leaves the check for missing paths passing or failing alike, and when it fails it reports the same path (src/remove.rs:39-42 alike) |
| `Staging.DuplicatePathNoEffect` | src/add.rs:39-44 | listing a path again, anywhere after its first occurrence, changes neither the outcome (including which missing path is reported) nor the stored lock, because staging is a set insert (src/remove.rs:39-44 alike) |
| `Staging.OrderIrrelevantOnSuccess` | src/add.rs:39-49 | when a command succeeds, any request listing the same set of paths gives the same outcome and stored lock |
| `Add.Add` | src/add.rs:26-52 | the command's loop over an in-memory `LocalLock`, with its early returns, gives exactly the outcome and workspace that `Staging.Run` prescribes for addition |
| `Remove.Remove` | src/remove.rs:26-52 | the same for removal, through `stage_remove` |
| `Scenarios.StageAddTwice` | src/lock.rs:159-161 | staging a path twice reports no insertion the second time and leaves the lock with that path added once |
| `Scenarios.StageBothWays` | src/lock.rs:155-169 | a path staged for both addition and removal is in neither resolved view, and the views of all other paths are unchanged |
| `Scenarios.StageThenRescan` | src/lock.rs:120-161 | scan, stage, rescan: it fails iff one of the two scans fails; otherwise the staged path survives the rescan, the new lock is at generation 1 with the second scan's map, and the old lock comes back at generation 0 |

## Left out

- BLAKE3 (src/lock.rs:96-102) is a function parameter from bytes to a 32-byte
  hash. Reading the file is folded into each walked entry's `contents`.
- WalkDir and `metadata()` (src/lock.rs:107-109) are the walk parameter. The
  walk's order and symlink handling belong to that parameter.
- TOML serialisation and deserialisation of the lock are not modelled.
  Loading gives the stored `LockRecord` unchanged, or `Malformed` for a
  `toml::from_slice` failure. `toml::to_string` is a predicate on the lock.
- `fs::write` is modelled as atomic: a failed write leaves `.mega.lock` as it
  was. A write that fails half-way is not modelled.
- How `current_dir()` is joined with `.mega.toml` and `.mega.lock` is not
  modelled. The workspace states directly whether each file exists.
- The `Lock` trait becomes diff functions over the `map<Hash, Path>` that
  both `RemoteLock` and `LocalLock` expose. The trait's `generation` accessor is
  the `generation` field, and the diff never uses it.
- Lock.LocalLock.Files, Lock.LocalLock.Staged and Lock.LocalLock.ToRemove
  return sets. The source returns iterators: `files` yields one item per entry
  in HashMap order, and duplicate paths collapse in the model.
- Lock.LocalLock.StageAdd, Lock.LocalLock.StageRemove, Lock.LocalLock.Staged,
  Lock.LocalLock.ToRemove, Lock.Moved and the `Staging` sets compare paths as
  strings. Rust's `PathBuf` compares and hashes by components, so `docs/a.txt`,
  `docs/./a.txt` and `docs//a.txt` are one path in the source and three in the
  model. After `add docs/a.txt` and `remove docs/./a.txt`, the source's
  `staged` and `to_remove` both drop the path, while the model keeps one
  spelling in each view. Likewise a second `stage_add("docs//a.txt")` returns
  false in the source and true in the model. The model's promises hold for
  paths given in one normal form; the normalisation is not modelled.
- Lock.LocalLock.Update: `generation` is a `nat`. The wrap or panic of `usize`
  at 2^64 is not modelled because no run can reach it.
- The disabled `StagedChanges` guard of `update` (src/lock.rs:134-136) is not
  enforced. `LockError.StagedChanges` and `CommandError.LockFailed` exist but are
  never produced, as in the source.
- The `log::info!` lines of src/add.rs and src/remove.rs are not modelled.
- src/status.rs, src/init.rs, src/megacmd.rs, src/options.rs and src/main.rs
  are not part of this model. They are terminal output, setup and subprocess
  plumbing, configuration getters and CLI dispatch. The `push` module named in
  src/lib.rs is not part of this model.
