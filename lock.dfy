/** Model of src/lock.rs: content-addressed snapshots ("locks") of a directory
    tree, the scan that builds them, the diff between two of them, and the
    local lock with its two staging sets. */
module Lock {
  import opened Results

  newtype Byte = x: int | 0 <= x < 256

  /** A BLAKE3 digest: 32 bytes. */
  type Hash = s: seq<Byte> | |s| == 32 witness seq(32, _ => 0)

  type Path = string

  /** What every lock exposes (`Lock::files_map`): content hash to the path
      that held that content when the lock was taken. */
  type FilesMap = map<Hash, Path>

  /** An `io::Error`; the code stands for its kind and message. */
  datatype IoError = IoError(code: nat)

  /** `LockError`. `StagedChanges` belongs to the disabled guard of `update`
      and is never produced. */
  datatype LockError = Io(error: IoError) | StagedChanges

  /** A lock read from elsewhere, only ever compared against. */
  datatype RemoteLock = RemoteLock(generation: nat, files: FilesMap)

  /** Every field of a `LocalLock`: what `.mega.lock` stores. */
  datatype LockRecord = LockRecord(path: Path, generation: nat, remove: set<Path>, add: set<Path>, files: FilesMap)

  // ---------------------------------------------------------------------
  // Diff (`Lock::moved`, `Lock::deleted`, `Lock::added`). `files` is the
  // receiver's map (the newer lock), `other` the lock compared against.
  // ---------------------------------------------------------------------

  /** Hashes present in both locks whose paths differ, as (other's path, own path). */
  function Moved(files: FilesMap, other: FilesMap): (r: set<(Path, Path)>)
    ensures forall pair :: pair in r ==> pair.0 != pair.1 && pair.0 in other.Values && pair.1 in files.Values
  {
    set h | h in files && h in other && files[h] != other[h] :: (other[h], files[h])
  }

  /** Paths, as `other` records them, of hashes that `files` no longer holds. */
  function Deleted(files: FilesMap, other: FilesMap): (r: set<Path>)
    ensures r <= other.Values
    ensures |r| <= |other.Keys - files.Keys|
  {
    ImageBound(other, other.Keys - files.Keys);
    Image(other, other.Keys - files.Keys)
  }

  /** Paths, as `files` records them, of hashes that `other` does not hold. */
  function Added(files: FilesMap, other: FilesMap): (r: set<Path>)
    ensures r <= files.Values
    ensures |r| <= |files.Keys - other.Keys|
  {
    ImageBound(files, files.Keys - other.Keys);
    Image(files, files.Keys - other.Keys)
  }

  /** Paths of hashes held by both locks at the same path. The source has no
      such operation; it names the fourth outcome of a diff. */
  function Unchanged(files: FilesMap, other: FilesMap): set<Path>
  {
    set h | h in files && h in other && files[h] == other[h] :: files[h]
  }

  /** The path sets of `ks`'s entries in `m`. */
  function Image(m: FilesMap, ks: set<Hash>): set<Path>
    requires ks <= m.Keys
  {
    set h | h in ks :: m[h]
  }

  /** Mapping a set of hashes to paths never yields more paths than hashes. */
  lemma {:induction false} ImageBound(m: FilesMap, ks: set<Hash>)
    requires ks <= m.Keys
    ensures |Image(m, ks)| <= |ks|
    decreases |ks|
  {
    if ks != {} {
      var h :| h in ks;
      var rest := ks - {h};
      ImageBound(m, rest);
      assert Image(m, ks) == Image(m, rest) + {m[h]};
    }
  }

  /** The membership promised by `moved`: exactly the pairs (old path, new path)
      of hashes in both maps whose paths differ. */
  lemma MovedExactly(files: FilesMap, other: FilesMap, from: Path, to: Path)
    ensures (from, to) in Moved(files, other) <==>
      exists h :: h in files && h in other && other[h] == from && files[h] == to && from != to
  {
  }

  /** The membership promised by `deleted` and `added`. */
  lemma AddedDeletedExactly(files: FilesMap, other: FilesMap, p: Path)
    ensures p in Deleted(files, other) <==> exists h :: h in other && h !in files && other[h] == p
    ensures p in Added(files, other) <==> exists h :: h in files && h !in other && files[h] == p
  {
  }

  /** A lock diffed against itself, or against any lock with the same map,
      reports nothing. */
  lemma SelfDiffEmpty(files: FilesMap, other: FilesMap)
    requires files == other
    ensures Moved(files, other) == {}
    ensures Deleted(files, other) == {}
    ensures Added(files, other) == {}
    ensures Unchanged(files, other) == files.Values
  {
  }

  /** The moves with their two paths exchanged. */
  function Reversed(moves: set<(Path, Path)>): set<(Path, Path)>
  {
    set pair | pair in moves :: (pair.1, pair.0)
  }

  /** The old paths of some moves. */
  function Sources(moves: set<(Path, Path)>): set<Path>
  {
    set pair | pair in moves :: pair.0
  }

  /** The new paths of some moves. */
  function Targets(moves: set<(Path, Path)>): set<Path>
  {
    set pair | pair in moves :: pair.1
  }

  /** Swapping the two locks turns additions into deletions, reverses every
      move and keeps the unchanged paths. */
  lemma DiffDuality(files: FilesMap, other: FilesMap)
    ensures Deleted(files, other) == Added(other, files)
    ensures Moved(other, files) == Reversed(Moved(files, other))
    ensures Unchanged(other, files) == Unchanged(files, other)
  {
  }

  /** Each path of the new lock is added, the target of a move, or unchanged. */
  lemma DiffCoversNewLock(files: FilesMap, other: FilesMap)
    ensures files.Values == Added(files, other) + Targets(Moved(files, other)) + Unchanged(files, other)
  {
    var moved := Moved(files, other);
    forall p | p in files.Values
      ensures p in Added(files, other) + Targets(moved) + Unchanged(files, other)
    {
      var h :| h in files && files[h] == p;
      if h !in other {
        assert p in Added(files, other);
      } else if files[h] != other[h] {
        assert (other[h], files[h]) in moved;
        assert p in Targets(moved);
      } else {
        assert p in Unchanged(files, other);
      }
    }
    forall p | p in Unchanged(files, other) ensures p in files.Values {
      var h :| h in files && h in other && files[h] == other[h] && p == files[h];
    }
  }

  /** Each path of the old lock is deleted, the source of a move, or unchanged. */
  lemma DiffCoversOldLock(files: FilesMap, other: FilesMap)
    ensures other.Values == Deleted(files, other) + Sources(Moved(files, other)) + Unchanged(files, other)
  {
    var moved := Moved(files, other);
    forall p | p in other.Values
      ensures p in Deleted(files, other) + Sources(moved) + Unchanged(files, other)
    {
      var h :| h in other && other[h] == p;
      if h !in files {
        assert p in Deleted(files, other);
      } else if files[h] != other[h] {
        assert (other[h], files[h]) in moved;
        assert p in Sources(moved);
      } else {
        assert p in Unchanged(files, other);
      }
    }
    forall p | p in Unchanged(files, other) ensures p in other.Values {
      var h :| h in files && h in other && files[h] == other[h] && p == files[h];
      assert other[h] == p;
    }
  }

  /** No two hashes of `m` share a path. */
  predicate Injective(m: FilesMap)
  {
    forall h1, h2 :: h1 in m && h2 in m && m[h1] == m[h2] ==> h1 == h2
  }

  /** When no path of the new lock is held under two hashes, each of its paths
      is in exactly one of the added, moved-to and unchanged groups. */
  lemma DiffPartitionsNewLock(files: FilesMap, other: FilesMap)
    requires Injective(files)
    ensures Added(files, other) !! Targets(Moved(files, other))
    ensures Added(files, other) !! Unchanged(files, other)
    ensures Targets(Moved(files, other)) !! Unchanged(files, other)
  {
    var moved := Moved(files, other);
    forall pair | pair in moved
      ensures pair.1 !in Added(files, other) && pair.1 !in Unchanged(files, other)
    {
      var h :| h in files && h in other && files[h] != other[h] && pair == (other[h], files[h]);
      AddedDeletedExactly(files, other, pair.1);
    }
    forall p | p in Added(files, other) ensures p !in Unchanged(files, other) {
      AddedDeletedExactly(files, other, p);
      var h :| h in files && h !in other && files[h] == p;
    }
  }

  /** When no path of the old lock is held under two hashes, each of its paths
      is in exactly one of the deleted, moved-from and unchanged groups. */
  lemma DiffPartitionsOldLock(files: FilesMap, other: FilesMap)
    requires Injective(other)
    ensures Deleted(files, other) !! Sources(Moved(files, other))
    ensures Deleted(files, other) !! Unchanged(files, other)
    ensures Sources(Moved(files, other)) !! Unchanged(files, other)
  {
    var moved := Moved(files, other);
    forall pair | pair in moved
      ensures pair.0 !in Deleted(files, other) && pair.0 !in Unchanged(files, other)
    {
      var h :| h in files && h in other && files[h] != other[h] && pair == (other[h], files[h]);
      AddedDeletedExactly(files, other, pair.0);
    }
    forall p | p in Deleted(files, other) ensures p !in Unchanged(files, other) {
      AddedDeletedExactly(files, other, p);
      var h :| h in other && h !in files && other[h] == p;
    }
  }

  /** Without that hypothesis the groups can overlap: a path held under two
      hashes can be both added and the target of a move. */
  lemma SharedPathAddedAndMoved(h1: Hash, h2: Hash, p: Path, q: Path)
    requires h1 != h2 && p != q
    ensures p in Added(map[h1 := p, h2 := p], map[h2 := q])
    ensures p in Targets(Moved(map[h1 := p, h2 := p], map[h2 := q]))
  {
    var files, other := map[h1 := p, h2 := p], map[h2 := q];
    assert h1 in files && h1 !in other;
    assert h2 in files && h2 in other && files[h2] != other[h2];
    assert (q, p) in Moved(files, other);
  }

  /** A file whose content is kept but whose path changes is reported as one move. */
  lemma MoveDetected(h: Hash, from: Path, to: Path)
    requires from != to
    ensures Moved(map[h := to], map[h := from]) == {(from, to)}
    ensures Added(map[h := to], map[h := from]) == {}
    ensures Deleted(map[h := to], map[h := from]) == {}
  {
    var files, other := map[h := to], map[h := from];
    assert h in files && h in other && files[h] != other[h];
    assert (other[h], files[h]) in Moved(files, other);
  }

  /** New content at an old path is an addition and a deletion, never a move. */
  lemma ContentChangeIsNotMove(h1: Hash, h2: Hash, p: Path)
    requires h1 != h2
    ensures Moved(map[h2 := p], map[h1 := p]) == {}
    ensures Added(map[h2 := p], map[h1 := p]) == {p}
    ensures Deleted(map[h2 := p], map[h1 := p]) == {p}
  {
  }

  // ---------------------------------------------------------------------
  // Scan (`hashed_files`). The directory walk is given as the sequence of
  // items WalkDir yields; `hash` stands for BLAKE3 over the file's bytes.
  // ---------------------------------------------------------------------

  /** One walked entry: its path, what `metadata()` reports (whether it is a
      regular file) and what reading it would give. */
  datatype Entry = Entry(path: Path, metadata: Result<bool, IoError>, contents: Result<seq<Byte>, IoError>)

  type Walk = seq<Result<Entry, IoError>>

  /** The error the scan raises at `item`, if any: a failed walk step, an
      unreadable metadata, or an unreadable regular file. */
  function ItemError(item: Result<Entry, IoError>): Option<IoError>
  {
    match item
    case Err(e) => Some(e)
    case Ok(entry) =>
      match entry.metadata
      case Err(e) => Some(e)
      case Ok(isFile) => if isFile && entry.contents.Err? then Some(entry.contents.error) else None
  }

  /** `item` is a readable regular file whose content hashes to `h`. */
  predicate HashedAs(item: Result<Entry, IoError>, hash: seq<Byte> -> Hash, h: Hash)
  {
    item.Ok? && item.value.metadata == Ok(true) && item.value.contents.Ok? && hash(item.value.contents.value) == h
  }

  /** One step of the scan: record a regular file under its hash, overwriting
      whatever path that hash held. */
  function Visit(files: FilesMap, item: Result<Entry, IoError>, hash: seq<Byte> -> Hash): Result<FilesMap, IoError>
  {
    if ItemError(item).Some? then Err(ItemError(item).value)
    else if item.value.metadata.value then Ok(files[hash(item.value.contents.value) := item.value.path])
    else Ok(files)
  }

  /** The scan as a left fold over the walk; the first error aborts it. */
  function Scan(walk: Walk, hash: seq<Byte> -> Hash): Result<FilesMap, IoError>
    decreases |walk|
  {
    if walk == [] then Ok(map[])
    else
      match Scan(walk[..|walk| - 1], hash)
      case Err(e) => Err(e)
      case Ok(files) => Visit(files, walk[|walk| - 1], hash)
  }

  /** Once a prefix of the walk has failed, the whole scan fails with that error. */
  lemma {:induction false} ScanErrPersists(walk: Walk, hash: seq<Byte> -> Hash, n: nat)
    requires n <= |walk|
    requires Scan(walk[..n], hash).Err?
    ensures Scan(walk, hash) == Scan(walk[..n], hash)
    decreases |walk| - n
  {
    if n < |walk| {
      var next := walk[..n + 1];
      assert next[..|next| - 1] == walk[..n];
      ScanErrPersists(walk, hash, n + 1);
    } else {
      assert walk[..n] == walk;
    }
  }

  /** The scan is all-or-nothing: it fails exactly when some item fails, and
      then with the error of the first failing item. */
  lemma {:induction false} ScanFails(walk: Walk, hash: seq<Byte> -> Hash)
    ensures Scan(walk, hash).Err? <==> exists i :: 0 <= i < |walk| && ItemError(walk[i]).Some?
    ensures Scan(walk, hash).Err? ==>
      exists i :: 0 <= i < |walk| && ItemError(walk[i]) == Some(Scan(walk, hash).error) &&
        forall k :: 0 <= k < i ==> ItemError(walk[k]).None?
    decreases |walk|
  {
    if walk != [] {
      var n := |walk| - 1;
      var init := walk[..n];
      ScanFails(init, hash);
      assert forall i :: 0 <= i < n ==> init[i] == walk[i];
      if Scan(init, hash).Ok? {
        assert forall i :: 0 <= i < n ==> ItemError(walk[i]).None?;
      }
    }
  }

  /** `i` is the last item of the walk that is a readable file hashing to `h`. */
  predicate LastHashedAt(walk: Walk, hash: seq<Byte> -> Hash, i: int, h: Hash)
  {
    0 <= i < |walk| && HashedAs(walk[i], hash, h) &&
    forall j :: i < j < |walk| ==> !HashedAs(walk[j], hash, h)
  }

  /** A successful scan holds exactly the hashes of the regular files walked,
      each mapped to the path of the LAST file with that content. */
  lemma {:induction false} ScanLastWriterWins(walk: Walk, hash: seq<Byte> -> Hash)
    requires Scan(walk, hash).Ok?
    ensures forall h, i :: LastHashedAt(walk, hash, i, h) ==>
      h in Scan(walk, hash).value && Scan(walk, hash).value[h] == walk[i].value.path
    ensures forall h :: h in Scan(walk, hash).value ==>
      exists i :: LastHashedAt(walk, hash, i, h) && Scan(walk, hash).value[h] == walk[i].value.path
    decreases |walk|
  {
    if walk != [] {
      var n := |walk| - 1;
      var init := walk[..n];
      ScanLastWriterWins(init, hash);
      var before := Scan(init, hash).value;
      var after := Scan(walk, hash).value;
      var last := walk[n];
      assert forall i :: 0 <= i < n ==> init[i] == walk[i];
      forall h, i | LastHashedAt(walk, hash, i, h)
        ensures h in after && after[h] == walk[i].value.path
      {
        if i < n {
          assert LastHashedAt(init, hash, i, h);
        }
      }
      forall h | h in after
        ensures exists i :: LastHashedAt(walk, hash, i, h) && after[h] == walk[i].value.path
      {
        if HashedAs(last, hash, h) {
          assert LastHashedAt(walk, hash, n, h);
        } else {
          var i :| LastHashedAt(init, hash, i, h) && before[h] == init[i].value.path;
          assert LastHashedAt(walk, hash, i, h);
        }
      }
    }
  }

  /** Two files with the same bytes collapse onto one entry: the later path. */
  lemma SameContentKeepsLaterPath(first: Path, second: Path, bytes: seq<Byte>, hash: seq<Byte> -> Hash)
    ensures Scan([Ok(Entry(first, Ok(true), Ok(bytes))), Ok(Entry(second, Ok(true), Ok(bytes)))], hash)
         == Ok(map[hash(bytes) := second])
  {
    var walk: Walk := [Ok(Entry(first, Ok(true), Ok(bytes))), Ok(Entry(second, Ok(true), Ok(bytes)))];
    assert walk[..1][..0] == [];
    assert Scan(walk[..1], hash) == Ok(map[hash(bytes) := first]);
    assert walk[..|walk| - 1] == walk[..1];
    assert map[hash(bytes) := first][hash(bytes) := second] == map[hash(bytes) := second];
  }

  /** Each path appears at most once among the walk's entries, as WalkDir
      visits every path once. */
  predicate DistinctPaths(walk: Walk)
  {
    forall i, j :: 0 <= i < j < |walk| && walk[i].Ok? && walk[j].Ok? ==> walk[i].value.path != walk[j].value.path
  }

  /** A scan of a walk that visits each path once holds every path under at
      most one hash, so the diff of two such locks partitions their paths. */
  lemma {:induction false} ScanInjective(walk: Walk, hash: seq<Byte> -> Hash)
    requires DistinctPaths(walk)
    requires Scan(walk, hash).Ok?
    ensures Injective(Scan(walk, hash).value)
    decreases |walk|
  {
    if walk != [] {
      var n := |walk| - 1;
      var init := walk[..n];
      assert forall i :: 0 <= i < n ==> init[i] == walk[i];
      assert DistinctPaths(init);
      ScanInjective(init, hash);
      var before := Scan(init, hash).value;
      var last := walk[n];
      if last.value.metadata.value {
        ScanLastWriterWins(init, hash);
        forall g | g in before ensures before[g] != last.value.path {
          var i :| LastHashedAt(init, hash, i, g) && before[g] == init[i].value.path;
        }
      }
    }
  }

  /** `hashed_files`: walk the tree and record every regular file under the hash
      of its bytes; any I/O error aborts the scan. */
  method HashedFiles(walk: Walk, hash: seq<Byte> -> Hash) returns (r: Result<FilesMap, IoError>)
    ensures r == Scan(walk, hash)
  {
    var files: FilesMap := map[];
    for i := 0 to |walk|
      invariant Scan(walk[..i], hash) == Ok(files)
    {
      assert walk[..i + 1][..i] == walk[..i];
      var item := walk[i];
      if item.Err? {
        ScanErrPersists(walk, hash, i + 1);
        return Err(item.error);
      }
      var entry := item.value;
      if entry.metadata.Err? {
        ScanErrPersists(walk, hash, i + 1);
        return Err(entry.metadata.error);
      }
      if entry.metadata.value {
        if entry.contents.Err? {
          ScanErrPersists(walk, hash, i + 1);
          return Err(entry.contents.error);
        }
        files := files[hash(entry.contents.value) := entry.path];
      }
    }
    assert walk[..|walk|] == walk;
    return Ok(files);
  }

  // ---------------------------------------------------------------------
  // The local lock.
  // ---------------------------------------------------------------------

  class LocalLock {
    var path: Path
    var generation: nat
    var remove: set<Path>
    var add: set<Path>
    var files: FilesMap

    /** The lock's whole state as a value. */
    function Record(): LockRecord
      reads this
    {
      LockRecord(path, generation, remove, add, files)
    }

    /** A lock holding `rec` (deserialising `.mega.lock`, or building a lock
        from its fields). */
    constructor FromRecord(rec: LockRecord)
      ensures Record() == rec
    {
      path, generation, remove, add, files := rec.path, rec.generation, rec.remove, rec.add, rec.files;
    }

    /** `from_path`: scan `path` into a fresh lock at generation 0 with nothing staged. */
    static method FromPath(path: Path, tree: Path -> Walk, hash: seq<Byte> -> Hash) returns (r: Result<LocalLock, LockError>)
      ensures r.Err? <==> Scan(tree(path), hash).Err?
      ensures r.Err? ==> r.error == Io(Scan(tree(path), hash).error)
      ensures r.Ok? ==> fresh(r.value) && r.value.Record() == LockRecord(path, 0, {}, {}, Scan(tree(path), hash).value)
    {
      var scanned := HashedFiles(tree(path), hash);
      if scanned.Err? {
        return Err(Io(scanned.error));
      }
      var lock := new LocalLock.FromRecord(LockRecord(path, 0, {}, {}, scanned.value));
      return Ok(lock);
    }

    /** `mem::replace`: overwrite every field with `rec`, handing back the old state. */
    method Replace(rec: LockRecord) returns (previous: LocalLock)
      modifies this
      ensures fresh(previous) && previous.Record() == old(Record())
      ensures Record() == rec
    {
      previous := new LocalLock.FromRecord(Record());
      path, generation, remove, add, files := rec.path, rec.generation, rec.remove, rec.add, rec.files;
    }

    /** `update`: rescan the root; on success the lock holds the new map at the
        next generation with the same root and staging sets, and the previous
        lock is returned. A failed scan leaves the lock untouched. */
    method Update(tree: Path -> Walk, hash: seq<Byte> -> Hash) returns (r: Result<LocalLock, LockError>)
      modifies this
      ensures r.Err? <==> Scan(tree(old(path)), hash).Err?
      ensures r.Err? ==> r.error == Io(Scan(tree(old(path)), hash).error) && Record() == old(Record())
      ensures r.Ok? ==> fresh(r.value) && r.value.Record() == old(Record())
      ensures r.Ok? ==> Record() == old(Record()).(generation := old(generation) + 1, files := Scan(tree(old(path)), hash).value)
    {
      var scanned := HashedFiles(tree(path), hash);
      if scanned.Err? {
        return Err(Io(scanned.error));
      }
      var next := LockRecord(path, generation + 1, remove, add, scanned.value);
      var previous := Replace(next);
      return Ok(previous);
    }

    /** `files`: the paths the lock records, at most one per hash. */
    function Files(): (r: set<Path>)
      reads this
      ensures forall h :: h in files ==> files[h] in r
      ensures forall p :: p in r ==> exists h :: h in files && files[h] == p
      ensures |r| <= |files|
    {
      ImageBound(files, files.Keys);
      Image(files, files.Keys)
    }

    /** `stage_remove`: queue `p` for removal; true iff it was not queued yet. */
    method StageRemove(p: Path) returns (inserted: bool)
      modifies this`remove
      ensures inserted <==> p !in old(remove)
      ensures Record() == old(Record()).(remove := old(remove) + {p})
    {
      inserted := p !in remove;
      remove := remove + {p};
    }

    /** `stage_add`: queue `p` for addition; true iff it was not queued yet. */
    method StageAdd(p: Path) returns (inserted: bool)
      modifies this`add
      ensures inserted <==> p !in old(add)
      ensures Record() == old(Record()).(add := old(add) + {p})
    {
      inserted := p !in add;
      add := add + {p};
    }

    /** `staged`: the paths queued for addition and not also for removal. */
    function Staged(): (r: set<Path>)
      reads this
      ensures r <= add && r !! remove
      ensures add <= r + remove
    {
      add - remove
    }

    /** `to_remove`: the paths queued for removal and not also for addition. */
    function ToRemove(): (r: set<Path>)
      reads this
      ensures r <= remove && r !! add
      ensures remove <= r + add
    {
      remove - add
    }
  }

  /** The two resolved views never share a path, and a path queued both ways
      is in neither. */
  lemma ResolvedViewsDisjoint(lock: LocalLock, p: Path)
    ensures lock.Staged() !! lock.ToRemove()
    ensures p in lock.add && p in lock.remove ==> p !in lock.Staged() && p !in lock.ToRemove()
    ensures p in lock.Staged() + lock.ToRemove() <==> (p in lock.add <==> p !in lock.remove)
  {
  }
}
