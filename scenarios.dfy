/** Clients of `LocalLock` that exercise the staging promises of src/lock.rs
    through the methods' contracts alone. */
module Scenarios {
  import opened Results
  import opened Lock

  /** Staging one path twice for addition: the second call reports no
      insertion and leaves the lock as the first call left it. */
  method StageAddTwice(rec: LockRecord, p: Path) returns (first: bool, second: bool, after: LockRecord)
    ensures first <==> p !in rec.add
    ensures !second
    ensures after == rec.(add := rec.add + {p})
  {
    var lock := new LocalLock.FromRecord(rec);
    first := lock.StageAdd(p);
    second := lock.StageAdd(p);
    after := lock.Record();
  }

  /** A path staged both for addition and for removal is in neither resolved
      view; the views of every other path are untouched. */
  method StageBothWays(rec: LockRecord, p: Path) returns (staged: set<Path>, toRemove: set<Path>)
    ensures p !in staged && p !in toRemove
    ensures staged == (rec.add - rec.remove) - {p}
    ensures toRemove == (rec.remove - rec.add) - {p}
  {
    var lock := new LocalLock.FromRecord(rec);
    var _ := lock.StageAdd(p);
    var _ := lock.StageRemove(p);
    staged := lock.Staged();
    toRemove := lock.ToRemove();
  }

  /** Scan a root, stage a path, rescan the tree as it is by then: the path is
      still staged, the new lock is at generation 1 with the second scan's map,
      and the previous lock comes back at generation 0. */
  method StageThenRescan(root: Path, p: Path, before: Path -> Walk, after: Path -> Walk, hash: seq<Byte> -> Hash)
    returns (r: Result<(LockRecord, LockRecord), LockError>)
    ensures r.Err? <==> Scan(before(root), hash).Err? || Scan(after(root), hash).Err?
    ensures r.Ok? ==>
      var (previous, current) := r.value;
      && previous == LockRecord(root, 0, {}, {p}, Scan(before(root), hash).value)
      && current == LockRecord(root, 1, {}, {p}, Scan(after(root), hash).value)
  {
    var created := LocalLock.FromPath(root, before, hash);
    if created.Err? {
      return Err(created.error);
    }
    var lock := created.value;
    var _ := lock.StageAdd(p);
    var updated := lock.Update(after, hash);
    if updated.Err? {
      return Err(updated.error);
    }
    return Ok((updated.value.Record(), lock.Record()));
  }
}
