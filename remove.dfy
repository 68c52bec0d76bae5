/** Model of src/remove.rs: stage paths for removal in the stored lock. */
module Remove {
  import opened Results
  import opened Lock
  import opened Staging

  /** `remove`: load the lock, stage every requested path for removal (giving up
      at the first one that does not exist) and only then write the lock back. */
  method Remove(ws: Workspace, paths: seq<Path>, serializes: LockRecord -> bool) returns (r: Result<(), CommandError>, after: Workspace)
    ensures (r, after) == Run(ws, paths, ToRemove, serializes)
  {
    if ws.cwdError.Some? {
      return Err(IoFailed(ws.cwdError.value)), ws;
    }
    if !ws.optionsExists || ws.lockFile.Missing? {
      return Err(Absent), ws;
    }
    if ws.lockFile.Unreadable? {
      return Err(IoFailed(ws.lockFile.error)), ws;
    }
    if ws.lockFile.Malformed? {
      return Err(TomlDe), ws;
    }
    var lock := new LocalLock.FromRecord(ws.lockFile.lock);
    for i := 0 to |paths|
      invariant lock.Record() == StageAll(ws.lockFile.lock, paths[..i], ToRemove)
      invariant forall k :: 0 <= k < i ==> paths[k] in ws.existing
    {
      if paths[i] !in ws.existing {
        return Err(FileAbsent(paths[i])), ws;
      }
      var _ := lock.StageRemove(paths[i]);
      assert Elems(paths[..i + 1]) == Elems(paths[..i]) + {paths[i]};
    }
    assert paths[..|paths|] == paths;
    var staged := lock.Record();
    if !serializes(staged) {
      return Err(TomlSer), ws;
    }
    if ws.writeError.Some? {
      return Err(IoFailed(ws.writeError.value)), ws;
    }
    return Ok(()), ws.(lockFile := Stored(staged));
  }
}
