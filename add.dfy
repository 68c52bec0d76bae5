/** Model of src/add.rs: stage paths for addition in the stored lock. */
module Add {
  import opened Results
  import opened Lock
  import opened Staging

  /** `add`: load the lock, stage every requested path for addition (giving up
      at the first one that does not exist) and only then write the lock back. */
  method Add(ws: Workspace, paths: seq<Path>, serializes: LockRecord -> bool) returns (r: Result<(), CommandError>, after: Workspace)
    ensures (r, after) == Run(ws, paths, ToAdd, serializes)
  {
    if ws.cwdError.Some? {
      return Err(IoFailed(ws.cwdError.value)), ws;
    }
    if !ws.optionsExists || ws.lockFile.Missing? {
      return Err(Absent), ws;
    }
    if ws.lockFile.Unreadable? {
      return Err(IoFailed(ws.lockFile.error)), ws;
    }
    if ws.lockFile.Malformed? {
      return Err(TomlDe), ws;
    }
    var lock := new LocalLock.FromRecord(ws.lockFile.lock);
    for i := 0 to |paths|
      invariant lock.Record() == StageAll(ws.lockFile.lock, paths[..i], ToAdd)
      invariant forall k :: 0 <= k < i ==> paths[k] in ws.existing
    {
      if paths[i] !in ws.existing {
        return Err(FileAbsent(paths[i])), ws;
      }
      var _ := lock.StageAdd(paths[i]);
      assert Elems(paths[..i + 1]) == Elems(paths[..i]) + {paths[i]};
    }
    assert paths[..|paths|] == paths;
    var staged := lock.Record();
    if !serializes(staged) {
      return Err(TomlSer), ws;
    }
    if ws.writeError.Some? {
      return Err(IoFailed(ws.writeError.value)), ws;
    }
    return Ok(()), ws.(lockFile := Stored(staged));
  }
}
