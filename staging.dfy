/** What `add` (src/add.rs) and `remove` (src/remove.rs) share: the state of
    the working directory they see, their errors, and the outcome of one
    invocation as a function of that state. */
module Staging {
  import opened Results
  import opened Lock

  /** `AddError` and `RemoveError`, which have the same variants. `LockFailed`
      stands for their `Lock` variant, which neither command produces. */
  datatype CommandError =
    | IoFailed(error: IoError)
    | Absent
    | TomlDe
    | TomlSer
    | LockFailed(lockError: LockError)
    | FileAbsent(path: Path)

  /** The state of `.mega.lock` in the current directory. */
  datatype LockFile =
    | Missing                        // `lock_path.exists()` is false
    | Unreadable(error: IoError)     // `fs::read` fails
    | Malformed                      // `toml::from_slice` fails
    | Stored(lock: LockRecord)       // deserialises to this lock

  /** The filesystem as one invocation sees it. */
  datatype Workspace = Workspace(
    cwdError: Option<IoError>,       // the error `current_dir()` reports, if any
    optionsExists: bool,             // `.mega.toml` exists in the current directory
    lockFile: LockFile,
    existing: set<Path>,             // the paths for which `Path::exists` holds
    writeError: Option<IoError>)     // the error `fs::write` of the lock reports, if any

  /** Which staging set a command inserts into. */
  datatype StageKind = ToAdd | ToRemove

  /** The set of paths listed in `paths`. */
  function Elems(paths: seq<Path>): set<Path>
  {
    set p | p in paths
  }

  /** The index of the first path that does not exist, if any. */
  function FirstAbsent(paths: seq<Path>, existing: set<Path>): (r: Option<nat>)
    ensures r.Some? ==>
      && r.value < |paths|
      && paths[r.value] !in existing
      && forall k :: 0 <= k < r.value ==> paths[k] in existing
    ensures r.None? ==> forall k :: 0 <= k < |paths| ==> paths[k] in existing
    decreases |paths|
  {
    if paths == [] then None
    else if paths[0] !in existing then Some(0)
    else
      match FirstAbsent(paths[1..], existing)
      case None => None
      case Some(i) => Some(i + 1)
  }

  /** The lock after staging every path of `paths` the way `kind` says. */
  function StageAll(lock: LockRecord, paths: seq<Path>, kind: StageKind): LockRecord
  {
    match kind
    case ToAdd => lock.(add := lock.add + Elems(paths))
    case ToRemove => lock.(remove := lock.remove + Elems(paths))
  }

  /** One invocation of `add` (kind ToAdd) or `remove` (kind ToRemove): its
      outcome and the workspace afterwards. `serializes` says of which locks
      `toml::to_string` succeeds. */
  function Run(ws: Workspace, paths: seq<Path>, kind: StageKind, serializes: LockRecord -> bool): (Result<(), CommandError>, Workspace)
  {
    if ws.cwdError.Some? then (Err(IoFailed(ws.cwdError.value)), ws)
    else if !ws.optionsExists then (Err(Absent), ws)
    else
      match ws.lockFile
      case Missing => (Err(Absent), ws)
      case Unreadable(e) => (Err(IoFailed(e)), ws)
      case Malformed => (Err(TomlDe), ws)
      case Stored(lock) =>
        match FirstAbsent(paths, ws.existing)
        case Some(i) => (Err(FileAbsent(paths[i])), ws)
        case None =>
          var staged := StageAll(lock, paths, kind);
          if !serializes(staged) then (Err(TomlSer), ws)
          else if ws.writeError.Some? then (Err(IoFailed(ws.writeError.value)), ws)
          else (Ok(()), ws.(lockFile := Stored(staged)))
  }

  /** Without `.mega.toml` or `.mega.lock` the command reports `Absent` and
      touches nothing. */
  lemma AbsentRepository(ws: Workspace, paths: seq<Path>, kind: StageKind, serializes: LockRecord -> bool)
    requires ws.cwdError.None?
    requires !ws.optionsExists || ws.lockFile.Missing?
    ensures Run(ws, paths, kind, serializes) == (Err(Absent), ws)
  {
  }

  /** When a requested path does not exist, the first such path is reported. */
  lemma FirstAbsentPathReported(ws: Workspace, paths: seq<Path>, kind: StageKind, serializes: LockRecord -> bool, i: nat)
    requires ws.cwdError.None? && ws.optionsExists && ws.lockFile.Stored?
    requires i < |paths| && paths[i] !in ws.existing
    requires forall k :: 0 <= k < i ==> paths[k] in ws.existing
    ensures Run(ws, paths, kind, serializes) == (Err(FileAbsent(paths[i])), ws)
  {
  }

  /** No error ever rewrites the lock file: on failure the workspace is as before. */
  lemma ErrorKeepsLockFile(ws: Workspace, paths: seq<Path>, kind: StageKind, serializes: LockRecord -> bool)
    ensures Run(ws, paths, kind, serializes).0.Err? ==> Run(ws, paths, kind, serializes).1 == ws
  {
  }

  /** The command succeeds exactly when the repository is present and readable,
      every path exists, and the staged lock can be serialised and written; the
      lock file then holds the old lock with the paths added to the one set
      `kind` names, and nothing else changes. */
  lemma SuccessStagesEveryPath(ws: Workspace, paths: seq<Path>, kind: StageKind, serializes: LockRecord -> bool)
    ensures Run(ws, paths, kind, serializes).0.Ok? <==>
      ws.cwdError.None? && ws.optionsExists && ws.lockFile.Stored? &&
      (forall k :: 0 <= k < |paths| ==> paths[k] in ws.existing) &&
      serializes(StageAll(ws.lockFile.lock, paths, kind)) && ws.writeError.None?
    ensures Run(ws, paths, kind, serializes).0.Ok? ==>
      var before := ws.lockFile.lock;
      var after := Run(ws, paths, kind, serializes).1.lockFile.lock;
      && Run(ws, paths, kind, serializes).1 == ws.(lockFile := Stored(after))
      && after.path == before.path && after.generation == before.generation && after.files == before.files
      && (kind.ToAdd? ==> after.add == before.add + Elems(paths) && after.remove == before.remove)
      && (kind.ToRemove? ==> after.remove == before.remove + Elems(paths) && after.add == before.add)
  {
  }

  /** Repeating a path after its first occurrence moves the first absent
      path, if any, by at most one place and never changes which path it is. */
  lemma FirstAbsentIgnoresRepeat(paths: seq<Path>, k: nat, p: Path, existing: set<Path>)
    requires k <= |paths| && p in paths[..k]
    ensures FirstAbsent(paths[..k] + [p] + paths[k..], existing).None? == FirstAbsent(paths, existing).None?
    ensures FirstAbsent(paths[..k] + [p] + paths[k..], existing).Some? ==>
      (paths[..k] + [p] + paths[k..])[FirstAbsent(paths[..k] + [p] + paths[k..], existing).value]
        == paths[FirstAbsent(paths, existing).value]
  {
    var q := paths[..k] + [p] + paths[k..];
    assert forall m :: 0 <= m < k ==> q[m] == paths[m];
    assert q[k] == p;
    assert forall m :: k < m < |q| ==> q[m] == paths[m - 1];
    var j :| 0 <= j < k && paths[j] == p;
    var r, rq := FirstAbsent(paths, existing), FirstAbsent(q, existing);
    if r.Some? {
      var i := r.value;
      var iq := if i < k then i else i + 1;
      assert q[iq] == paths[i] && q[iq] !in existing;
      assert forall m :: 0 <= m < iq ==> q[m] in existing;
      assert rq.Some? && rq.value == iq;
    } else {
      assert forall m :: 0 <= m < |q| ==> q[m] in existing;
    }
  }

  /** A path listed again, anywhere after its first occurrence, has no
      further effect. */
  lemma DuplicatePathNoEffect(ws: Workspace, paths: seq<Path>, k: nat, p: Path, kind: StageKind, serializes: LockRecord -> bool)
    requires k <= |paths| && p in paths[..k]
    ensures Run(ws, paths[..k] + [p] + paths[k..], kind, serializes) == Run(ws, paths, kind, serializes)
  {
    var longer := paths[..k] + [p] + paths[k..];
    assert paths == paths[..k] + paths[k..];
    assert Elems(longer) == Elems(paths);
    FirstAbsentIgnoresRepeat(paths, k, p, ws.existing);
  }

  /** On success the order of the paths is irrelevant: only the set of
      requested paths decides the lock that is written. */
  lemma OrderIrrelevantOnSuccess(ws: Workspace, paths: seq<Path>, others: seq<Path>, kind: StageKind, serializes: LockRecord -> bool)
    requires Elems(paths) == Elems(others)
    requires Run(ws, paths, kind, serializes).0.Ok?
    ensures Run(ws, others, kind, serializes) == Run(ws, paths, kind, serializes)
  {
    SuccessStagesEveryPath(ws, paths, kind, serializes);
    assert forall k :: 0 <= k < |others| ==> others[k] in Elems(paths);
    SuccessStagesEveryPath(ws, others, kind, serializes);
  }
}
