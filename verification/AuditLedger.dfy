/** The laboratory ledger: two tables and an append-only hash-chained audit log that replays to them. */
module AuditLedger {
  import opened Octets
  import opened Wrappers
  import opened LmsSpec

  datatype RootRow = RootRow(identifier: Identifier, root: Digest, suite: u32, status: byte, expiry: u64)

  /** Device and version; device, version and index. */
  type RootKey = (Digest, u32)
  type PathKey = (Digest, u32, u32)

  datatype AuditEvent =
    | RootEvent(rootKey: RootKey, row: RootRow, source: string, time: int)
    | PathEvent(pathKey: PathKey, pathHash: Digest, source: string, time: int)

  datatype AuditLine = AuditLine(event: AuditEvent, previousHash: string, blockHash: string)

  /** The hash of the canonical JSON of an event and the previous block hash. */
  type BlockHash = (AuditEvent, string) -> string

  const GENESIS: string := "0000000000000000000000000000000000000000000000000000000000000000"

  function LastHash(log: seq<AuditLine>): string {
    if log == [] then GENESIS else log[|log| - 1].blockHash
  }

  predicate Chained(blockHash: BlockHash, log: seq<AuditLine>) {
    forall i :: 0 <= i < |log| ==>
      log[i].previousHash == LastHash(log[..i]) && log[i].blockHash == blockHash(log[i].event, log[i].previousHash)
  }

  /** What the log alone says about the tables; of a path it records only the hash. */
  function ReplayRoots(log: seq<AuditLine>): map<RootKey, RootRow> {
    if log == [] then map[]
    else
      var before, event := ReplayRoots(log[..|log| - 1]), log[|log| - 1].event;
      if event.RootEvent? then before[event.rootKey := event.row] else before
  }

  function ReplayPaths(log: seq<AuditLine>): map<PathKey, Digest> {
    if log == [] then map[]
    else
      var before, event := ReplayPaths(log[..|log| - 1]), log[|log| - 1].event;
      if event.PathEvent? then before[event.pathKey := event.pathHash] else before
  }

  function HashedPaths(sha: Hash, paths: map<PathKey, Path>): map<PathKey, Digest> {
    map k | k in paths :: sha(paths[k])
  }

  lemma HashedPathsNext(sha: Hash, paths: map<PathKey, Path>, key: PathKey, path: Path)
    ensures HashedPaths(sha, paths[key := path]) == HashedPaths(sha, paths)[key := sha(path)]
  {
  }

  lemma SameTable<K, V>(table: map<K, V>, key: K, value: V)
    requires key in table && table[key] == value
    ensures table[key := value] == table
  {
  }

  function Append(blockHash: BlockHash, log: seq<AuditLine>, event: AuditEvent): seq<AuditLine> {
    log + [AuditLine(event, LastHash(log), blockHash(event, LastHash(log)))]
  }

  lemma ReplayNext(blockHash: BlockHash, log: seq<AuditLine>, event: AuditEvent)
    ensures var next := Append(blockHash, log, event);
      && ReplayRoots(next) == (if event.RootEvent? then ReplayRoots(log)[event.rootKey := event.row]
                                else ReplayRoots(log))
      && ReplayPaths(next) == (if event.PathEvent? then ReplayPaths(log)[event.pathKey := event.pathHash]
                                else ReplayPaths(log))
  {
    assert Append(blockHash, log, event)[..|log|] == log;
  }

  lemma ChainedNext(blockHash: BlockHash, log: seq<AuditLine>, event: AuditEvent)
    requires Chained(blockHash, log)
    ensures Chained(blockHash, Append(blockHash, log, event))
  {
    var next := Append(blockHash, log, event);
    forall i | 0 <= i < |next|
      ensures next[i].previousHash == LastHash(next[..i])
           && next[i].blockHash == blockHash(next[i].event, next[i].previousHash)
    {
      assert next[..i] == log[..i];
      assert log[..|log|] == log;
    }
  }

  // --- Writes, deaths and restarts ----------------------------------------------------------

  /** What is on disk: the two tables and the log file. */
  datatype Store = Store(roots: map<RootKey, RootRow>, paths: map<PathKey, Path>, log: seq<AuditLine>)

  const NEW_STORE := Store(map[], map[], [])

  /** `died` says that the process ended between commit and append; a restart reads the files again. */
  datatype Step =
    | WriteRoot(rootKey: RootKey, row: RootRow, source: string, time: int, died: bool)
    | WritePath(pathKey: PathKey, path: Path, source: string, time: int, died: bool)
    | Restart

  function Apply(sha: Hash, blockHash: BlockHash, s: Store, step: Step): Store {
    match step
    case WriteRoot(key, row, source, time, died) =>
      if key in s.roots && s.roots[key] == row then s
      else
        s.(roots := s.roots[key := row],
           log := if died then s.log else Append(blockHash, s.log, RootEvent(key, row, source, time)))
    case WritePath(key, path, source, time, died) =>
      if key in s.paths && s.paths[key] == path then s
      else
        s.(paths := s.paths[key := path],
           log := if died then s.log else Append(blockHash, s.log, PathEvent(key, sha(path), source, time)))
    case Restart => s
  }

  function ApplyAll(sha: Hash, blockHash: BlockHash, steps: seq<Step>): Store {
    if steps == [] then NEW_STORE
    else Apply(sha, blockHash, ApplyAll(sha, blockHash, steps[..|steps| - 1]), steps[|steps| - 1])
  }

  class Ledger {
    const sha: Hash
    const blockHash: BlockHash
    var roots: map<RootKey, RootRow>
    var paths: map<PathKey, Path>
    var log: seq<AuditLine>
    var previousAuditHash: string

    ghost function OnDisk(): Store
      reads this
    {
      Store(roots, paths, log)
    }

    /** The chain is intact; the tables may be ahead of it. */
    ghost predicate Open()
      reads this
    {
      Chained(blockHash, log) && previousAuditHash == LastHash(log)
    }

    ghost predicate Valid()
      reads this
    {
      Open() && ReplayRoots(log) == roots && ReplayPaths(log) == HashedPaths(sha, paths)
    }

    /** Opens existing files; a restart keeps tables and log and reloads the last block hash. */
    constructor (sha: Hash, blockHash: BlockHash, roots: map<RootKey, RootRow>, paths: map<PathKey, Path>,
        log: seq<AuditLine>)
      ensures this.sha == sha && this.blockHash == blockHash && OnDisk() == Store(roots, paths, log)
      ensures Chained(blockHash, log) ==> Open()
      ensures Chained(blockHash, log) && ReplayRoots(log) == roots && ReplayPaths(log) == HashedPaths(sha, paths) ==>
        Valid()
    {
      this.sha, this.blockHash := sha, blockHash;
      this.roots, this.paths, this.log := roots, paths, log;
      previousAuditHash := if |log| == 0 then GENESIS else log[|log| - 1].blockHash;
    }

    method AppendAudit(event: AuditEvent)
      requires Open()
      modifies this`log, this`previousAuditHash
      ensures Open() && log == Append(blockHash, old(log), event)
    {
      ChainedNext(blockHash, log, event);
      var line := AuditLine(event, previousAuditHash, blockHash(event, previousAuditHash));
      log := log + [line];
      previousAuditHash := line.blockHash;
    }

    /** The first half of `upsert_root`, up to the commit: all that happens if the process then dies. */
    method CommitRoot(key: RootKey, row: RootRow) returns (repeated: bool)
      modifies this`roots
      ensures repeated == (key in old(roots) && old(roots)[key] == row)
      ensures forall source, time ::
        OnDisk() == Apply(sha, blockHash, old(OnDisk()), WriteRoot(key, row, source, time, true))
    {
      if key in roots && roots[key] == row {
        return true;
      }
      roots := roots[key := row];
      return false;
    }

    /** Commits, then logs; an upsert that changes nothing does neither. */
    method UpsertRoot(key: RootKey, row: RootRow, source: string, time: int) returns (repeated: bool)
      requires Open()
      modifies this
      ensures Open() && (old(Valid()) ==> Valid())
      ensures OnDisk() == Apply(sha, blockHash, old(OnDisk()), WriteRoot(key, row, source, time, false))
      ensures roots == old(roots)[key := row] && paths == old(paths)
      ensures repeated == (key in old(roots) && old(roots)[key] == row)
      ensures log == if repeated then old(log) else Append(blockHash, old(log), RootEvent(key, row, source, time))
    {
      hide HashedPaths, ReplayRoots, ReplayPaths, Chained, Append;
      repeated := CommitRoot(key, row);
      assert OnDisk() == Apply(sha, blockHash, old(OnDisk()), WriteRoot(key, row, source, time, true));
      if repeated {
        SameTable(old(roots), key, row);
        return;
      }
      AppendAudit(RootEvent(key, row, source, time));
      ReplayNext(blockHash, old(log), RootEvent(key, row, source, time));
    }

    /** The first half of `upsert_path`, up to the commit. */
    method CommitPath(key: PathKey, path: Path) returns (repeated: bool)
      modifies this`paths
      ensures repeated == (key in old(paths) && old(paths)[key] == path)
      ensures forall source, time ::
        OnDisk() == Apply(sha, blockHash, old(OnDisk()), WritePath(key, path, source, time, true))
    {
      if key in paths && paths[key] == path {
        return true;
      }
      paths := paths[key := path];
      return false;
    }

    method UpsertPath(key: PathKey, path: Path, source: string, time: int) returns (repeated: bool)
      requires Open()
      modifies this
      ensures Open() && (old(Valid()) ==> Valid())
      ensures OnDisk() == Apply(sha, blockHash, old(OnDisk()), WritePath(key, path, source, time, false))
      ensures roots == old(roots) && paths == old(paths)[key := path]
      ensures repeated == (key in old(paths) && old(paths)[key] == path)
      ensures log == if repeated then old(log) else Append(blockHash, old(log), PathEvent(key, sha(path), source, time))
    {
      hide HashedPaths, ReplayRoots, ReplayPaths, Chained, Append;
      HashedPathsNext(sha, paths, key, path);
      repeated := CommitPath(key, path);
      assert OnDisk() == Apply(sha, blockHash, old(OnDisk()), WritePath(key, path, source, time, true));
      if repeated {
        SameTable(old(paths), key, path);
        return;
      }
      AppendAudit(PathEvent(key, sha(path), source, time));
      ReplayNext(blockHash, old(log), PathEvent(key, sha(path), source, time));
    }
  }

  // --- When the log still tells the tables -----------------------------------------------------

  function Get<K, V>(table: map<K, V>, key: K): Option<V> {
    if key in table then Some(table[key]) else None
  }

  lemma SameRoots(a: map<RootKey, RootRow>, b: map<RootKey, RootRow>)
    ensures a == b <==> forall key :: Get(a, key) == Get(b, key)
  {
    if forall key :: Get(a, key) == Get(b, key) {
      forall key ensures (key in a <==> key in b) && (key in a ==> a[key] == b[key]) {
        assert Get(a, key) == Get(b, key);
      }
    }
  }

  lemma SamePathHashes(a: map<PathKey, Digest>, b: map<PathKey, Digest>)
    ensures a == b <==> forall key :: Get(a, key) == Get(b, key)
  {
    if forall key :: Get(a, key) == Get(b, key) {
      forall key ensures (key in a <==> key in b) && (key in a ==> a[key] == b[key]) {
        assert Get(a, key) == Get(b, key);
      }
    }
  }

  /** The row that the steps last wrote for a key, and the one they last logged: a change that was not cut off. */
  function WrittenRoot(steps: seq<Step>, key: RootKey): Option<RootRow> {
    if steps == [] then None
    else
      var last := steps[|steps| - 1];
      if last.WriteRoot? && last.rootKey == key then Some(last.row) else WrittenRoot(steps[..|steps| - 1], key)
  }

  function LoggedRoot(steps: seq<Step>, key: RootKey): Option<RootRow> {
    if steps == [] then None
    else
      var before, last := steps[..|steps| - 1], steps[|steps| - 1];
      if last.WriteRoot? && last.rootKey == key && !last.died && WrittenRoot(before, key) != Some(last.row)
      then Some(last.row) else LoggedRoot(before, key)
  }

  function WrittenPath(steps: seq<Step>, key: PathKey): Option<Path> {
    if steps == [] then None
    else
      var last := steps[|steps| - 1];
      if last.WritePath? && last.pathKey == key then Some(last.path) else WrittenPath(steps[..|steps| - 1], key)
  }

  function LoggedPath(steps: seq<Step>, key: PathKey): Option<Path> {
    if steps == [] then None
    else
      var before, last := steps[..|steps| - 1], steps[|steps| - 1];
      if last.WritePath? && last.pathKey == key && !last.died && WrittenPath(before, key) != Some(last.path)
      then Some(last.path) else LoggedPath(before, key)
  }

  predicate RootIsLogged(steps: seq<Step>, key: RootKey) {
    WrittenRoot(steps, key) == LoggedRoot(steps, key)
  }

  predicate PathIsLogged(sha: Hash, steps: seq<Step>, key: PathKey) {
    HashOf(sha, WrittenPath(steps, key)) == HashOf(sha, LoggedPath(steps, key))
  }

  function HashOf(sha: Hash, path: Option<Path>): Option<Digest> {
    if path.Some? then Some(sha(path.value)) else None
  }

  lemma {:induction false} TablesHoldLastWritten(sha: Hash, blockHash: BlockHash, steps: seq<Step>, rootKey: RootKey,
      pathKey: PathKey)
    ensures var s := ApplyAll(sha, blockHash, steps);
      && Get(s.roots, rootKey) == WrittenRoot(steps, rootKey) && Get(s.paths, pathKey) == WrittenPath(steps, pathKey)
  {
    if steps != [] {
      var before, last := steps[..|steps| - 1], steps[|steps| - 1];
      TablesHoldLastWritten(sha, blockHash, before, rootKey, pathKey);
      if last.WriteRoot? {
        TablesHoldLastWritten(sha, blockHash, before, last.rootKey, pathKey);
      } else if last.WritePath? {
        TablesHoldLastWritten(sha, blockHash, before, rootKey, last.pathKey);
      }
    }
  }

  lemma {:induction false} LogHoldsLastLogged(sha: Hash, blockHash: BlockHash, steps: seq<Step>, rootKey: RootKey,
      pathKey: PathKey)
    ensures var log := ApplyAll(sha, blockHash, steps).log;
      && Chained(blockHash, log)
      && Get(ReplayRoots(log), rootKey) == LoggedRoot(steps, rootKey)
      && Get(ReplayPaths(log), pathKey) == HashOf(sha, LoggedPath(steps, pathKey))
  {
    hide Chained, Append;
    if steps == [] {
      NothingIsChained(blockHash);
    } else {
      var before, last := steps[..|steps| - 1], steps[|steps| - 1];
      var s := ApplyAll(sha, blockHash, before);
      LogHoldsLastLogged(sha, blockHash, before, rootKey, pathKey);
      if last.WriteRoot? {
        TablesHoldLastWritten(sha, blockHash, before, last.rootKey, pathKey);
        ChainedNext(blockHash, s.log, RootEvent(last.rootKey, last.row, last.source, last.time));
        ReplayNext(blockHash, s.log, RootEvent(last.rootKey, last.row, last.source, last.time));
      } else if last.WritePath? {
        TablesHoldLastWritten(sha, blockHash, before, rootKey, last.pathKey);
        ChainedNext(blockHash, s.log, PathEvent(last.pathKey, sha(last.path), last.source, last.time));
        ReplayNext(blockHash, s.log, PathEvent(last.pathKey, sha(last.path), last.source, last.time));
      }
    }
  }

  lemma NothingIsChained(blockHash: BlockHash)
    ensures Chained(blockHash, [])
  {
  }

  /**
   Over every history of writes, deaths between commit and append, and restarts: the log replays
   to the tables exactly when for every key the last row written is the last row logged.
   */
  lemma {:induction false} RootsReplayExactlyWhenLastWritesAreLogged(sha: Hash, blockHash: BlockHash, steps: seq<Step>)
    ensures var s := ApplyAll(sha, blockHash, steps);
      ReplayRoots(s.log) == s.roots <==> forall key :: RootIsLogged(steps, key)
  {
    hide ReplayRoots, WrittenRoot, LoggedRoot, ApplyAll;
    var s := ApplyAll(sha, blockHash, steps);
    forall key: RootKey
      ensures RootIsLogged(steps, key) <==> Get(ReplayRoots(s.log), key) == Get(s.roots, key)
    {
      TablesHoldLastWritten(sha, blockHash, steps, key, (ZERO_DIGEST, 0, 0));
      LogHoldsLastLogged(sha, blockHash, steps, key, (ZERO_DIGEST, 0, 0));
    }
    SameRoots(ReplayRoots(s.log), s.roots);
  }

  /** The same for paths, of which the log keeps the hashes. */
  lemma {:induction false} PathsReplayExactlyWhenLastWritesAreLogged(sha: Hash, blockHash: BlockHash, steps: seq<Step>)
    ensures var s := ApplyAll(sha, blockHash, steps);
      ReplayPaths(s.log) == HashedPaths(sha, s.paths)
      <==> forall key :: PathIsLogged(sha, steps, key)
  {
    hide ReplayPaths, WrittenPath, LoggedPath, ApplyAll, HashOf;
    var s := ApplyAll(sha, blockHash, steps);
    forall key: PathKey
      ensures PathIsLogged(sha, steps, key) <==> Get(ReplayPaths(s.log), key) == Get(HashedPaths(sha, s.paths), key)
    {
      TablesHoldLastWritten(sha, blockHash, steps, (ZERO_DIGEST, 0), key);
      LogHoldsLastLogged(sha, blockHash, steps, (ZERO_DIGEST, 0), key);
      HashedEntry(sha, s.paths, key);
    }
    SamePathHashes(ReplayPaths(s.log), HashedPaths(sha, s.paths));
  }

  lemma HashedEntry(sha: Hash, paths: map<PathKey, Path>, key: PathKey)
    ensures Get(HashedPaths(sha, paths), key) == HashOf(sha, Get(paths, key))
  {
  }

  /** Later steps on this key only repeat what is written. */
  predicate OnlyRetriesRoot(more: seq<Step>, key: RootKey, row: RootRow) {
    forall step :: step in more && step.WriteRoot? && step.rootKey == key ==> step.row == row
  }

  predicate OnlyRetriesPath(more: seq<Step>, key: PathKey, path: Path) {
    forall step :: step in more && step.WritePath? && step.pathKey == key ==> step.path == path
  }

  /** A lost change stays lost, whatever else happens, for as long as the device only retries it. */
  lemma {:induction false} RetryingNeverRepairsRoot(
    sha: Hash, blockHash: BlockHash, steps: seq<Step>, more: seq<Step>, key: RootKey, row: RootRow)
    requires WrittenRoot(steps, key) == Some(row) && !RootIsLogged(steps, key) && OnlyRetriesRoot(more, key, row)
    ensures WrittenRoot(steps + more, key) == Some(row) && LoggedRoot(steps + more, key) == LoggedRoot(steps, key)
    ensures var s := ApplyAll(sha, blockHash, steps + more); ReplayRoots(s.log) != s.roots
  {
    if more == [] {
      assert steps + more == steps;
    } else {
      var before := more[..|more| - 1];
      assert more[|more| - 1] in more && forall step :: step in before ==> step in more;
      RetryingNeverRepairsRoot(sha, blockHash, steps, before, key, row);
      assert (steps + more)[..|steps + more| - 1] == steps + before;
    }
    assert !RootIsLogged(steps + more, key);
    RootsReplayExactlyWhenLastWritesAreLogged(sha, blockHash, steps + more);
  }

  lemma {:induction false} RetryingNeverRepairsPath(
    sha: Hash, blockHash: BlockHash, steps: seq<Step>, more: seq<Step>, key: PathKey, path: Path)
    requires WrittenPath(steps, key) == Some(path) && !PathIsLogged(sha, steps, key) && OnlyRetriesPath(more, key, path)
    ensures WrittenPath(steps + more, key) == Some(path) && LoggedPath(steps + more, key) == LoggedPath(steps, key)
    ensures var s := ApplyAll(sha, blockHash, steps + more); ReplayPaths(s.log) != HashedPaths(sha, s.paths)
  {
    if more == [] {
      assert steps + more == steps;
    } else {
      var before := more[..|more| - 1];
      assert more[|more| - 1] in more && forall step :: step in before ==> step in more;
      RetryingNeverRepairsPath(sha, blockHash, steps, before, key, path);
      assert (steps + more)[..|steps + more| - 1] == steps + before;
    }
    assert !PathIsLogged(sha, steps + more, key);
    PathsReplayExactlyWhenLastWritesAreLogged(sha, blockHash, steps + more);
  }

  /** One enrollment cut off, a restart, and the device's retry: the row is in the table, and no line is in the log. */
  lemma {:induction false} InterruptedRootIsLost(
    sha: Hash, blockHash: BlockHash, key: RootKey, row: RootRow, source: string, time: int, later: int)
    ensures ApplyAll(sha, blockHash,
      [WriteRoot(key, row, source, time, true), Restart, WriteRoot(key, row, source, later, false)])
         == Store(map[key := row], map[], [])
  {
    ThreeSteps(sha, blockHash, WriteRoot(key, row, source, time, true), WriteRoot(key, row, source, later, false));
  }

  lemma {:induction false} InterruptedPathIsLost(
    sha: Hash, blockHash: BlockHash, key: PathKey, path: Path, source: string, time: int, later: int)
    ensures ApplyAll(sha, blockHash,
      [WritePath(key, path, source, time, true), Restart, WritePath(key, path, source, later, false)])
         == Store(map[], map[key := path], [])
  {
    ThreeSteps(sha, blockHash, WritePath(key, path, source, time, true), WritePath(key, path, source, later, false));
  }

  lemma ThreeSteps(sha: Hash, blockHash: BlockHash, first: Step, last: Step)
    ensures ApplyAll(sha, blockHash, [first, Restart, last])
         == Apply(sha, blockHash, Apply(sha, blockHash, NEW_STORE, first), last)
  {
    var steps := [first, Restart, last];
    assert steps[..2] == [first, Restart] && steps[..2][..1] == [first] && steps[..2][..1][..0] == [];
    assert ApplyAll(sha, blockHash, steps[..2][..1]) == Apply(sha, blockHash, NEW_STORE, first);
    assert ApplyAll(sha, blockHash, steps[..2]) == Apply(sha, blockHash, NEW_STORE, first);
  }

  // --- What the last block hash pins down --------------------------------------------------------

  /** Two entries with different contents and one block hash. */
  predicate Collides(blockHash: BlockHash, lines: (AuditLine, AuditLine)) {
    && (lines.0.event, lines.0.previousHash) != (lines.1.event, lines.1.previousHash)
    && blockHash(lines.0.event, lines.0.previousHash) == blockHash(lines.1.event, lines.1.previousHash)
  }

  /** The last position, counted from the end, at which two logs differ. */
  function LogExtractor(a: seq<AuditLine>, b: seq<AuditLine>): (AuditLine, AuditLine)
    requires a != [] && b != []
  {
    var (m, n) := (|a| - 1, |b| - 1);
    if a[m] != b[n] || m == 0 || n == 0 then (a[m], b[n]) else LogExtractor(a[..m], b[..n])
  }

  /** Some entry hashes to the value that stands for the empty log. */
  predicate HashesToGenesis(log: seq<AuditLine>) {
    exists i :: 0 <= i < |log| && log[i].blockHash == GENESIS
  }

  /**
   The last block hash determines the whole log, its length included: otherwise an entry hashes to the genesis
   value, or the extractor yields two different entries with one block hash.
   */
  lemma {:induction false} LastHashDeterminesLog(blockHash: BlockHash, a: seq<AuditLine>, b: seq<AuditLine>)
    requires Chained(blockHash, a) && Chained(blockHash, b) && LastHash(a) == LastHash(b)
    requires !HashesToGenesis(a) && !HashesToGenesis(b)
    requires a != [] && b != [] ==> !Collides(blockHash, LogExtractor(a, b))
    ensures a == b
    decreases |a|
  {
    hide Chained;
    if a != [] && b != [] {
      var m, n := |a| - 1, |b| - 1;
      LastLineChained(blockHash, a);
      LastLineChained(blockHash, b);
      assert a[m] == b[n];
      assert forall i :: 0 <= i < m ==> a[..m][i].blockHash == a[i].blockHash;
      assert forall i :: 0 <= i < n ==> b[..n][i].blockHash == b[i].blockHash;
      LastHashDeterminesLog(blockHash, a[..m], b[..n]);
    }
  }

  lemma LastLineChained(blockHash: BlockHash, log: seq<AuditLine>)
    requires Chained(blockHash, log) && log != []
    ensures var n := |log| - 1;
      && Chained(blockHash, log[..n])
      && log[n].previousHash == LastHash(log[..n]) && log[n].blockHash == blockHash(log[n].event, log[n].previousHash)
      && log == log[..n] + [log[n]]
  {
    var n := |log| - 1;
    forall i | 0 <= i < n ensures log[..n][..i] == log[..i] && log[..n][i] == log[i] {
    }
  }
}
