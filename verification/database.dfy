/** The DuckDB connection cache (database.py): a manager keeps at most one
    open read-only connection, probes it with `SELECT 1` before reuse and
    reopens it when the probe fails. The file system, the probe and the open
    call are environment inputs. */
module Database {
  import opened Optional
  import Settings

  /** An open DuckDB connection handle. */
  datatype Conn = Conn(handle: nat)

  /** What `SELECT 1` on the cached connection gave: a row, no row, or an exception. */
  datatype Probe = ProbeRow(row: seq<int>) | ProbeNoRow | ProbeRaised(message: string)

  /** The outside world seen by one `connect` call: whether the database file
      exists, how the probe of a cached connection turns out, and what opening
      a fresh read-only connection gives (a handle, or the driver's error message). */
  datatype Env = Env(fileExists: bool, probe: Probe, open: Result<Conn, string>)

  /** The exceptions `connect` raises. */
  datatype DbError = FileNotFound(path: string) | OpenFailed(message: string)

  /** A manager: the database path and the cached connection (`_connection`). */
  datatype Manager = Manager(path: string, cache: Option<Conn>)

  /** A manager state together with what the call returned or raised. */
  datatype Step<T> = Step(manager: Manager, outcome: Result<T, DbError>)

  /** `str(e)` for the exceptions `connect` raises. */
  function ErrorMessage(e: DbError): string {
    match e
    case FileNotFound(path) => "Database file not found: " + path
    case OpenFailed(message) => message
  }

  /** `DatabaseManager(db_path)`: an empty or missing path falls back to the
      configured one; nothing is cached yet. */
  function NewManager(dbPath: Option<string>): (m: Manager)
    ensures m.cache.None?
    ensures Truthy(dbPath) ==> m.path == dbPath.value
    ensures !Truthy(dbPath) ==> m.path == Settings.DatabasePath
  {
    Manager(if Truthy(dbPath) then dbPath.value else Settings.DatabasePath, None)
  }

  /** The probe validates a connection only when it returns exactly the row `(1,)`. */
  predicate ProbeOk(p: Probe) {
    p == ProbeRow([1])
  }

  /** `connect`: fail when the file is missing (before looking at the cache);
      reuse a cached connection whose probe returns `(1,)`; otherwise drop the
      cache and open a fresh read-only connection, caching it. */
  function Connect(m: Manager, env: Env): (r: Step<Conn>)
    ensures r.manager.path == m.path
    ensures !env.fileExists ==> r == Step(m, Failure(FileNotFound(m.path)))
    ensures env.fileExists && m.cache.Some? && ProbeOk(env.probe) ==> r == Step(m, Success(m.cache.value))
    ensures env.fileExists && !(m.cache.Some? && ProbeOk(env.probe)) ==>
      (env.open.Success? ==> r.outcome == Success(env.open.value))
      && (env.open.Failure? ==> r.outcome == Failure(OpenFailed(env.open.error)) && r.manager.cache.None?)
    ensures r.outcome.Success? ==> r.manager.cache == Some(r.outcome.value)
  {
    if !env.fileExists then Step(m, Failure(FileNotFound(m.path)))
    else
      var kept := if m.cache.Some? && ProbeOk(env.probe) then m.cache else None;
      if kept.Some? then Step(m, Success(kept.value))
      else
        match env.open
        case Success(c) => Step(Manager(m.path, Some(c)), Success(c))
        case Failure(msg) => Step(Manager(m.path, None), Failure(OpenFailed(msg)))
  }

  /** `close`: drops the cached connection; nothing to do when there is none. */
  function Close(m: Manager): (r: Manager)
    ensures r.cache.None? && r.path == m.path
    ensures m.cache.None? ==> r == m
  {
    if m.cache.Some? then Manager(m.path, None) else m
  }

  /** The report of `test_connection`. */
  datatype TestReport = TestSuccess(dbPath: string) | TestError(error: string)

  /** `test_connection`: never raises; reports success exactly when `connect`
      succeeds, and otherwise the message of the exception it raised. */
  function TestConnection(m: Manager, env: Env): (r: (Manager, TestReport))
    ensures r.0 == Connect(m, env).manager
    ensures r.1.TestSuccess? <==> Connect(m, env).outcome.Success?
    ensures r.1.TestSuccess? ==> r.1.dbPath == m.path
    ensures r.1.TestError? ==> r.1.error == ErrorMessage(Connect(m, env).outcome.error)
  {
    var step := Connect(m, env);
    match step.outcome
    case Success(_) => (step.manager, TestSuccess(m.path))
    case Failure(e) => (step.manager, TestError(ErrorMessage(e)))
  }

  /** A missing and an empty path both give the configured default; a fresh
      manager never consults the probe, and on a missing file it reports the
      path it fell back to. */
  lemma NewManagerDefaults(dbPath: Option<string>, env: Env, probe: Probe)
    ensures NewManager(None) == NewManager(Some("")) == Manager(Settings.DatabasePath, None)
    ensures Connect(NewManager(dbPath), env) == Connect(NewManager(dbPath), env.(probe := probe))
    ensures !env.fileExists ==>
      TestConnection(NewManager(dbPath), env).1 == TestError("Database file not found: " + NewManager(dbPath).path)
  {
  }

  /** `close` is idempotent. */
  lemma CloseIdempotent(m: Manager)
    ensures Close(Close(m)) == Close(m)
  {
  }

  /** A missing file wins even over a healthy cached connection. */
  lemma MissingFileBeatsCache(m: Manager, env: Env)
    requires m.cache.Some? && ProbeOk(env.probe) && !env.fileExists
    ensures Connect(m, env).outcome == Failure(FileNotFound(m.path))
    ensures Connect(m, env).manager == m
  {
  }

  /** After a successful `connect`, a second one with a passing probe hands
      back the same connection without opening another, whatever opening
      would have given. */
  lemma ConnectThenReuse(m: Manager, env1: Env, env2: Env)
    requires Connect(m, env1).outcome.Success?
    requires env2.fileExists && ProbeOk(env2.probe)
    ensures Connect(Connect(m, env1).manager, env2) == Connect(m, env1)
  {
  }

  /** A probe that raises or returns anything but `(1,)` discards the cached
      connection: the call behaves exactly as if nothing had been cached. */
  lemma FailedProbeReopens(m: Manager, env: Env)
    requires env.fileExists && m.cache.Some? && !ProbeOk(env.probe)
    ensures Connect(m, env) == Connect(Manager(m.path, None), env)
  {
  }
}
