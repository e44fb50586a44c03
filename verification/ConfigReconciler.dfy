/**
 The FreeRADIUS config reconciler: generated files on disk, a table that remembers the hash last
 applied to each, and a server that re-reads the disk on SIGHUP. Every call that can fail takes
 its outcome from an oracle, so a pass is a function of the state, the source and the outcomes.
 */
module ConfigReconciler {
  import opened Wrappers
  import opened ConfigFiles

  /** A database call: no connection raises to the caller, a failed query is caught and printed. */
  datatype Call = ConnectFails | QueryFails | Works

  datatype Status = Unchanged | Applied | Failed

  datatype Row = Row(kind: string, name: string, tenant: Option<string>, hash: string, status: Status)

  /** The id of the seeded tenant. */
  const DEFAULT_TENANT := "00000000-0000-0000-0000-000000000001"
  const CERTIFICATES := "certificates"
  const CERT_FILES := "_cert_files"

  datatype Disk = Disk(certs: map<string, string>, outputs: map<string, string>)

  datatype State = State(disk: Disk, rows: seq<Row>, tenant: Option<string>)

  /** A call returns a value or raises; either way it leaves a state. */
  datatype Reply<T> = Reply(state: State, value: T) | Raised(state: State)

  // ---------------------------------------------------------------------------
  // The table
  // ---------------------------------------------------------------------------

  predicate SameKey(r: Row, kind: string, name: string, tenant: Option<string>) {
    r.kind == kind && r.name == name && r.tenant == tenant
  }

  /** SELECT last_applied_hash ... LIMIT 1. */
  function Find(rows: seq<Row>, kind: string, name: string, tenant: Option<string>): Option<string> {
    if rows == [] then None
    else if SameKey(rows[0], kind, name, tenant) then Some(rows[0].hash)
    else Find(rows[1..], kind, name, tenant)
  }

  /** INSERT ... ON CONFLICT DO UPDATE: a NULL tenant conflicts with nothing. */
  function Upsert(rows: seq<Row>, r: Row): seq<Row> {
    if rows == [] then [r]
    else if r.tenant.Some? && SameKey(rows[0], r.kind, r.name, r.tenant) then [r] + rows[1..]
    else [rows[0]] + Upsert(rows[1..], r)
  }

  // ---------------------------------------------------------------------------
  // The steps, as functions of state and outcomes
  // ---------------------------------------------------------------------------

  function TenantId(s: State, call: Call): Reply<Option<string>> {
    if s.tenant.Some? then Reply(s, s.tenant)
    else match call
      case ConnectFails => Raised(s)
      case QueryFails => Reply(s, None)
      case Works => Reply(s.(tenant := Some(DEFAULT_TENANT)), Some(DEFAULT_TENANT))
  }

  function StoredHash(s: State, tenantCall: Call, call: Call, kind: string, name: string): Reply<Option<string>> {
    match TenantId(s, tenantCall)
    case Raised(s1) => Raised(s1)
    case Reply(s1, tenant) =>
      match call
      case ConnectFails => Raised(s1)
      case QueryFails => Reply(s1, None)
      case Works => Reply(s1, Find(s1.rows, kind, name, tenant))
  }

  function Save(s: State, tenantCall: Call, call: Call, kind: string, name: string, hash: string, status: Status): Reply<()> {
    match TenantId(s, tenantCall)
    case Raised(s1) => Raised(s1)
    case Reply(s1, tenant) =>
      match call
      case ConnectFails => Raised(s1)
      case QueryFails => Reply(s1, ())
      case Works => Reply(s1.(rows := Upsert(s1.rows, Row(kind, name, tenant, hash, status))), ())
  }

  datatype File = File(name: string, content: string)

  /** A write that fails may leave the file as it was, or with some other content. */
  datatype FileWrite = FileWritten | FileFails(left: Option<string>)

  datatype FileCalls = FileCalls(
    readTenant: Call, read: Call, write: FileWrite,
    saveTenant: Call, save: Call, errorTenant: Call, errorSave: Call)

  function AfterWrite(s: State, file: File, write: FileWrite): State {
    match write
    case FileWritten => s.(disk := s.disk.(outputs := s.disk.outputs[file.name := file.content]))
    case FileFails(None) => s
    case FileFails(Some(left)) => s.(disk := s.disk.(outputs := s.disk.outputs[file.name := left]))
  }

  function RecordError(s: State, c: FileCalls, file: File, hash: string): Reply<Status> {
    match Save(s, c.errorTenant, c.errorSave, ConfigType(file.name), file.name, hash, Failed)
    case Raised(s1) => Raised(s1)
    case Reply(s1, _) => Reply(s1, Failed)
  }

  function FileStep(s: State, c: FileCalls, hash: string -> string, file: File): Reply<Status> {
    var h := hash(file.content);
    match StoredHash(s, c.readTenant, c.read, ConfigType(file.name), file.name)
    case Raised(s1) => Raised(s1)
    case Reply(s1, stored) =>
      if stored == Some(h) then Reply(s1, Unchanged) else
      var s2 := AfterWrite(s1, file, c.write);
      if c.write.FileFails? then RecordError(s2, c, file, h) else
      match Save(s2, c.saveTenant, c.save, ConfigType(file.name), file.name, h, Applied)
      case Raised(s3) => RecordError(s3, c, file, h)
      case Reply(s3, _) => Reply(s3, Applied)
  }

  datatype CertWrite = CertsWritten | CertsFail(left: map<string, string>)

  datatype CertCalls = CertCalls(
    loads: bool, readTenant: Call, read: Call, write: CertWrite, saveTenant: Call, save: Call)

  /** What the database holds during one pass, as far as the generators read it. */
  datatype Source = Source(certHash: string, certFiles: map<string, string>, configs: seq<File>)

  /** The certificate step never raises: whatever goes wrong inside becomes an error entry. */
  function CertStep(s: State, c: CertCalls, src: Source): (State, Status) {
    if !c.loads then (s, Failed) else
    match StoredHash(s, c.readTenant, c.read, CERTIFICATES, CERT_FILES)
    case Raised(s1) => (s1, Failed)
    case Reply(s1, stored) =>
      if stored == Some(src.certHash) then (s1, Unchanged) else
      match c.write
      case CertsFail(left) => (s1.(disk := s1.disk.(certs := s1.disk.certs + left)), Failed)
      case CertsWritten =>
        var s2 := s1.(disk := s1.disk.(certs := s1.disk.certs + src.certFiles));
        match Save(s2, c.saveTenant, c.save, CERTIFICATES, CERT_FILES, src.certHash, Applied)
        case Raised(s3) => (s3, Failed)
        case Reply(s3, _) => (s3, Applied)
  }

  datatype PassCalls = PassCalls(certs: CertCalls, generates: bool, files: nat -> FileCalls, reloads: bool)

  /** The step for each file of a pass, by its position. */
  function FileSteps(c: PassCalls, hash: string -> string, configs: seq<File>): (State, nat) -> Reply<Status> {
    (s: State, i: nat) => if i < |configs| then FileStep(s, c.files(i), hash, configs[i]) else Raised(s)
  }

  /** The first `n` files of a pass; a later entry of the same type replaces an earlier one. */
  function FilesUpTo(s: State, results: map<string, Status>, step: (State, nat) -> Reply<Status>,
                     configs: seq<File>, n: nat): Reply<map<string, Status>>
    requires n <= |configs|
  {
    if n == 0 then Reply(s, results) else
    match FilesUpTo(s, results, step, configs, n - 1)
    case Raised(s1) => Raised(s1)
    case Reply(s1, r1) =>
      match step(s1, n - 1)
      case Raised(s2) => Raised(s2)
      case Reply(s2, status) => Reply(s2, r1[ConfigType(configs[n - 1].name) := status])
  }

  /** `GenerateError` is the early return that reports nothing else. */
  datatype PassEnd = Report(results: map<string, Status>) | GenerateError | Crashed

  function Applying(s: State, src: Source, c: PassCalls, hash: string -> string): (State, PassEnd) {
    var (s1, certs) := CertStep(s, c.certs, src);
    if !c.generates then (s1, GenerateError) else
    match FilesUpTo(s1, map[CERTIFICATES := certs], FileSteps(c, hash, src.configs), src.configs, |src.configs|)
    case Raised(s2) => (s2, Crashed)
    case Reply(s2, results) => (s2, Report(results))
  }

  predicate HasApplied(end: PassEnd) {
    end.Report? && exists kind :: kind in end.results && end.results[kind] == Applied
  }

  datatype System = System(state: State, running: Disk)

  datatype Reload = ReloadOk | ReloadError | ReloadSkipped

  function PassStep(x: System, src: Source, c: PassCalls, hash: string -> string): (System, Reload) {
    var (s, end) := Applying(x.state, src, c, hash);
    if !HasApplied(end) then (System(s, x.running), ReloadSkipped)
    else if c.reloads then (System(s, s.disk), ReloadOk)
    else (System(s, x.running), ReloadError)
  }

  // ---------------------------------------------------------------------------
  // The manager and the watcher, as objects
  // ---------------------------------------------------------------------------

  class ConfigManager {
    var disk: Disk
    var rows: seq<Row>
    var tenant: Option<string>

    function View(): State
      reads this
    {
      State(disk, rows, tenant)
    }

    constructor (disk: Disk, rows: seq<Row>)
      ensures View() == State(disk, rows, None)
    {
      this.disk := disk;
      this.rows := rows;
      this.tenant := None;
    }

    method GetDefaultTenantId(call: Call) returns (r: Result<Option<string>, ()>)
      modifies this`tenant
      ensures TenantId(old(View()), call) == if r.Ok? then Reply(View(), r.value) else Raised(View())
    {
      if tenant.Some? {
        return Ok(tenant);
      }
      match call {
        case ConnectFails =>
          return Err(());
        case QueryFails =>
          return Ok(None);
        case Works =>
          tenant := Some(DEFAULT_TENANT);
          return Ok(tenant);
      }
    }

    method GetStoredHash(tenantCall: Call, call: Call, kind: string, name: string) returns (r: Result<Option<string>, ()>)
      modifies this`tenant
      ensures StoredHash(old(View()), tenantCall, call, kind, name)
           == if r.Ok? then Reply(View(), r.value) else Raised(View())
    {
      var id := GetDefaultTenantId(tenantCall);
      if id.Err? || call.ConnectFails? {
        return Err(());
      }
      if call.QueryFails? {
        return Ok(None);
      }
      return Ok(Find(rows, kind, name, id.value));
    }

    method SaveConfigState(tenantCall: Call, call: Call, kind: string, name: string, hash: string, status: Status)
      returns (r: Result<(), ()>)
      modifies this`tenant, this`rows
      ensures Save(old(View()), tenantCall, call, kind, name, hash, status)
           == if r.Ok? then Reply(View(), ()) else Raised(View())
    {
      var id := GetDefaultTenantId(tenantCall);
      if id.Err? || call.ConnectFails? {
        return Err(());
      }
      if call.Works? {
        rows := Upsert(rows, Row(kind, name, id.value, hash, status));
      }
      return Ok(());
    }

    method WriteFile(file: File, write: FileWrite) returns (written: bool)
      modifies this`disk
      ensures View() == AfterWrite(old(View()), file, write)
      ensures written <==> write.FileWritten?
    {
      match write {
        case FileWritten =>
          disk := disk.(outputs := disk.outputs[file.name := file.content]);
          return true;
        case FileFails(left) =>
          if left.Some? {
            disk := disk.(outputs := disk.outputs[file.name := left.value]);
          }
          return false;
      }
    }

    method ApplyCertificates(c: CertCalls, src: Source) returns (status: Status)
      modifies this
      ensures (View(), status) == CertStep(old(View()), c, src)
    {
      if !c.loads {
        return Failed;
      }
      var stored := GetStoredHash(c.readTenant, c.read, CERTIFICATES, CERT_FILES);
      if stored.Err? {
        return Failed;
      }
      if stored.value == Some(src.certHash) {
        return Unchanged;
      }
      match c.write {
        case CertsFail(left) =>
          disk := disk.(certs := disk.certs + left);
          return Failed;
        case CertsWritten =>
          disk := disk.(certs := disk.certs + src.certFiles);
          var saved := SaveConfigState(c.saveTenant, c.save, CERTIFICATES, CERT_FILES, src.certHash, Applied);
          return if saved.Ok? then Applied else Failed;
      }
    }

    method ApplyFile(c: FileCalls, hash: string -> string, file: File) returns (r: Result<Status, ()>)
      modifies this
      ensures FileStep(old(View()), c, hash, file) == if r.Ok? then Reply(View(), r.value) else Raised(View())
    {
      var h := hash(file.content);
      var kind := ConfigType(file.name);
      var stored := GetStoredHash(c.readTenant, c.read, kind, file.name);
      if stored.Err? {
        return Err(());
      }
      if stored.value == Some(h) {
        return Ok(Unchanged);
      }
      var written := WriteFile(file, c.write);
      if written {
        var saved := SaveConfigState(c.saveTenant, c.save, kind, file.name, h, Applied);
        if saved.Ok? {
          return Ok(Applied);
        }
      }
      var recorded := SaveConfigState(c.errorTenant, c.errorSave, kind, file.name, h, Failed);
      return if recorded.Ok? then Ok(Failed) else Err(());
    }

    method ApplyConfigs(src: Source, c: PassCalls, hash: string -> string) returns (end: PassEnd)
      modifies this
      ensures (View(), end) == Applying(old(View()), src, c, hash)
    {
      var results := map[];
      var certs := ApplyCertificates(c.certs, src);
      results := results[CERTIFICATES := certs];
      if !c.generates {
        return GenerateError;
      }
      ghost var s1, first, step := View(), results, FileSteps(c, hash, src.configs);
      assert first == map[CERTIFICATES := certs];
      for i := 0 to |src.configs|
        invariant FilesUpTo(s1, first, step, src.configs, i) == Reply(View(), results)
      {
        var status := ApplyFile(c.files(i), hash, src.configs[i]);
        if status.Err? {
          assert FilesUpTo(s1, first, step, src.configs, i + 1).Raised?;
          RaisedStays(s1, first, step, src.configs, i + 1, |src.configs|);
          return Crashed;
        }
        results := results[ConfigType(src.configs[i].name) := status.value];
      }
      return Report(results);
    }
  }

  lemma {:induction false} RaisedStays(s: State, results: map<string, Status>, step: (State, nat) -> Reply<Status>,
                                       configs: seq<File>, m: nat, n: nat)
    requires m <= n <= |configs| && FilesUpTo(s, results, step, configs, m).Raised?
    ensures FilesUpTo(s, results, step, configs, n) == FilesUpTo(s, results, step, configs, m)
    decreases n
  {
    if m < n {
      RaisedStays(s, results, step, configs, m, n - 1);
    }
  }

  lemma AppliedInValues(end: PassEnd)
    ensures HasApplied(end) <==> end.Report? && Applied in end.results.Values
  {
    if HasApplied(end) {
      var kind :| kind in end.results && end.results[kind] == Applied;
      assert end.results[kind] in end.results.Values;
    }
  }

  class Watcher {
    const manager: ConfigManager
    var running: Disk

    constructor (manager: ConfigManager, running: Disk)
      ensures this.manager == manager && this.running == running
    {
      this.manager := manager;
      this.running := running;
    }

    /** One message or one timeout of the event loop. */
    method ApplyAndReload(src: Source, c: PassCalls, hash: string -> string) returns (reload: Reload)
      modifies this, manager
      ensures (System(manager.View(), running), reload)
           == PassStep(old(System(manager.View(), running)), src, c, hash)
    {
      var end := manager.ApplyConfigs(src, c, hash);
      AppliedInValues(end);
      if end.Report? && Applied in end.results.Values {
        if c.reloads {
          running := manager.disk;
          return ReloadOk;
        }
        return ReloadError;
      }
      return ReloadSkipped;
    }
  }
}
