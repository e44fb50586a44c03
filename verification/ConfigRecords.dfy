/**
 What one pass of the reconciler records and reports of each file, status included, and when it
 signals the server: exactly, by the calls.
 */
module ConfigRecords {
  import opened Wrappers
  import opened ConfigFiles
  import opened ConfigReconciler
  import opened ConfigSteps
  import opened ConfigConvergence
  import opened ConfigInStep

  // ---------------------------------------------------------------------------
  // The row of a file
  // ---------------------------------------------------------------------------

  /** The row under a key of the default tenant. */
  function RowUnder(rows: seq<Row>, kind: string, name: string): Option<Row> {
    if rows == [] then None
    else if rows[0].kind == kind && rows[0].name == name && rows[0].tenant == TENANT then Some(rows[0])
    else RowUnder(rows[1..], kind, name)
  }

  function FileRecord(s: State, name: string): Option<Row> {
    RowUnder(s.rows, ConfigType(name), name)
  }

  /** The stored hash is the hash in that row. */
  lemma {:induction false} HashOfRow(rows: seq<Row>, kind: string, name: string)
    ensures Find(rows, kind, name, TENANT).Some? <==> RowUnder(rows, kind, name).Some?
    ensures RowUnder(rows, kind, name).Some? ==> Find(rows, kind, name, TENANT) == Some(RowUnder(rows, kind, name).value.hash)
    decreases rows
  {
    if rows != [] {
      HashOfRow(rows[1..], kind, name);
    }
  }

  /** A saved row stands under its key as it was saved; a row without a tenant stands under none. */
  lemma {:induction false} RowAfterUpsert(rows: seq<Row>, r: Row, kind: string, name: string)
    requires r.tenant == None || r.tenant == TENANT
    ensures RowUnder(Upsert(rows, r), kind, name)
         == if r.tenant == TENANT && r.kind == kind && r.name == name then Some(r) else RowUnder(rows, kind, name)
    decreases rows
  {
    if rows != [] {
      RowAfterUpsert(rows[1..], r, kind, name);
    }
  }

  lemma RowSaved(s: State, tenantCall: Call, call: Call, kind: string, name: string, hash: string, status: Status)
    requires TenantKnown(s)
    ensures var x := Save(s, tenantCall, call, kind, name, hash, status);
            && (x.Raised? <==> CallRaises(s.tenant, tenantCall, call))
            && x.state.tenant == TenantAfter(s.tenant, tenantCall)
            && RowUnder(x.state.rows, kind, name)
               == if x.Reply? && call.Works? && x.state.tenant.Some? then Some(Row(kind, name, TENANT, hash, status))
                  else RowUnder(s.rows, kind, name)
  {
    RowAfterUpsert(s.rows, Row(kind, name, TENANT, hash, status), kind, name);
    RowAfterUpsert(s.rows, Row(kind, name, None, hash, status), kind, name);
  }

  lemma ErrorRecorded(s: State, c: FileCalls, file: File, hash: string)
    requires TenantKnown(s)
    ensures FileRecord(RecordError(s, c, file, hash).state, file.name)
         == if !CallRaises(s.tenant, c.errorTenant, c.errorSave) && c.errorSave.Works? && TenantAfter(s.tenant, c.errorTenant).Some?
            then Some(Row(ConfigType(file.name), file.name, TENANT, hash, Failed)) else FileRecord(s, file.name)
  {
    RowSaved(s, c.errorTenant, c.errorSave, ConfigType(file.name), file.name, hash, Failed);
  }

  /** Written and saved, as far as the calls go; otherwise the failure is what there is to record. */
  predicate GoesThrough(s: State, c: FileCalls) {
    c.write.FileWritten? && !SaveRaises(s, c)
  }

  lemma FailedRecord(s: State, c: FileCalls, hash: string -> string, file: File)
    requires TenantKnown(s) && !ReadRaises(s, c) && !Skips(s, c, hash, file) && c.write.FileFails?
    ensures FileRecord(FileStep(s, c, hash, file).state, file.name)
         == if Records(s, c) then Some(Row(ConfigType(file.name), file.name, TENANT, hash(file.content), Failed))
            else FileRecord(s, file.name)
  {
    var s1 := StoredHash(s, c.readTenant, c.read, ConfigType(file.name), file.name).state;
    ErrorRecorded(AfterWrite(s1, file, c.write), c, file, hash(file.content));
  }

  lemma WrittenRecord(s: State, c: FileCalls, hash: string -> string, file: File)
    requires TenantKnown(s) && !ReadRaises(s, c) && !Skips(s, c, hash, file) && c.write.FileWritten?
    ensures FileRecord(FileStep(s, c, hash, file).state, file.name)
         == if Records(s, c)
            then Some(Row(ConfigType(file.name), file.name, TENANT, hash(file.content), if GoesThrough(s, c) then Applied else Failed))
            else FileRecord(s, file.name)
  {
    var kind, h := ConfigType(file.name), hash(file.content);
    var s2 := AfterWrite(StoredHash(s, c.readTenant, c.read, kind, file.name).state, file, c.write);
    RowSaved(s2, c.saveTenant, c.save, kind, file.name, h, Applied);
    ErrorRecorded(Save(s2, c.saveTenant, c.save, kind, file.name, h, Applied).state, c, file, h);
  }

  /**
   What the table says of a file after its step: as before if the step wrote nothing or recorded
   nothing; otherwise the new hash, as applied if file and row were written, else as failed.
   */
  lemma RecordExactly(s: State, c: FileCalls, hash: string -> string, file: File)
    requires TenantKnown(s)
    ensures FileRecord(FileStep(s, c, hash, file).state, file.name)
         == if ReadRaises(s, c) || Skips(s, c, hash, file) || !Records(s, c) then FileRecord(s, file.name)
            else Some(Row(ConfigType(file.name), file.name, TENANT, hash(file.content), if GoesThrough(s, c) then Applied else Failed))
  {
    if ReadRaises(s, c) || Skips(s, c, hash, file) {
      StepLeavesAll(s, c, hash, file);
    } else if c.write.FileWritten? {
      WrittenRecord(s, c, hash, file);
    } else {
      FailedRecord(s, c, hash, file);
    }
  }

  // ---------------------------------------------------------------------------
  // The report
  // ---------------------------------------------------------------------------

  /** What a step reports when it does not raise: the hash was current, or file and row were written, or neither. */
  function StatusByCalls(s: State, c: FileCalls, hash: string -> string, file: File): Status {
    if Skips(s, c, hash, file) then Unchanged else if GoesThrough(s, c) then Applied else Failed
  }

  lemma StepReports(s: State, c: FileCalls, hash: string -> string, file: File)
    ensures var x := FileStep(s, c, hash, file);
            (x.Raised? <==> FileRaises(s, c, hash, file)) && (x.Reply? ==> x.value == StatusByCalls(s, c, hash, file))
  {
  }

  function CertStatusByCalls(s: State, c: CertCalls, src: Source): Status {
    if CertsUntouched(s, c, src)
    then if c.loads && !CallRaises(s.tenant, c.readTenant, c.read) then Unchanged else Failed
    else if CertsApply(s, c, src) then Applied else Failed
  }

  lemma CertStepReports(s: State, c: CertCalls, src: Source)
    ensures CertStep(s, c, src).1 == CertStatusByCalls(s, c, src)
  {
  }

  lemma {:induction false} ResultKept(s: State, m: Results, step: (State, nat) -> Reply<Status>, configs: seq<File>, n: nat, kind: string)
    requires n <= |configs| && FilesUpTo(s, m, step, configs, n).Reply? && kind in m
    requires forall i :: 0 <= i < n ==> ConfigType(configs[i].name) != kind
    ensures kind in FilesUpTo(s, m, step, configs, n).value && FilesUpTo(s, m, step, configs, n).value[kind] == m[kind]
    decreases n
  {
    if n > 0 {
      ResultKept(s, m, step, configs, n - 1, kind);
    }
  }

  lemma {:induction false} ResultAt(s: State, m: Results, step: (State, nat) -> Reply<Status>, configs: seq<File>, n: nat, i: nat)
    requires i < n <= |configs| && FilesUpTo(s, m, step, configs, n).Reply?
    requires forall j :: i < j < n ==> ConfigType(configs[j].name) != ConfigType(configs[i].name)
    ensures var kind, x := ConfigType(configs[i].name), step(FilesUpTo(s, m, step, configs, i).state, i);
            && x.Reply? && kind in FilesUpTo(s, m, step, configs, n).value
            && FilesUpTo(s, m, step, configs, n).value[kind] == x.value
    decreases n
  {
    if i < n - 1 {
      ResultAt(s, m, step, configs, n - 1, i);
    }
  }

  lemma KindsOfNames(src: Source, i: nat, j: nat)
    requires WellNamed(src) && i < j < |src.configs|
    ensures ConfigType(src.configs[j].name) != ConfigType(src.configs[i].name)
    ensures ConfigType(src.configs[i].name) != CERTIFICATES && ConfigType(src.configs[j].name) != CERTIFICATES
  {
    GeneratedTypesDistinct(src.configs[i].name, src.configs[j].name);
    GeneratedTypesDistinct(src.configs[j].name, src.configs[j].name);
  }

  lemma KindOfName(src: Source, i: nat)
    requires WellNamed(src) && i < |src.configs|
    ensures ConfigType(src.configs[i].name) != CERTIFICATES
  {
    GeneratedTypesDistinct(src.configs[i].name, src.configs[i].name);
  }

  /** A report says of the certificates, and of every file under its type, what the calls of its step decide. */
  lemma ReportExactly(s: State, src: Source, c: PassCalls, hash: string -> string, i: nat)
    requires WellNamed(src) && Applying(s, src, c, hash).1.Report? && i < |src.configs|
    ensures var results, kind := Applying(s, src, c, hash).1.results, ConfigType(src.configs[i].name);
            && CERTIFICATES in results && results[CERTIFICATES] == CertStatusByCalls(s, c.certs, src)
            && kind in results && results[kind] == StatusByCalls(StateAt(s, src, c, hash, i), c.files(i), hash, src.configs[i])
  {
    var (s1, certs) := CertStep(s, c.certs, src);
    var m, step, n := map[CERTIFICATES := certs], FileSteps(c, hash, src.configs), |src.configs|;
    CertStepReports(s, c.certs, src);
    forall j | i < j < n ensures ConfigType(src.configs[j].name) != ConfigType(src.configs[i].name) {
      KindsOfNames(src, i, j);
    }
    forall j | 0 <= j < n ensures ConfigType(src.configs[j].name) != CERTIFICATES {
      KindOfName(src, j);
    }
    ResultKept(s1, m, step, src.configs, n, CERTIFICATES);
    ResultAt(s1, m, step, src.configs, n, i);
    StepReports(StateAt(s, src, c, hash, i), c.files(i), hash, src.configs[i]);
  }

  // ---------------------------------------------------------------------------
  // The signal
  // ---------------------------------------------------------------------------

  /** The server is signalled exactly when nothing raised and something was applied, and then runs the disk exactly if the signal works. */
  lemma SignalExactly(x: System, src: Source, c: PassCalls, hash: string -> string)
    requires WellNamed(src)
    ensures var (y, reload) := PassStep(x, src, c, hash);
            var due := c.generates && NoFileRaises(x.state, src, c, hash) && SomethingApplies(x.state, src, c, hash);
            && (reload == ReloadSkipped <==> !due)
            && (reload == ReloadOk <==> due && c.reloads)
            && y.running == (if due && c.reloads then y.state.disk else x.running)
  {
    if c.generates {
      PassEndsExactly(x.state, src, c, hash);
    }
  }
}
