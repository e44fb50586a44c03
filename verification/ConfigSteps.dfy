/**
 Single steps of the reconciler, by their calls: when a step raises, what it reports, and what it
 leaves in the table and on disk.
 */
module ConfigSteps {
  import opened Wrappers
  import opened ConfigFiles
  import opened ConfigReconciler

  // ---------------------------------------------------------------------------
  // The files of a pass
  // ---------------------------------------------------------------------------

  type Results = map<string, Status>

  ghost predicate Leads(x: Reply<Status>, m: Results, kind: string, i: nat, p: (State, Results, nat) -> bool, r: State -> bool) {
    match x
    case Reply(t, status) => p(t, m[kind := status], i + 1)
    case Raised(t) => r(t)
  }

  /** What each step leads to, `p` one file later or `r` where it raises, holds after any number of files. */
  lemma {:induction false} FilesInduction(s: State, m: Results, step: (State, nat) -> Reply<Status>, configs: seq<File>, n: nat,
                                          p: (State, Results, nat) -> bool, r: State -> bool)
    requires n <= |configs| && p(s, m, 0)
    requires forall t, m, i: nat {:trigger Leads(step(t, i), m, ConfigType(configs[i].name), i, p, r)} ::
               i < n && p(t, m, i) ==> Leads(step(t, i), m, ConfigType(configs[i].name), i, p, r)
    ensures var x := FilesUpTo(s, m, step, configs, n);
            if x.Reply? then p(x.state, x.value, n) else r(x.state)
    decreases n
  {
    if n > 0 {
      FilesInduction(s, m, step, configs, n - 1, p, r);
      var before := FilesUpTo(s, m, step, configs, n - 1);
      if before.Reply? {
        assert Leads(step(before.state, n - 1), before.value, ConfigType(configs[n - 1].name), n - 1, p, r);
      }
    }
  }

  // ---------------------------------------------------------------------------
  // The table
  // ---------------------------------------------------------------------------

  predicate HasKey(rows: seq<Row>, kind: string, name: string, tenant: Option<string>) {
    exists i :: 0 <= i < |rows| && SameKey(rows[i], kind, name, tenant)
  }

  /** The unique constraint on (type, name, tenant), which ignores NULL. */
  predicate KeysUnique(rows: seq<Row>) {
    forall i, j :: 0 <= i < j < |rows| && rows[i].tenant.Some? ==>
      !SameKey(rows[j], rows[i].kind, rows[i].name, rows[i].tenant)
  }

  lemma {:induction false} UpsertShape(rows: seq<Row>, r: Row) returns (k: nat)
    ensures k <= |rows| && Upsert(rows, r) == rows[..k] + [r] + rows[if k < |rows| then k + 1 else k..]
    ensures k < |rows| ==> r.tenant.Some? && SameKey(rows[k], r.kind, r.name, r.tenant)
    ensures r.tenant.Some? ==> forall i :: 0 <= i < k ==> !SameKey(rows[i], r.kind, r.name, r.tenant)
    ensures r.tenant.None? ==> k == |rows|
    decreases rows
  {
    if rows == [] || (r.tenant.Some? && SameKey(rows[0], r.kind, r.name, r.tenant)) {
      k := 0;
    } else {
      var k' := UpsertShape(rows[1..], r);
      k := k' + 1;
    }
  }

  lemma UpsertKeepsUnique(rows: seq<Row>, r: Row)
    requires KeysUnique(rows)
    ensures KeysUnique(Upsert(rows, r))
  {
    var k := UpsertShape(rows, r);
  }

  /** A row is replaced or added; under a NULL tenant every save adds one. */
  lemma UpsertCounts(rows: seq<Row>, r: Row)
    ensures |Upsert(rows, r)| == |rows| + if r.tenant.Some? && HasKey(rows, r.kind, r.name, r.tenant) then 0 else 1
  {
    var k := UpsertShape(rows, r);
  }

  lemma {:induction false} FindAfterUpsert(rows: seq<Row>, r: Row, kind: string, name: string, tenant: Option<string>)
    requires r.tenant.Some?
    ensures Find(Upsert(rows, r), kind, name, tenant)
         == if SameKey(r, kind, name, tenant) then Some(r.hash) else Find(rows, kind, name, tenant)
    decreases rows
  {
    if rows != [] {
      FindAfterUpsert(rows[1..], r, kind, name, tenant);
    }
  }

  lemma {:induction false} FindAfterNullRow(rows: seq<Row>, r: Row, kind: string, name: string)
    requires r.tenant.None?
    ensures Find(Upsert(rows, r), kind, name, TENANT) == Find(rows, kind, name, TENANT)
    decreases rows
  {
    if rows != [] {
      FindAfterNullRow(rows[1..], r, kind, name);
    }
  }

  lemma SaveKeepsUnique(s: State, tenantCall: Call, call: Call, kind: string, name: string, hash: string, status: Status)
    requires KeysUnique(s.rows)
    ensures KeysUnique(Save(s, tenantCall, call, kind, name, hash, status).state.rows)
  {
    var id := TenantId(s, tenantCall);
    if id.Reply? {
      UpsertKeepsUnique(s.rows, Row(kind, name, id.value, hash, status));
    }
  }

  lemma FileStepKeepsUnique(s: State, c: FileCalls, hash: string -> string, file: File)
    requires KeysUnique(s.rows)
    ensures KeysUnique(FileStep(s, c, hash, file).state.rows)
  {
    var kind, h := ConfigType(file.name), hash(file.content);
    var s2 := AfterWrite(StoredHash(s, c.readTenant, c.read, kind, file.name).state, file, c.write);
    SaveKeepsUnique(s2, c.saveTenant, c.save, kind, file.name, h, Applied);
    var s3 := Save(s2, c.saveTenant, c.save, kind, file.name, h, Applied).state;
    SaveKeepsUnique(if c.write.FileFails? then s2 else s3, c.errorTenant, c.errorSave, kind, file.name, h, Failed);
  }

  // ---------------------------------------------------------------------------
  // What a state says of one file
  // ---------------------------------------------------------------------------

  const TENANT := Some(DEFAULT_TENANT)

  predicate TenantKnown(s: State) {
    s.tenant == None || s.tenant == TENANT
  }

  function FileRow(s: State, name: string): Option<string> {
    Find(s.rows, ConfigType(name), name, TENANT)
  }

  function CertRow(s: State): Option<string> {
    Find(s.rows, CERTIFICATES, CERT_FILES, TENANT)
  }

  function Entry(d: Disk, name: string): Option<string> {
    if name in d.outputs then Some(d.outputs[name]) else None
  }

  /** What one step leaves when its write and its save work. */
  predicate Keeps(s: State, after: State) {
    TenantKnown(after) && after.disk == s.disk && after.rows == s.rows
  }

  predicate FileHolds(d: Disk, name: string, content: string) {
    name in d.outputs && d.outputs[name] == content
  }

  predicate CertsHold(d: Disk, files: map<string, string>) {
    forall f :: f in files ==> f in d.certs && d.certs[f] == files[f]
  }

  // ---------------------------------------------------------------------------
  // What the calls decide
  // ---------------------------------------------------------------------------

  /** A call raises when the tenant has to be looked up and that raises, or when it raises itself. */
  predicate CallRaises(tenant: Option<string>, tenantCall: Call, call: Call) {
    (tenant.None? && tenantCall.ConnectFails?) || call.ConnectFails?
  }

  function TenantAfter(tenant: Option<string>, tenantCall: Call): Option<string> {
    if tenant.None? && tenantCall.Works? then TENANT else tenant
  }

  predicate ReadRaises(s: State, c: FileCalls) {
    CallRaises(s.tenant, c.readTenant, c.read)
  }

  /** The stored hash is read and is the current one. */
  predicate Skips(s: State, c: FileCalls, hash: string -> string, file: File) {
    && !ReadRaises(s, c) && c.read.Works?
    && Find(s.rows, ConfigType(file.name), file.name, TenantAfter(s.tenant, c.readTenant)) == Some(hash(file.content))
  }

  predicate SaveRaises(s: State, c: FileCalls) {
    CallRaises(TenantAfter(s.tenant, c.readTenant), c.saveTenant, c.save)
  }

  /** The error is recorded after a failed write or a save that raised. */
  predicate ErrorRaises(s: State, c: FileCalls) {
    var tenant := TenantAfter(s.tenant, c.readTenant);
    CallRaises(if c.write.FileWritten? then TenantAfter(tenant, c.saveTenant) else tenant, c.errorTenant, c.errorSave)
  }

  predicate FileApplies(s: State, c: FileCalls, hash: string -> string, file: File) {
    !ReadRaises(s, c) && !Skips(s, c, hash, file) && c.write.FileWritten? && !SaveRaises(s, c)
  }

  predicate FileRaises(s: State, c: FileCalls, hash: string -> string, file: File) {
    || ReadRaises(s, c)
    || (!Skips(s, c, hash, file) && (c.write.FileFails? || SaveRaises(s, c)) && ErrorRaises(s, c))
  }

  predicate IsApplied(x: Reply<Status>) {
    x.Reply? && x.value == Applied
  }

  lemma FileStepOutcome(s: State, c: FileCalls, hash: string -> string, file: File)
    ensures FileStep(s, c, hash, file).Raised? <==> FileRaises(s, c, hash, file)
    ensures IsApplied(FileStep(s, c, hash, file)) <==> FileApplies(s, c, hash, file)
  {
  }

  predicate CertsApply(s: State, c: CertCalls, src: Source) {
    && c.loads && !CallRaises(s.tenant, c.readTenant, c.read)
    && !(c.read.Works? && Find(s.rows, CERTIFICATES, CERT_FILES, TenantAfter(s.tenant, c.readTenant)) == Some(src.certHash))
    && c.write.CertsWritten? && !CallRaises(TenantAfter(s.tenant, c.readTenant), c.saveTenant, c.save)
  }

  lemma CertStepOutcome(s: State, c: CertCalls, src: Source)
    ensures CertStep(s, c, src).1 == Applied <==> CertsApply(s, c, src)
  {
  }

  // ---------------------------------------------------------------------------
  // What a step leaves
  // ---------------------------------------------------------------------------

  /** What is on disk under a file's name after a write. */
  function Written(d: Disk, file: File, write: FileWrite): Option<string> {
    match write
    case FileWritten => Some(file.content)
    case FileFails(left) => if left.Some? then left else Entry(d, file.name)
  }

  /** The tenant that the save sees, and the one that the saving of an error sees. */
  function SaveTenant(s: State, c: FileCalls): Option<string> {
    TenantAfter(TenantAfter(s.tenant, c.readTenant), c.saveTenant)
  }

  function ErrorTenant(s: State, c: FileCalls): Option<string> {
    TenantAfter(if c.write.FileWritten? then SaveTenant(s, c) else TenantAfter(s.tenant, c.readTenant), c.errorTenant)
  }

  /** Whether a step that does not skip records the current hash under the default tenant. */
  predicate Records(s: State, c: FileCalls) {
    if c.write.FileWritten? && !SaveRaises(s, c) then c.save.Works? && SaveTenant(s, c).Some?
    else !ErrorRaises(s, c) && c.errorSave.Works? && ErrorTenant(s, c).Some?
  }

  lemma SaveRow(s: State, tenantCall: Call, call: Call, kind: string, name: string, hash: string, status: Status)
    requires TenantKnown(s)
    ensures var x := Save(s, tenantCall, call, kind, name, hash, status);
            && (x.Raised? <==> CallRaises(s.tenant, tenantCall, call))
            && x.state.tenant == TenantAfter(s.tenant, tenantCall) && x.state.disk == s.disk
            && Find(x.state.rows, kind, name, TENANT)
                 == if x.Reply? && call.Works? && x.state.tenant.Some? then Some(hash) else Find(s.rows, kind, name, TENANT)
  {
    FindAfterUpsert(s.rows, Row(kind, name, TENANT, hash, status), kind, name, TENANT);
    FindAfterNullRow(s.rows, Row(kind, name, None, hash, status), kind, name);
  }

  lemma ErrorRow(s: State, c: FileCalls, file: File, hash: string)
    requires TenantKnown(s)
    ensures FileRow(RecordError(s, c, file, hash).state, file.name)
         == if !CallRaises(s.tenant, c.errorTenant, c.errorSave) && c.errorSave.Works? && TenantAfter(s.tenant, c.errorTenant).Some?
            then Some(hash) else FileRow(s, file.name)
  {
    SaveRow(s, c.errorTenant, c.errorSave, ConfigType(file.name), file.name, hash, Failed);
  }

  lemma FailedStepRow(s: State, c: FileCalls, hash: string -> string, file: File)
    requires TenantKnown(s) && !ReadRaises(s, c) && !Skips(s, c, hash, file) && c.write.FileFails?
    ensures FileRow(FileStep(s, c, hash, file).state, file.name)
         == if Records(s, c) then Some(hash(file.content)) else FileRow(s, file.name)
  {
    var s1 := StoredHash(s, c.readTenant, c.read, ConfigType(file.name), file.name).state;
    ErrorRow(AfterWrite(s1, file, c.write), c, file, hash(file.content));
  }

  lemma WrittenStepRow(s: State, c: FileCalls, hash: string -> string, file: File)
    requires TenantKnown(s) && !ReadRaises(s, c) && !Skips(s, c, hash, file) && c.write.FileWritten?
    ensures FileRow(FileStep(s, c, hash, file).state, file.name)
         == if Records(s, c) then Some(hash(file.content)) else FileRow(s, file.name)
  {
    var kind, h := ConfigType(file.name), hash(file.content);
    var s2 := AfterWrite(StoredHash(s, c.readTenant, c.read, kind, file.name).state, file, c.write);
    SaveRow(s2, c.saveTenant, c.save, kind, file.name, h, Applied);
    ErrorRow(Save(s2, c.saveTenant, c.save, kind, file.name, h, Applied).state, c, file, h);
  }

  lemma StepLeavesRow(s: State, c: FileCalls, hash: string -> string, file: File)
    requires TenantKnown(s) && !ReadRaises(s, c) && !Skips(s, c, hash, file)
    ensures FileRow(FileStep(s, c, hash, file).state, file.name)
         == if Records(s, c) then Some(hash(file.content)) else FileRow(s, file.name)
  {
    if c.write.FileWritten? {
      WrittenStepRow(s, c, hash, file);
    } else {
      FailedStepRow(s, c, hash, file);
    }
  }

  lemma SaveLeavesDisk(s: State, tenantCall: Call, call: Call, kind: string, name: string, hash: string, status: Status)
    ensures Save(s, tenantCall, call, kind, name, hash, status).state.disk == s.disk
  {
  }

  lemma StepLeavesEntry(s: State, c: FileCalls, hash: string -> string, file: File)
    requires !ReadRaises(s, c) && !Skips(s, c, hash, file)
    ensures Entry(FileStep(s, c, hash, file).state.disk, file.name) == Written(s.disk, file, c.write)
  {
    var kind, h := ConfigType(file.name), hash(file.content);
    var s2 := AfterWrite(StoredHash(s, c.readTenant, c.read, kind, file.name).state, file, c.write);
    SaveLeavesDisk(s2, c.saveTenant, c.save, kind, file.name, h, Applied);
    var s3 := Save(s2, c.saveTenant, c.save, kind, file.name, h, Applied).state;
    SaveLeavesDisk(if c.write.FileFails? then s2 else s3, c.errorTenant, c.errorSave, kind, file.name, h, Failed);
  }

  lemma StepLeavesAll(s: State, c: FileCalls, hash: string -> string, file: File)
    requires ReadRaises(s, c) || Skips(s, c, hash, file)
    ensures var after := FileStep(s, c, hash, file).state; after.disk == s.disk && after.rows == s.rows
  {
  }

  lemma FileStepDisk(s: State, c: FileCalls, hash: string -> string, file: File)
    ensures FileStep(s, c, hash, file).state.disk in {s.disk, AfterWrite(s, file, c.write).disk}
  {
    var kind, h := ConfigType(file.name), hash(file.content);
    var s1 := StoredHash(s, c.readTenant, c.read, kind, file.name).state;
    assert s1.disk == s.disk;
    var s2 := AfterWrite(s1, file, c.write);
    SaveLeavesDisk(s2, c.saveTenant, c.save, kind, file.name, h, Applied);
    var s3 := Save(s2, c.saveTenant, c.save, kind, file.name, h, Applied).state;
    SaveLeavesDisk(if c.write.FileFails? then s2 else s3, c.errorTenant, c.errorSave, kind, file.name, h, Failed);
  }

  /** A file step touches no certificate and no file but its own. */
  lemma FileStepFrame(s: State, c: FileCalls, hash: string -> string, file: File)
    ensures FileStep(s, c, hash, file).state.disk.certs == s.disk.certs
    ensures forall name :: name != file.name ==> Entry(FileStep(s, c, hash, file).state.disk, name) == Entry(s.disk, name)
  {
    FileStepDisk(s, c, hash, file);
  }

  /** A step that writes nothing, or what is there already. */
  predicate LeavesFile(s: State, c: FileCalls, hash: string -> string, file: File) {
    ReadRaises(s, c) || Skips(s, c, hash, file) || Written(s.disk, file, c.write) == Entry(s.disk, file.name)
  }

  lemma SameByEntry(after: Disk, before: Disk, name: string)
    requires after.certs == before.certs && forall n :: n != name ==> Entry(after, n) == Entry(before, n)
    ensures after == before <==> Entry(after, name) == Entry(before, name)
  {
    if Entry(after, name) == Entry(before, name) {
      assert forall n :: Entry(after, n) == Entry(before, n);
      assert forall n :: n in after.outputs <==> Entry(after, n).Some?;
      assert forall n :: n in before.outputs <==> Entry(before, n).Some?;
      forall n | n in after.outputs ensures n in before.outputs && after.outputs[n] == before.outputs[n] {
        assert Entry(after, n) == Entry(before, n);
      }
      assert after.outputs.Keys == before.outputs.Keys;
      assert after.outputs == before.outputs;
    }
  }

  lemma FileStepLeavesDisk(s: State, c: FileCalls, hash: string -> string, file: File)
    ensures FileStep(s, c, hash, file).state.disk == s.disk <==> LeavesFile(s, c, hash, file)
  {
    FileStepFrame(s, c, hash, file);
    SameByEntry(FileStep(s, c, hash, file).state.disk, s.disk, file.name);
    if ReadRaises(s, c) || Skips(s, c, hash, file) {
      StepLeavesAll(s, c, hash, file);
    } else {
      StepLeavesEntry(s, c, hash, file);
    }
  }

  // ---------------------------------------------------------------------------
  // What the certificate step leaves
  // ---------------------------------------------------------------------------

  /** The files that a certificate write puts on disk, all of them or those before it failed. */
  function CertOutput(c: CertCalls, src: Source): map<string, string> {
    match c.write
    case CertsWritten => src.certFiles
    case CertsFail(left) => left
  }

  /** The step comes to no write: nothing loaded, a read that raises, or the current hash. */
  predicate CertsUntouched(s: State, c: CertCalls, src: Source) {
    || !c.loads || CallRaises(s.tenant, c.readTenant, c.read)
    || (c.read.Works? && Find(s.rows, CERTIFICATES, CERT_FILES, TenantAfter(s.tenant, c.readTenant)) == Some(src.certHash))
  }

  /** Whether the new hash is recorded under the default tenant. */
  predicate CertsRecord(s: State, c: CertCalls) {
    var tenant := TenantAfter(s.tenant, c.readTenant);
    && c.write.CertsWritten? && !CallRaises(tenant, c.saveTenant, c.save)
    && c.save.Works? && TenantAfter(tenant, c.saveTenant).Some?
  }

  lemma CertStepLeavesDisk(s: State, c: CertCalls, src: Source)
    ensures CertStep(s, c, src).0.disk
         == if CertsUntouched(s, c, src) then s.disk else s.disk.(certs := s.disk.certs + CertOutput(c, src))
  {
    var s1 := StoredHash(s, c.readTenant, c.read, CERTIFICATES, CERT_FILES).state;
    var s2 := s1.(disk := s1.disk.(certs := s1.disk.certs + src.certFiles));
    SaveLeavesDisk(s2, c.saveTenant, c.save, CERTIFICATES, CERT_FILES, src.certHash, Applied);
  }

  lemma CertStepLeavesRow(s: State, c: CertCalls, src: Source)
    requires TenantKnown(s)
    ensures CertRow(CertStep(s, c, src).0)
         == if !CertsUntouched(s, c, src) && CertsRecord(s, c) then Some(src.certHash) else CertRow(s)
  {
    var s1 := StoredHash(s, c.readTenant, c.read, CERTIFICATES, CERT_FILES).state;
    var s2 := s1.(disk := s1.disk.(certs := s1.disk.certs + src.certFiles));
    SaveRow(s2, c.saveTenant, c.save, CERTIFICATES, CERT_FILES, src.certHash, Applied);
  }
}
