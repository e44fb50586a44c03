/**
 What passes of the reconciler guarantee, over any run: one row per file, stored hashes that agree
 with the disk, and a fixpoint that sends no signal. `hash` is any injective function; `bundle`
 gives the certificate files that a hash stands for.
 */
module ConfigConvergence {
  import opened Wrappers
  import opened ConfigFiles
  import opened ConfigReconciler
  import opened ConfigSteps

  // ---------------------------------------------------------------------------
  // The table keeps one row per key, unless the tenant is NULL
  // ---------------------------------------------------------------------------

  function AllFiles(s: State, certs: Status, src: Source, c: PassCalls, hash: string -> string): Reply<Results> {
    FilesUpTo(s, map[CERTIFICATES := certs], FileSteps(c, hash, src.configs), src.configs, |src.configs|)
  }

  lemma FilesKeepUnique(s: State, certs: Status, src: Source, c: PassCalls, hash: string -> string)
    requires KeysUnique(s.rows)
    ensures KeysUnique(AllFiles(s, certs, src, c, hash).state.rows)
  {
    var p, r := (t: State, m: Results, i: nat) => KeysUnique(t.rows), (t: State) => KeysUnique(t.rows);
    var step := FileSteps(c, hash, src.configs);
    forall t: State, m: Results, i: nat | i < |src.configs| && p(t, m, i)
      ensures Leads(step(t, i), m, ConfigType(src.configs[i].name), i, p, r) {
      FileStepKeepsUnique(t, c.files(i), hash, src.configs[i]);
    }
    FilesInduction(s, map[CERTIFICATES := certs], step, src.configs, |src.configs|, p, r);
  }

  /** Whatever fails in a pass, the table never holds two rows for one type, name and tenant. */
  lemma PassKeepsUnique(s: State, src: Source, c: PassCalls, hash: string -> string)
    requires KeysUnique(s.rows)
    ensures KeysUnique(Applying(s, src, c, hash).0.rows)
  {
    var s2 := StoredHash(s, c.certs.readTenant, c.certs.read, CERTIFICATES, CERT_FILES).state;
    var written := s2.(disk := s2.disk.(certs := s2.disk.certs + src.certFiles));
    SaveKeepsUnique(written, c.certs.saveTenant, c.certs.save, CERTIFICATES, CERT_FILES, src.certHash, Applied);
    var (s1, certs) := CertStep(s, c.certs, src);
    FilesKeepUnique(s1, certs, src, c, hash);
  }

  // ---------------------------------------------------------------------------
  // Stored hashes agree with the disk
  // ---------------------------------------------------------------------------

  ghost predicate Injective(hash: string -> string) {
    forall a, b :: hash(a) == hash(b) ==> a == b
  }

  /** The stored hash of a file, when there is one, is the hash of what is on disk. */
  predicate FileAgrees(s: State, hash: string -> string, name: string) {
    FileRow(s, name).Some? ==> name in s.disk.outputs && hash(s.disk.outputs[name]) == FileRow(s, name).value
  }

  ghost predicate Agrees(s: State, hash: string -> string, bundle: string -> map<string, string>) {
    && TenantKnown(s)
    && (forall name :: name != CERT_FILES ==> FileAgrees(s, hash, name))
    && (CertRow(s).Some? ==> CertsHold(s.disk, bundle(CertRow(s).value)))
  }

  predicate WellNamed(src: Source) {
    && (forall i :: 0 <= i < |src.configs| ==> Generated(src.configs[i].name))
    && (forall i, j :: 0 <= i < j < |src.configs| ==> src.configs[i].name != src.configs[j].name)
  }

  /** The tenant lookup answers or raises: it never falls back to NULL. */
  predicate NeverNull(c: FileCalls) {
    !c.readTenant.QueryFails? && !c.saveTenant.QueryFails? && !c.errorTenant.QueryFails?
  }

  predicate FileAndSaveWork(c: FileCalls) {
    NeverNull(c) && c.write.FileWritten? && c.saveTenant.Works? && c.save.Works?
  }

  predicate CertsAndSaveWork(c: CertCalls) {
    !c.readTenant.QueryFails? && c.write.CertsWritten? && c.saveTenant.Works? && c.save.Works?
  }

  /** Every file write and every save works; reads, loads and generation may still fail. */
  ghost predicate WritesWork(c: PassCalls) {
    CertsAndSaveWork(c.certs) && forall i: nat :: FileAndSaveWork(c.files(i))
  }

  lemma GeneratedNames(name: string)
    requires Generated(name)
    ensures name != CERT_FILES && ConfigType(name) != CERTIFICATES
  {
    GeneratedTypesDistinct(name, name);
    assert CERT_FILES[0] == '_';
  }

  function FileEntry(file: File, hash: string -> string, status: Status): Row {
    Row(ConfigType(file.name), file.name, TENANT, hash(file.content), status)
  }

  predicate StoresFile(s: State, after: State, file: File, hash: string -> string) {
    && TenantKnown(after)
    && after.disk == s.disk.(outputs := s.disk.outputs[file.name := file.content])
    && after.rows == Upsert(s.rows, FileEntry(file, hash, Applied))
  }

  lemma FileStepEffect(s: State, c: FileCalls, hash: string -> string, file: File)
    requires TenantKnown(s) && FileAndSaveWork(c)
    ensures Keeps(s, FileStep(s, c, hash, file).state) || StoresFile(s, FileStep(s, c, hash, file).state, file, hash)
  {
  }

  lemma FileRowsAfter(s: State, after: State, file: File, hash: string -> string, status: Status)
    requires after.rows == Upsert(s.rows, FileEntry(file, hash, status)) && Generated(file.name)
    ensures forall name :: FileRow(after, name) == if name == file.name then Some(hash(file.content)) else FileRow(s, name)
    ensures CertRow(after) == CertRow(s)
  {
    GeneratedNames(file.name);
    var r := FileEntry(file, hash, status);
    FindAfterUpsert(s.rows, r, CERTIFICATES, CERT_FILES, TENANT);
    forall name ensures FileRow(after, name) == if name == file.name then Some(r.hash) else FileRow(s, name) {
      FindAfterUpsert(s.rows, r, ConfigType(name), name, TENANT);
    }
  }

  lemma CertRowsAfter(s: State, after: State, src: Source)
    requires after.rows == Upsert(s.rows, Row(CERTIFICATES, CERT_FILES, TENANT, src.certHash, Applied))
    ensures forall name :: name != CERT_FILES ==> FileRow(after, name) == FileRow(s, name)
    ensures CertRow(after) == Some(src.certHash)
  {
    var r := Row(CERTIFICATES, CERT_FILES, TENANT, src.certHash, Applied);
    FindAfterUpsert(s.rows, r, CERTIFICATES, CERT_FILES, TENANT);
    forall name | name != CERT_FILES ensures FileRow(after, name) == FileRow(s, name) {
      FindAfterUpsert(s.rows, r, ConfigType(name), name, TENANT);
    }
  }

  lemma KeepsAgrees(s: State, after: State, hash: string -> string, bundle: string -> map<string, string>)
    requires Agrees(s, hash, bundle) && Keeps(s, after)
    ensures Agrees(after, hash, bundle)
  {
    forall name | name != CERT_FILES ensures FileAgrees(after, hash, name) {
      assert FileAgrees(s, hash, name);
    }
  }

  lemma FileStepAgrees(s: State, c: FileCalls, hash: string -> string, bundle: string -> map<string, string>, file: File)
    requires Agrees(s, hash, bundle) && FileAndSaveWork(c) && Generated(file.name)
    ensures Agrees(FileStep(s, c, hash, file).state, hash, bundle)
  {
    FileStepEffect(s, c, hash, file);
    var after := FileStep(s, c, hash, file).state;
    if StoresFile(s, after, file, hash) {
      FileRowsAfter(s, after, file, hash, Applied);
      forall name | name != CERT_FILES ensures FileAgrees(after, hash, name) {
        assert FileAgrees(s, hash, name);
      }
    } else {
      KeepsAgrees(s, after, hash, bundle);
    }
  }

  predicate StoresCerts(s: State, after: State, src: Source) {
    && TenantKnown(after)
    && after.disk == s.disk.(certs := s.disk.certs + src.certFiles)
    && after.rows == Upsert(s.rows, Row(CERTIFICATES, CERT_FILES, TENANT, src.certHash, Applied))
  }

  lemma CertStepEffect(s: State, c: CertCalls, src: Source)
    requires TenantKnown(s) && CertsAndSaveWork(c)
    ensures Keeps(s, CertStep(s, c, src).0) || StoresCerts(s, CertStep(s, c, src).0, src)
  {
  }

  lemma StoredCertsAgree(s: State, after: State, src: Source, hash: string -> string, bundle: string -> map<string, string>)
    requires Agrees(s, hash, bundle) && StoresCerts(s, after, src) && src.certFiles == bundle(src.certHash)
    ensures Agrees(after, hash, bundle)
  {
    CertRowsAfter(s, after, src);
    forall name | name != CERT_FILES ensures FileAgrees(after, hash, name) {
      assert FileAgrees(s, hash, name);
    }
  }

  lemma CertStepAgrees(s: State, c: CertCalls, hash: string -> string, bundle: string -> map<string, string>, src: Source)
    requires Agrees(s, hash, bundle) && CertsAndSaveWork(c) && src.certFiles == bundle(src.certHash)
    ensures Agrees(CertStep(s, c, src).0, hash, bundle)
  {
    CertStepEffect(s, c, src);
    var after := CertStep(s, c, src).0;
    if Keeps(s, after) {
      KeepsAgrees(s, after, hash, bundle);
    } else {
      StoredCertsAgree(s, after, src, hash, bundle);
    }
  }

  lemma FilesAgree(s: State, certs: Status, src: Source, c: PassCalls, hash: string -> string,
                   bundle: string -> map<string, string>)
    requires Agrees(s, hash, bundle) && WellNamed(src) && WritesWork(c)
    ensures Agrees(AllFiles(s, certs, src, c, hash).state, hash, bundle)
  {
    var p, r := (t: State, m: Results, i: nat) => Agrees(t, hash, bundle), (t: State) => Agrees(t, hash, bundle);
    var step := FileSteps(c, hash, src.configs);
    forall t: State, m: Results, i: nat | i < |src.configs| && p(t, m, i)
      ensures Leads(step(t, i), m, ConfigType(src.configs[i].name), i, p, r) {
      FileStepAgrees(t, c.files(i), hash, bundle, src.configs[i]);
    }
    FilesInduction(s, map[CERTIFICATES := certs], step, src.configs, |src.configs|, p, r);
  }

  /** The hash cache agrees with the disk after every pass whose writes and saves work. */
  lemma PassKeepsAgreement(s: State, src: Source, c: PassCalls, hash: string -> string, bundle: string -> map<string, string>)
    requires Agrees(s, hash, bundle) && WellNamed(src) && WritesWork(c) && src.certFiles == bundle(src.certHash)
    ensures Agrees(Applying(s, src, c, hash).0, hash, bundle)
  {
    CertStepAgrees(s, c.certs, hash, bundle, src);
    var (s1, certs) := CertStep(s, c.certs, src);
    FilesAgree(s1, certs, src, c, hash, bundle);
  }

  datatype Occasion = Occasion(src: Source, calls: PassCalls)

  /** Passes over sources that may change from one to the next. */
  function RunOver(x: System, passes: seq<Occasion>, hash: string -> string, n: nat): System
    requires n <= |passes|
  {
    if n == 0 then x else
    PassStep(RunOver(x, passes, hash, n - 1), passes[n - 1].src, passes[n - 1].calls, hash).0
  }

  /** Along any run whose writes and saves work, the cache agrees with the disk and no key has two rows. */
  lemma {:induction false} RunKeepsAgreement(x: System, passes: seq<Occasion>, hash: string -> string,
                                             bundle: string -> map<string, string>, n: nat)
    requires Agrees(x.state, hash, bundle) && KeysUnique(x.state.rows) && n <= |passes|
    requires forall i :: 0 <= i < |passes| ==>
               && WellNamed(passes[i].src) && WritesWork(passes[i].calls)
               && passes[i].src.certFiles == bundle(passes[i].src.certHash)
    ensures Agrees(RunOver(x, passes, hash, n).state, hash, bundle) && KeysUnique(RunOver(x, passes, hash, n).state.rows)
    decreases n
  {
    if n > 0 {
      RunKeepsAgreement(x, passes, hash, bundle, n - 1);
      var before := RunOver(x, passes, hash, n - 1).state;
      PassKeepsAgreement(before, passes[n - 1].src, passes[n - 1].calls, hash, bundle);
      PassKeepsUnique(before, passes[n - 1].src, passes[n - 1].calls, hash);
    }
  }

  // ---------------------------------------------------------------------------
  // The failure branches, exactly
  // ---------------------------------------------------------------------------

  /** What was left is what the row stands for: the new content where it was recorded, else the old hash if there is one. */
  predicate LeavesAgreement(s: State, c: FileCalls, hash: string -> string, file: File) {
    var left, row := Written(s.disk, file, c.write), FileRow(s, file.name);
    if Records(s, c) then left == Some(file.content)
    else row.Some? ==> left.Some? && hash(left.value) == row.value
  }

  lemma AgreesByEntry(s: State, hash: string -> string, name: string)
    ensures FileAgrees(s, hash, name)
       <==> (FileRow(s, name).Some? ==> Entry(s.disk, name).Some? && hash(Entry(s.disk, name).value) == FileRow(s, name).value)
  {
  }

  /**
   The failure branches, exactly, whatever fails: one file step keeps the agreement for its file if
   and only if its read raises or finds the current hash, or what it leaves on disk is what the row
   then stands for. A failed write is recorded under the new hash, too, unless that fails as well.
   */
  lemma FileAgreesExactly(s: State, c: FileCalls, hash: string -> string, file: File)
    requires Injective(hash) && TenantKnown(s) && FileAgrees(s, hash, file.name)
    ensures FileAgrees(FileStep(s, c, hash, file).state, hash, file.name)
       <==> ReadRaises(s, c) || Skips(s, c, hash, file) || LeavesAgreement(s, c, hash, file)
  {
    var after := FileStep(s, c, hash, file).state;
    if ReadRaises(s, c) || Skips(s, c, hash, file) {
      StepLeavesAll(s, c, hash, file);
    } else {
      StepLeavesRow(s, c, hash, file);
      StepLeavesEntry(s, c, hash, file);
      AgreesByEntry(after, hash, file.name);
    }
  }

  predicate CertsAgree(s: State, bundle: string -> map<string, string>) {
    CertRow(s).Some? ==> CertsHold(s.disk, bundle(CertRow(s).value))
  }

  /** What was written stands for the old hash still: it differs on no file of the old set. */
  predicate Undisturbed(s: State, what: map<string, string>, bundle: string -> map<string, string>) {
    CertRow(s).Some? ==>
      forall f :: f in what && f in bundle(CertRow(s).value) ==> what[f] == bundle(CertRow(s).value)[f]
  }

  /**
   The certificate half, exactly, whatever fails: the step keeps the agreement if and only if it
   writes nothing, or its save goes through under the tenant, or what it wrote, all or in part,
   leaves the old set as it was. Otherwise the old hash stands over the new files.
   */
  lemma CertsAgreeExactly(s: State, c: CertCalls, src: Source, bundle: string -> map<string, string>)
    requires TenantKnown(s) && CertsAgree(s, bundle) && src.certFiles == bundle(src.certHash)
    ensures CertsAgree(CertStep(s, c, src).0, bundle)
       <==> CertsUntouched(s, c, src) || CertsRecord(s, c) || Undisturbed(s, CertOutput(c, src), bundle)
  {
    CertStepLeavesDisk(s, c, src);
    CertStepLeavesRow(s, c, src);
    if !CertsUntouched(s, c, src) && !CertsRecord(s, c) && CertRow(s).Some? {
      OverwriteHolds(s.disk, CertOutput(c, src), bundle(CertRow(s).value));
    }
  }

  lemma OverwriteHolds(d: Disk, what: map<string, string>, before: map<string, string>)
    requires CertsHold(d, before)
    ensures CertsHold(d.(certs := d.certs + what), before) <==> forall f :: f in what && f in before ==> what[f] == before[f]
  {
  }

  // ---------------------------------------------------------------------------
  // What a good pass leaves
  // ---------------------------------------------------------------------------

  /** "Unchanged" means what it says: the file already holds the generated content. */
  lemma UnchangedMeansHeld(s: State, c: FileCalls, hash: string -> string, file: File)
    requires Injective(hash) && TenantKnown(s) && FileAgrees(s, hash, file.name) && !c.readTenant.QueryFails?
    requires FileStep(s, c, hash, file).Reply? && FileStep(s, c, hash, file).value == Unchanged
    ensures FileHolds(s.disk, file.name, file.content) && FileStep(s, c, hash, file).state.disk == s.disk
  {
  }

  lemma FileStepHolds(s: State, c: FileCalls, hash: string -> string, file: File)
    requires Injective(hash) && TenantKnown(s) && FileAgrees(s, hash, file.name) && FileAndSaveWork(c)
    requires FileStep(s, c, hash, file).Reply?
    ensures FileHolds(FileStep(s, c, hash, file).state.disk, file.name, file.content)
  {
    if FileStep(s, c, hash, file).value == Unchanged {
      UnchangedMeansHeld(s, c, hash, file);
    }
  }

  /** The first `n` files are on disk as generated. */
  predicate HoldUpTo(d: Disk, src: Source, n: nat) {
    forall i :: 0 <= i < n && i < |src.configs| ==> Entry(d, src.configs[i].name) == Some(src.configs[i].content)
  }

  lemma FileHoldsNext(s: State, c: FileCalls, hash: string -> string, src: Source, n: nat)
    requires n < |src.configs| && WellNamed(src) && HoldUpTo(s.disk, src, n)
    requires Injective(hash) && TenantKnown(s) && FileAgrees(s, hash, src.configs[n].name) && FileAndSaveWork(c)
    requires FileStep(s, c, hash, src.configs[n]).Reply?
    ensures var d := FileStep(s, c, hash, src.configs[n]).state.disk;
            d.certs == s.disk.certs && HoldUpTo(d, src, n + 1)
  {
    FileStepFrame(s, c, hash, src.configs[n]);
    FileStepHolds(s, c, hash, src.configs[n]);
  }

  predicate CertStatusIs(m: Results, certs: Status) {
    CERTIFICATES in m && m[CERTIFICATES] == certs
  }

  ghost predicate GoodUpTo(certFiles: map<string, string>, t: State, src: Source, hash: string -> string,
                           bundle: string -> map<string, string>, n: nat)
  {
    Agrees(t, hash, bundle) && t.disk.certs == certFiles && HoldUpTo(t.disk, src, n)
  }

  lemma FileGoodNext(certFiles: map<string, string>, t: State, c: FileCalls, src: Source, hash: string -> string,
                     bundle: string -> map<string, string>, n: nat)
    requires n < |src.configs| && WellNamed(src) && FileAndSaveWork(c) && Injective(hash)
    requires GoodUpTo(certFiles, t, src, hash, bundle, n)
    ensures var x := FileStep(t, c, hash, src.configs[n]);
            x.Reply? ==> GoodUpTo(certFiles, x.state, src, hash, bundle, n + 1)
  {
    GeneratedNames(src.configs[n].name);
    FileStepAgrees(t, c, hash, bundle, src.configs[n]);
    if FileStep(t, c, hash, src.configs[n]).Reply? {
      FileHoldsNext(t, c, hash, src, n);
    }
  }

  lemma FilesHold(s: State, certs: Status, src: Source, c: PassCalls, hash: string -> string,
                  bundle: string -> map<string, string>)
    requires Agrees(s, hash, bundle) && WellNamed(src) && WritesWork(c) && Injective(hash)
    ensures var x := AllFiles(s, certs, src, c, hash);
            x.Reply? ==> GoodUpTo(s.disk.certs, x.state, src, hash, bundle, |src.configs|)
  {
    var p := (t: State, m: Results, i: nat) => GoodUpTo(s.disk.certs, t, src, hash, bundle, i);
    var r := (t: State) => true;
    var step := FileSteps(c, hash, src.configs);
    forall t: State, m: Results, i: nat | i < |src.configs| && p(t, m, i)
      ensures Leads(step(t, i), m, ConfigType(src.configs[i].name), i, p, r) {
      FileGoodNext(s.disk.certs, t, c.files(i), src, hash, bundle, i);
    }
    FilesInduction(s, map[CERTIFICATES := certs], step, src.configs, |src.configs|, p, r);
  }

  lemma CertStatusKept(s: State, certs: Status, src: Source, c: PassCalls, hash: string -> string)
    requires WellNamed(src)
    ensures var x := AllFiles(s, certs, src, c, hash); x.Reply? ==> CertStatusIs(x.value, certs)
  {
    var p, r := (t: State, m: Results, i: nat) => CertStatusIs(m, certs), (t: State) => true;
    var step := FileSteps(c, hash, src.configs);
    forall t: State, m: Results, i: nat | i < |src.configs| && p(t, m, i)
      ensures Leads(step(t, i), m, ConfigType(src.configs[i].name), i, p, r) {
      GeneratedNames(src.configs[i].name);
    }
    var m0 := map[CERTIFICATES := certs];
    assert CertStatusIs(m0, certs);
    FilesInduction(s, m0, step, src.configs, |src.configs|, p, r);
  }

  /** A pass that reports, with writes and saves working, leaves every file as generated, written now or before. */
  lemma GoodPassLeavesSource(s: State, src: Source, c: PassCalls, hash: string -> string, bundle: string -> map<string, string>)
    requires Agrees(s, hash, bundle) && WellNamed(src) && WritesWork(c) && src.certFiles == bundle(src.certHash)
    requires Injective(hash) && Applying(s, src, c, hash).1.Report?
    ensures var (s', end) := Applying(s, src, c, hash);
            && HoldUpTo(s'.disk, src, |src.configs|)
            && CERTIFICATES in end.results
            && (end.results[CERTIFICATES] != Failed ==> CertsHold(s'.disk, src.certFiles))
  {
    CertStepAgrees(s, c.certs, hash, bundle, src);
    var (s1, certs) := CertStep(s, c.certs, src);
    FilesHold(s1, certs, src, c, hash, bundle);
    CertStatusKept(s1, certs, src, c, hash);
  }

  // ---------------------------------------------------------------------------
  // The fixpoint
  // ---------------------------------------------------------------------------

  /** Every stored hash is the current one; the disk may or may not hold the content. */
  predicate Reconciled(s: State, src: Source, hash: string -> string) {
    && TenantKnown(s)
    && CertRow(s) == Some(src.certHash)
    && forall i :: 0 <= i < |src.configs| ==> FileRow(s, src.configs[i].name) == Some(hash(src.configs[i].content))
  }

  ghost predicate ReadsWork(c: PassCalls) {
    && c.generates && c.certs.loads && c.certs.readTenant.Works? && c.certs.read.Works?
    && forall i: nat :: c.files(i).readTenant.Works? && c.files(i).read.Works?
  }

  predicate DatabaseWorks(c: FileCalls) {
    && c.readTenant.Works? && c.read.Works? && c.saveTenant.Works? && c.save.Works?
    && c.errorTenant.Works? && c.errorSave.Works?
  }

  predicate CertsWork(c: CertCalls) {
    c.loads && c.readTenant.Works? && c.read.Works? && CertsAndSaveWork(c)
  }

  /** The database works and the certificates can be written; any file write may fail. */
  ghost predicate RecordsWork(c: PassCalls) {
    c.generates && CertsWork(c.certs) && forall i: nat :: DatabaseWorks(c.files(i))
  }

  predicate AllUnchanged(results: map<string, Status>) {
    forall kind :: kind in results ==> results[kind] == Unchanged
  }

  lemma FileUnchanged(s: State, at: State, c: FileCalls, hash: string -> string, file: File)
    requires TenantKnown(s) && Keeps(s, at) && FileRow(s, file.name) == Some(hash(file.content))
    requires c.readTenant.Works? && c.read.Works?
    ensures var r := FileStep(at, c, hash, file);
            r.Reply? && Keeps(s, r.state) && r.value == Unchanged
  {
  }

  lemma FilesUnchanged(s: State, src: Source, c: PassCalls, hash: string -> string)
    requires Reconciled(s, src, hash) && ReadsWork(c)
    ensures var x := AllFiles(s, Unchanged, src, c, hash);
            x.Reply? && Keeps(s, x.state) && AllUnchanged(x.value)
  {
    var p, r := (t: State, m: Results, i: nat) => Keeps(s, t) && AllUnchanged(m), (t: State) => false;
    var step := FileSteps(c, hash, src.configs);
    forall t: State, m: Results, i: nat | i < |src.configs| && p(t, m, i)
      ensures Leads(step(t, i), m, ConfigType(src.configs[i].name), i, p, r) {
      FileUnchanged(s, t, c.files(i), hash, src.configs[i]);
    }
    var m0 := map[CERTIFICATES := Unchanged];
    assert Keeps(s, s) && AllUnchanged(m0);
    FilesInduction(s, m0, step, src.configs, |src.configs|, p, r);
  }

  /** One pass over a reconciled state writes nothing, reports only "unchanged" and sends no signal. */
  lemma PassIsFixpoint(x: System, src: Source, c: PassCalls, hash: string -> string)
    requires Reconciled(x.state, src, hash) && ReadsWork(c)
    ensures var (y, reload) := PassStep(x, src, c, hash);
            && Keeps(x.state, y.state) && Reconciled(y.state, src, hash)
            && reload == ReloadSkipped && y.running == x.running
  {
    var (s1, certs) := CertStep(x.state, c.certs, src);
    assert Keeps(x.state, s1) && certs == Unchanged;
    FilesUnchanged(s1, src, c, hash);
  }

  /** The state after the first `n` of some passes over one source. */
  function Run(x: System, src: Source, passes: seq<PassCalls>, hash: string -> string, n: nat): System
    requires n <= |passes|
  {
    if n == 0 then x else PassStep(Run(x, src, passes, hash, n - 1), src, passes[n - 1], hash).0
  }

  lemma {:induction false} RunIsFixpoint(x: System, src: Source, passes: seq<PassCalls>, hash: string -> string, n: nat)
    requires Reconciled(x.state, src, hash) && n <= |passes|
    requires forall i :: 0 <= i < |passes| ==> ReadsWork(passes[i])
    ensures var y := Run(x, src, passes, hash, n);
            Keeps(x.state, y.state) && Reconciled(y.state, src, hash) && y.running == x.running
    decreases n
  {
    if n > 0 {
      RunIsFixpoint(x, src, passes, hash, n - 1);
      PassIsFixpoint(Run(x, src, passes, hash, n - 1), src, passes[n - 1], hash);
    }
  }

  /** What one step leaves when the database works, whether or not the file was written. */
  lemma FileStepRecords(s: State, c: FileCalls, hash: string -> string, file: File)
    requires TenantKnown(s) && Generated(file.name) && DatabaseWorks(c)
    ensures var r := FileStep(s, c, hash, file);
            && r.Reply? && TenantKnown(r.state) && CertRow(r.state) == CertRow(s)
            && (forall name :: FileRow(r.state, name) == if name == file.name then Some(hash(file.content)) else FileRow(s, name))
  {
    var after := FileStep(s, c, hash, file).state;
    if after.rows == Upsert(s.rows, FileEntry(file, hash, Applied)) {
      FileRowsAfter(s, after, file, hash, Applied);
    } else if after.rows == Upsert(s.rows, FileEntry(file, hash, Failed)) {
      FileRowsAfter(s, after, file, hash, Failed);
    } else {
      assert after.rows == s.rows;
    }
  }

  /** The first `n` files have their current hash stored; the others have the row they had. */
  predicate RecordedUpTo(s: State, t: State, src: Source, hash: string -> string, n: nat) {
    && TenantKnown(t) && CertRow(t) == CertRow(s)
    && forall i :: 0 <= i < |src.configs| ==>
         FileRow(t, src.configs[i].name) == if i < n then Some(hash(src.configs[i].content)) else FileRow(s, src.configs[i].name)
  }

  lemma FileRecordsNext(s: State, t: State, c: FileCalls, hash: string -> string, src: Source, n: nat)
    requires n < |src.configs| && WellNamed(src) && RecordedUpTo(s, t, src, hash, n) && DatabaseWorks(c)
    ensures var x := FileStep(t, c, hash, src.configs[n]);
            x.Reply? && RecordedUpTo(s, x.state, src, hash, n + 1)
  {
    FileStepRecords(t, c, hash, src.configs[n]);
  }

  function FirstFiles(s: State, certs: Status, src: Source, c: PassCalls, hash: string -> string, n: nat): Reply<Results>
    requires n <= |src.configs|
  {
    FilesUpTo(s, map[CERTIFICATES := certs], FileSteps(c, hash, src.configs), src.configs, n)
  }

  lemma FilesRecord(s: State, certs: Status, src: Source, c: PassCalls, hash: string -> string, n: nat)
    requires TenantKnown(s) && WellNamed(src) && n <= |src.configs| && forall i :: 0 <= i < n ==> DatabaseWorks(c.files(i))
    ensures var x := FirstFiles(s, certs, src, c, hash, n);
            x.Reply? && RecordedUpTo(s, x.state, src, hash, n)
  {
    var p, r := (t: State, m: Results, i: nat) => RecordedUpTo(s, t, src, hash, i), (t: State) => false;
    var step := FileSteps(c, hash, src.configs);
    forall t: State, m: Results, i: nat | i < n && p(t, m, i)
      ensures Leads(step(t, i), m, ConfigType(src.configs[i].name), i, p, r) {
      FileRecordsNext(s, t, c.files(i), hash, src, i);
    }
    FilesInduction(s, map[CERTIFICATES := certs], step, src.configs, n, p, r);
  }

  lemma CertStepRecords(s: State, c: CertCalls, src: Source)
    requires TenantKnown(s) && CertsWork(c)
    ensures var (s1, certs) := CertStep(s, c, src);
            && TenantKnown(s1) && CertRow(s1) == Some(src.certHash) && s1.disk.outputs == s.disk.outputs
            && (forall name :: name != CERT_FILES ==> FileRow(s1, name) == FileRow(s, name))
            && (CertRow(s) == Some(src.certHash) ==> s1.disk == s.disk)
  {
    if CertRow(s) != Some(src.certHash) {
      CertRowsAfter(s, CertStep(s, c, src).0, src);
    }
  }

  /** One pass with the database working reaches the fixpoint, even when file writes fail. */
  lemma PassReconciles(x: System, src: Source, c: PassCalls, hash: string -> string)
    requires TenantKnown(x.state) && WellNamed(src) && RecordsWork(c)
    ensures Reconciled(PassStep(x, src, c, hash).0.state, src, hash)
  {
    var (s1, certs) := CertStep(x.state, c.certs, src);
    CertStepRecords(x.state, c.certs, src);
    FilesRecord(s1, certs, src, c, hash, |src.configs|);
  }

  /** A reload that fails is never tried again while the source stays as it is. */
  lemma FailedReloadSticks(x: System, src: Source, c: PassCalls, later: seq<PassCalls>, hash: string -> string, n: nat)
    requires TenantKnown(x.state) && WellNamed(src) && RecordsWork(c) && !c.reloads
    requires n <= |later| && forall i :: 0 <= i < |later| ==> ReadsWork(later[i])
    ensures var y := PassStep(x, src, c, hash).0;
            var z := Run(y, src, later, hash, n);
            z.running == x.running && z.state.disk == y.state.disk
  {
    PassReconciles(x, src, c, hash);
    RunIsFixpoint(PassStep(x, src, c, hash).0, src, later, hash, n);
  }

  predicate WrittenUpTo(s: State, t: State, write: FileWrite, src: Source, k: nat, n: nat)
    requires k < |src.configs|
  {
    Entry(t.disk, src.configs[k].name)
      == if k < n then Written(s.disk, src.configs[k], write) else Entry(s.disk, src.configs[k].name)
  }

  predicate DoneUpTo(s: State, t: State, write: FileWrite, src: Source, hash: string -> string, k: nat, n: nat)
    requires k < |src.configs|
  {
    RecordedUpTo(s, t, src, hash, n) && WrittenUpTo(s, t, write, src, k, n)
  }

  lemma WritesNext(s: State, t: State, c: PassCalls, hash: string -> string, src: Source, k: nat, n: nat)
    requires k < |src.configs| && n < |src.configs| && WellNamed(src) && DatabaseWorks(c.files(n))
    requires FileRow(s, src.configs[k].name) != Some(hash(src.configs[k].content))
    requires DoneUpTo(s, t, c.files(k).write, src, hash, k, n)
    ensures var x := FileStep(t, c.files(n), hash, src.configs[n]);
            x.Reply? && DoneUpTo(s, x.state, c.files(k).write, src, hash, k, n + 1)
  {
    FileRecordsNext(s, t, c.files(n), hash, src, n);
    if k == n {
      StepLeavesEntry(t, c.files(k), hash, src.configs[k]);
    } else {
      FileStepFrame(t, c.files(n), hash, src.configs[n]);
    }
  }

  /** After the first `n` files, each of them whose hash was not stored is as its write left it. */
  lemma FilesWrite(s: State, certs: Status, src: Source, c: PassCalls, hash: string -> string, k: nat, n: nat)
    requires k < n <= |src.configs| && TenantKnown(s) && WellNamed(src)
    requires forall i :: 0 <= i < n ==> DatabaseWorks(c.files(i))
    requires FileRow(s, src.configs[k].name) != Some(hash(src.configs[k].content))
    ensures var x := FirstFiles(s, certs, src, c, hash, n);
            x.Reply? && WrittenUpTo(s, x.state, c.files(k).write, src, k, n)
  {
    var write := c.files(k).write;
    var p := (t: State, m: Results, i: nat) => DoneUpTo(s, t, write, src, hash, k, i);
    var r := (t: State) => false;
    var step, m0 := FileSteps(c, hash, src.configs), map[CERTIFICATES := certs];
    forall t: State, m: Results, i: nat | i < n && p(t, m, i)
      ensures Leads(step(t, i), m, ConfigType(src.configs[i].name), i, p, r) {
      WritesNext(s, t, c, hash, src, k, i);
    }
    assert DoneUpTo(s, s, write, src, hash, k, 0);
    FilesInduction(s, m0, step, src.configs, n, p, r);
    assert DoneUpTo(s, FirstFiles(s, certs, src, c, hash, n).state, write, src, hash, k, n);
  }

  /** A file write that fails is never tried again either: the file stays as the failure left it. */
  lemma FailedWriteSticks(x: System, src: Source, c: PassCalls, later: seq<PassCalls>, hash: string -> string, k: nat, n: nat)
    requires TenantKnown(x.state) && WellNamed(src) && RecordsWork(c) && k < |src.configs|
    requires c.files(k).write.FileFails? && FileRow(x.state, src.configs[k].name) != Some(hash(src.configs[k].content))
    requires n <= |later| && forall i :: 0 <= i < |later| ==> ReadsWork(later[i])
    ensures Entry(Run(PassStep(x, src, c, hash).0, src, later, hash, n).state.disk, src.configs[k].name)
         == Written(x.state.disk, src.configs[k], c.files(k).write)
  {
    PassReconciles(x, src, c, hash);
    RunIsFixpoint(PassStep(x, src, c, hash).0, src, later, hash, n);
    var (s1, certs) := CertStep(x.state, c.certs, src);
    GeneratedNames(src.configs[k].name);
    CertStepRecords(x.state, c.certs, src);
    FilesWrite(s1, certs, src, c, hash, k, |src.configs|);
  }

  // ---------------------------------------------------------------------------
  // A pass that raises
  // ---------------------------------------------------------------------------

  /** Everything works up to file `k`, where the connection for reading its hash fails. */
  predicate RaisesAt(c: PassCalls, k: nat) {
    && c.generates && CertsWork(c.certs) && (forall i :: 0 <= i < k ==> DatabaseWorks(c.files(i)))
    && c.files(k).read.ConnectFails? && !c.files(k).readTenant.QueryFails?
  }

  lemma ReadRaised(s: State, c: FileCalls, hash: string -> string, file: File)
    requires TenantKnown(s) && c.read.ConnectFails? && !c.readTenant.QueryFails?
    ensures var x := FileStep(s, c, hash, file); x.Raised? && Keeps(s, x.state)
  {
  }

  lemma RaisedAfter(s: State, certs: Status, src: Source, c: PassCalls, hash: string -> string, k: nat)
    requires k < |src.configs| && c.files(k).read.ConnectFails? && !c.files(k).readTenant.QueryFails?
    requires FirstFiles(s, certs, src, c, hash, k).Reply? && TenantKnown(FirstFiles(s, certs, src, c, hash, k).state)
    ensures var before, x := FirstFiles(s, certs, src, c, hash, k), FirstFiles(s, certs, src, c, hash, k + 1);
            x.Raised? && Keeps(before.state, x.state)
  {
    ReadRaised(FirstFiles(s, certs, src, c, hash, k).state, c.files(k), hash, src.configs[k]);
  }

  lemma KeptIsRecorded(s: State, t: State, after: State, src: Source, hash: string -> string, n: nat)
    requires RecordedUpTo(s, t, src, hash, n) && Keeps(t, after)
    ensures RecordedUpTo(s, after, src, hash, n)
  {
  }

  /** The files before the raise are recorded, the later ones have the row they had, and the pass reports nothing. */
  lemma RaisedFiles(s: State, certs: Status, src: Source, c: PassCalls, hash: string -> string, k: nat)
    requires TenantKnown(s) && WellNamed(src) && k < |src.configs| && RaisesAt(c, k)
    ensures var x := AllFiles(s, certs, src, c, hash);
            && x.Raised? && RecordedUpTo(s, x.state, src, hash, k)
            && x.state.disk == FirstFiles(s, certs, src, c, hash, k).state.disk
  {
    FilesRecord(s, certs, src, c, hash, k);
    RaisedAfter(s, certs, src, c, hash, k);
    RaisedStays(s, map[CERTIFICATES := certs], FileSteps(c, hash, src.configs), src.configs, k + 1, |src.configs|);
    KeptIsRecorded(s, FirstFiles(s, certs, src, c, hash, k).state, FirstFiles(s, certs, src, c, hash, k + 1).state, src, hash, k);
  }

  /** A pass that raises signals nothing, and leaves every stored hash current exactly when the later ones were. */
  lemma RaisedPass(x: System, src: Source, c: PassCalls, hash: string -> string, k: nat)
    requires TenantKnown(x.state) && WellNamed(src) && k < |src.configs| && RaisesAt(c, k)
    ensures var (y, reload) := PassStep(x, src, c, hash);
            && reload == ReloadSkipped && y.running == x.running && TenantKnown(y.state)
            && (Reconciled(y.state, src, hash) <==>
                  forall i :: k <= i < |src.configs| ==> FileRow(x.state, src.configs[i].name) == Some(hash(src.configs[i].content)))
  {
    var (s1, certs) := CertStep(x.state, c.certs, src);
    CertStepRecords(x.state, c.certs, src);
    RaisedFiles(s1, certs, src, c, hash, k);
    forall i | 0 <= i < |src.configs| ensures FileRow(s1, src.configs[i].name) == FileRow(x.state, src.configs[i].name) {
      GeneratedNames(src.configs[i].name);
    }
  }

  /** What such a pass wrote before it raised stays unread by the server through any number of later passes. */
  lemma RaisedPassSticks(x: System, src: Source, c: PassCalls, later: seq<PassCalls>, hash: string -> string, k: nat, n: nat)
    requires TenantKnown(x.state) && WellNamed(src) && k < |src.configs| && RaisesAt(c, k)
    requires forall i :: k <= i < |src.configs| ==> FileRow(x.state, src.configs[i].name) == Some(hash(src.configs[i].content))
    requires n <= |later| && forall i :: 0 <= i < |later| ==> ReadsWork(later[i])
    ensures var y := PassStep(x, src, c, hash).0;
            var z := Run(y, src, later, hash, n);
            z.running == x.running && z.state.disk == y.state.disk
  {
    RaisedPass(x, src, c, hash, k);
    RunIsFixpoint(PassStep(x, src, c, hash).0, src, later, hash, n);
  }

  predicate InStep(x: System) {
    x.running == x.state.disk
  }

  /** So a server that was in step runs an old file for good: one written and recorded before the raise. */
  lemma RaisedPassLosesStep(x: System, src: Source, c: PassCalls, later: seq<PassCalls>, hash: string -> string, j: nat, k: nat, n: nat)
    requires TenantKnown(x.state) && WellNamed(src) && j < k < |src.configs| && RaisesAt(c, k) && InStep(x)
    requires forall i :: k <= i < |src.configs| ==> FileRow(x.state, src.configs[i].name) == Some(hash(src.configs[i].content))
    requires FileRow(x.state, src.configs[j].name) != Some(hash(src.configs[j].content)) && c.files(j).write.FileWritten?
    requires Entry(x.state.disk, src.configs[j].name) != Some(src.configs[j].content)
    requires n <= |later| && forall i :: 0 <= i < |later| ==> ReadsWork(later[i])
    ensures var z := Run(PassStep(x, src, c, hash).0, src, later, hash, n);
            && Entry(z.state.disk, src.configs[j].name) == Some(src.configs[j].content)
            && Entry(z.running, src.configs[j].name) == Entry(x.state.disk, src.configs[j].name)
            && !InStep(z)
  {
    RaisedPassSticks(x, src, c, later, hash, k, n);
    var (s1, certs) := CertStep(x.state, c.certs, src);
    CertStepRecords(x.state, c.certs, src);
    GeneratedNames(src.configs[j].name);
    RaisedFiles(s1, certs, src, c, hash, k);
    FilesWrite(s1, certs, src, c, hash, j, k);
  }
}
