/**
 When the server runs what the disk holds: exactly, for one pass and along runs, whatever the calls do.
 */
module ConfigInStep {
  import opened Wrappers
  import opened ConfigFiles
  import opened ConfigReconciler
  import opened ConfigSteps
  import opened ConfigConvergence

  // ---------------------------------------------------------------------------
  // Clean passes report their changes
  // ---------------------------------------------------------------------------

  /** No database call raises, and a failed write leaves the file as it was. */
  predicate FileIsClean(c: FileCalls) {
    && !c.readTenant.ConnectFails? && !c.read.ConnectFails? && !c.saveTenant.ConnectFails? && !c.save.ConnectFails?
    && !c.errorTenant.ConnectFails? && !c.errorSave.ConnectFails? && (c.write.FileFails? ==> c.write.left == None)
  }

  predicate CertsAreClean(c: CertCalls) {
    && !c.saveTenant.ConnectFails? && !c.save.ConnectFails?
    && (c.write.CertsFail? ==> c.write.left == map[])
  }

  ghost predicate Clean(c: PassCalls) {
    CertsAreClean(c.certs) && forall i: nat :: FileIsClean(c.files(i))
  }

  /** A clean step that changes the disk says so. */
  lemma FileStepTells(s: State, c: FileCalls, hash: string -> string, file: File)
    requires FileIsClean(c)
    ensures var x := FileStep(s, c, hash, file);
            x.Reply? && (x.state.disk == s.disk || x.value == Applied)
  {
  }

  lemma CertStepTells(s: State, c: CertCalls, src: Source)
    requires CertsAreClean(c)
    ensures var (s', status) := CertStep(s, c, src); s'.disk == s.disk || status == Applied
  {
    assert c.write.CertsFail? ==> s.disk.certs + c.write.left == s.disk.certs;
  }

  predicate SomeApplied(m: Results) {
    exists kind :: kind in m && m[kind] == Applied
  }

  /** An "applied" entry of a type that none of the files still to come has. */
  predicate ToldBy(kind: string, m: Results, src: Source, n: nat) {
    kind in m && m[kind] == Applied && forall i :: n <= i < |src.configs| ==> ConfigType(src.configs[i].name) != kind
  }

  ghost predicate TellsUpTo(d: Disk, t: State, m: Results, src: Source, n: nat) {
    t.disk == d || exists kind :: ToldBy(kind, m, src, n)
  }

  lemma TellsNext(d: Disk, t: State, m: Results, x: Reply<Status>, src: Source, n: nat)
    requires n < |src.configs| && WellNamed(src) && TellsUpTo(d, t, m, src, n)
    requires x.Reply? && (x.state.disk == t.disk || x.value == Applied)
    ensures TellsUpTo(d, x.state, m[ConfigType(src.configs[n].name) := x.value], src, n + 1)
  {
    var kind := ConfigType(src.configs[n].name);
    var m' := m[kind := x.value];
    if x.value == Applied {
      forall i | n < i < |src.configs| ensures ConfigType(src.configs[i].name) != kind {
        GeneratedTypesDistinct(src.configs[i].name, src.configs[n].name);
      }
      assert ToldBy(kind, m', src, n + 1);
    } else if t.disk != d {
      var told :| ToldBy(told, m, src, n);
      assert ToldBy(told, m', src, n + 1);
    }
  }

  lemma FileTellsNext(d: Disk, t: State, m: Results, c: FileCalls, hash: string -> string, src: Source, n: nat)
    requires n < |src.configs| && WellNamed(src) && FileIsClean(c) && TellsUpTo(d, t, m, src, n)
    ensures var x := FileStep(t, c, hash, src.configs[n]);
            x.Reply? && TellsUpTo(d, x.state, m[ConfigType(src.configs[n].name) := x.value], src, n + 1)
  {
    FileStepTells(t, c, hash, src.configs[n]);
    TellsNext(d, t, m, FileStep(t, c, hash, src.configs[n]), src, n);
  }

  lemma FilesTell(s: State, certs: Status, src: Source, c: PassCalls, hash: string -> string, d: Disk)
    requires WellNamed(src) && Clean(c) && (s.disk == d || certs == Applied)
    ensures var x := AllFiles(s, certs, src, c, hash);
            x.Reply? && (x.state.disk == d || SomeApplied(x.value))
  {
    var p, r := (t: State, m: Results, i: nat) => TellsUpTo(d, t, m, src, i), (t: State) => false;
    var step := FileSteps(c, hash, src.configs);
    forall t: State, m: Results, i: nat | i < |src.configs| && p(t, m, i)
      ensures Leads(step(t, i), m, ConfigType(src.configs[i].name), i, p, r) {
      FileTellsNext(d, t, m, c.files(i), hash, src, i);
    }
    var m0 := map[CERTIFICATES := certs];
    forall i | 0 <= i < |src.configs| ensures ConfigType(src.configs[i].name) != CERTIFICATES {
      GeneratedNames(src.configs[i].name);
    }
    assert certs == Applied ==> ToldBy(CERTIFICATES, m0, src, 0);
    FilesInduction(s, m0, step, src.configs, |src.configs|, p, r);
  }

  /** A clean pass that gets past generation reports an "applied" entry whenever it changed the disk. */
  lemma ChangeIsReported(s: State, src: Source, c: PassCalls, hash: string -> string)
    requires WellNamed(src) && Clean(c) && c.generates
    ensures var (s', end) := Applying(s, src, c, hash);
            end.Report? && (s'.disk == s.disk || HasApplied(end))
  {
    CertStepTells(s, c.certs, src);
    var (s1, certs) := CertStep(s, c.certs, src);
    FilesTell(s1, certs, src, c, hash, s.disk);
  }

  // ---------------------------------------------------------------------------
  // How a pass ends
  // ---------------------------------------------------------------------------

  predicate ReplyAt(s: State, m: Results, step: (State, nat) -> Reply<Status>, configs: seq<File>, i: nat) {
    i < |configs| && step(FilesUpTo(s, m, step, configs, i).state, i).Reply?
  }

  predicate AllReply(s: State, m: Results, step: (State, nat) -> Reply<Status>, configs: seq<File>, n: nat) {
    n <= |configs| && forall i :: 0 <= i < n ==> ReplyAt(s, m, step, configs, i)
  }

  predicate AppliedAt(s: State, m: Results, step: (State, nat) -> Reply<Status>, configs: seq<File>, i: nat) {
    i < |configs| && IsApplied(step(FilesUpTo(s, m, step, configs, i).state, i))
  }

  predicate SomeStepApplies(s: State, m: Results, step: (State, nat) -> Reply<Status>, configs: seq<File>, n: nat) {
    n <= |configs| && exists i :: 0 <= i < n && AppliedAt(s, m, step, configs, i)
  }

  lemma RepliesNext(s: State, m: Results, step: (State, nat) -> Reply<Status>, configs: seq<File>, n: nat)
    requires 0 < n <= |configs|
    ensures var before := FilesUpTo(s, m, step, configs, n - 1);
            FilesUpTo(s, m, step, configs, n).Reply? <==> before.Reply? && ReplyAt(s, m, step, configs, n - 1)
  {
  }

  /** The files go through exactly when every step on the way does. */
  lemma {:induction false} RepliesExactly(s: State, m: Results, step: (State, nat) -> Reply<Status>, configs: seq<File>, n: nat)
    requires n <= |configs|
    ensures FilesUpTo(s, m, step, configs, n).Reply? <==> AllReply(s, m, step, configs, n)
    decreases n
  {
    if n > 0 {
      RepliesExactly(s, m, step, configs, n - 1);
      RepliesNext(s, m, step, configs, n);
    }
  }

  predicate KindsDiffer(m: Results, configs: seq<File>) {
    && (forall i :: 0 <= i < |configs| ==> ConfigType(configs[i].name) !in m)
    && (forall i, j :: 0 <= i < j < |configs| ==> ConfigType(configs[i].name) != ConfigType(configs[j].name))
  }

  lemma {:induction false} KindsSoFar(s: State, m: Results, step: (State, nat) -> Reply<Status>, configs: seq<File>, n: nat, k: nat)
    requires n <= k < |configs| && KindsDiffer(m, configs) && FilesUpTo(s, m, step, configs, n).Reply?
    ensures ConfigType(configs[k].name) !in FilesUpTo(s, m, step, configs, n).value
    decreases n
  {
    if n > 0 {
      KindsSoFar(s, m, step, configs, n - 1, k);
    }
  }

  lemma SomeAppliedMore(m: Results, kind: string, status: Status)
    requires kind !in m
    ensures SomeApplied(m[kind := status]) <==> SomeApplied(m) || status == Applied
  {
    var more := m[kind := status];
    if SomeApplied(m) {
      var k :| k in m && m[k] == Applied;
      assert k in more && more[k] == Applied;
    }
    assert kind in more;
  }

  /** The report has an applied entry exactly when one was there before the files or a step applied its file. */
  lemma {:induction false} AppliedExactly(s: State, m: Results, step: (State, nat) -> Reply<Status>, configs: seq<File>, n: nat)
    requires n <= |configs| && KindsDiffer(m, configs) && FilesUpTo(s, m, step, configs, n).Reply?
    ensures SomeApplied(FilesUpTo(s, m, step, configs, n).value)
       <==> SomeApplied(m) || SomeStepApplies(s, m, step, configs, n)
    decreases n
  {
    if n > 0 {
      AppliedExactly(s, m, step, configs, n - 1);
      KindsSoFar(s, m, step, configs, n - 1, n - 1);
      var before := FilesUpTo(s, m, step, configs, n - 1);
      SomeAppliedMore(before.value, ConfigType(configs[n - 1].name), step(before.state, n - 1).value);
      assert AppliedAt(s, m, step, configs, n - 1) <==> IsApplied(step(before.state, n - 1));
      assert SomeStepApplies(s, m, step, configs, n)
        <==> SomeStepApplies(s, m, step, configs, n - 1) || AppliedAt(s, m, step, configs, n - 1);
    }
  }

  /** The state in which a pass comes to file `i`. */
  function StateAt(s: State, src: Source, c: PassCalls, hash: string -> string, i: nat): State
    requires i <= |src.configs|
  {
    var (s1, certs) := CertStep(s, c.certs, src);
    FilesUpTo(s1, map[CERTIFICATES := certs], FileSteps(c, hash, src.configs), src.configs, i).state
  }

  /** No call makes the step of file `i` raise. */
  predicate Passes(s: State, src: Source, c: PassCalls, hash: string -> string, i: nat)
    requires i < |src.configs|
  {
    !FileRaises(StateAt(s, src, c, hash, i), c.files(i), hash, src.configs[i])
  }

  /** File `i` differs from its stored hash, and writing and saving it go through. */
  predicate Applies(s: State, src: Source, c: PassCalls, hash: string -> string, i: nat)
    requires i < |src.configs|
  {
    FileApplies(StateAt(s, src, c, hash, i), c.files(i), hash, src.configs[i])
  }

  predicate NoFileRaises(s: State, src: Source, c: PassCalls, hash: string -> string) {
    forall i :: 0 <= i < |src.configs| ==> Passes(s, src, c, hash, i)
  }

  /** Certificates or a file differed from the stored hash, and writing and saving them went through. */
  predicate SomethingApplies(s: State, src: Source, c: PassCalls, hash: string -> string) {
    CertsApply(s, c.certs, src) || exists i :: 0 <= i < |src.configs| && Applies(s, src, c, hash, i)
  }

  lemma WellNamedKinds(src: Source, certs: Status)
    requires WellNamed(src)
    ensures KindsDiffer(map[CERTIFICATES := certs], src.configs)
  {
    forall i | 0 <= i < |src.configs| ensures ConfigType(src.configs[i].name) != CERTIFICATES {
      GeneratedNames(src.configs[i].name);
    }
    forall i, j | 0 <= i < j < |src.configs| ensures ConfigType(src.configs[i].name) != ConfigType(src.configs[j].name) {
      GeneratedTypesDistinct(src.configs[i].name, src.configs[j].name);
    }
  }

  lemma StepAt(s: State, src: Source, c: PassCalls, hash: string -> string, i: nat)
    requires i < |src.configs|
    ensures var (s1, certs) := CertStep(s, c.certs, src);
            var m, step := map[CERTIFICATES := certs], FileSteps(c, hash, src.configs);
            && (ReplyAt(s1, m, step, src.configs, i) <==> Passes(s, src, c, hash, i))
            && (AppliedAt(s1, m, step, src.configs, i) <==> Applies(s, src, c, hash, i))
  {
    FileStepOutcome(StateAt(s, src, c, hash, i), c.files(i), hash, src.configs[i]);
  }

  lemma AllPass(s: State, src: Source, c: PassCalls, hash: string -> string, n: nat)
    requires n <= |src.configs|
    ensures var (s1, certs) := CertStep(s, c.certs, src);
            var m, step := map[CERTIFICATES := certs], FileSteps(c, hash, src.configs);
            AllReply(s1, m, step, src.configs, n) <==> forall i :: 0 <= i < n ==> Passes(s, src, c, hash, i)
  {
    var (s1, certs) := CertStep(s, c.certs, src);
    var m, step := map[CERTIFICATES := certs], FileSteps(c, hash, src.configs);
    forall i | 0 <= i < n ensures ReplyAt(s1, m, step, src.configs, i) <==> Passes(s, src, c, hash, i) {
      StepAt(s, src, c, hash, i);
    }
  }

  lemma SomeApply(s: State, src: Source, c: PassCalls, hash: string -> string)
    ensures var (s1, certs) := CertStep(s, c.certs, src);
            var m, step := map[CERTIFICATES := certs], FileSteps(c, hash, src.configs);
            SomeStepApplies(s1, m, step, src.configs, |src.configs|) <==>
              exists i :: 0 <= i < |src.configs| && Applies(s, src, c, hash, i)
  {
    var (s1, certs) := CertStep(s, c.certs, src);
    var m, step := map[CERTIFICATES := certs], FileSteps(c, hash, src.configs);
    forall i | 0 <= i < |src.configs| ensures AppliedAt(s1, m, step, src.configs, i) <==> Applies(s, src, c, hash, i) {
      StepAt(s, src, c, hash, i);
    }
  }

  lemma StepsByCalls(s: State, src: Source, c: PassCalls, hash: string -> string)
    ensures var (s1, certs) := CertStep(s, c.certs, src);
            var m, step, n := map[CERTIFICATES := certs], FileSteps(c, hash, src.configs), |src.configs|;
            && (AllReply(s1, m, step, src.configs, n) <==> NoFileRaises(s, src, c, hash))
            && (SomethingApplies(s, src, c, hash) <==> certs == Applied || SomeStepApplies(s1, m, step, src.configs, n))
  {
    CertStepOutcome(s, c.certs, src);
    AllPass(s, src, c, hash, |src.configs|);
    SomeApply(s, src, c, hash);
  }

  lemma CertsAlone(certs: Status)
    ensures var m := map[CERTIFICATES := certs]; SomeApplied(m) <==> certs == Applied
  {
    var m := map[CERTIFICATES := certs];
    assert CERTIFICATES in m;
  }

  lemma HasAppliedMeans(end: PassEnd)
    ensures HasApplied(end) <==> end.Report? && SomeApplied(end.results)
  {
  }

  /** How a pass ends, by its calls: it reports exactly when nothing raises, and then what was applied. */
  lemma PassEndsExactly(s: State, src: Source, c: PassCalls, hash: string -> string)
    requires WellNamed(src) && c.generates
    ensures var end := Applying(s, src, c, hash).1;
            && (end.Report? <==> NoFileRaises(s, src, c, hash))
            && (HasApplied(end) <==> NoFileRaises(s, src, c, hash) && SomethingApplies(s, src, c, hash))
  {
    var (s1, certs) := CertStep(s, c.certs, src);
    var m, step, n := map[CERTIFICATES := certs], FileSteps(c, hash, src.configs), |src.configs|;
    StepsByCalls(s, src, c, hash);
    RepliesExactly(s1, m, step, src.configs, n);
    if AllReply(s1, m, step, src.configs, n) {
      WellNamedKinds(src, certs);
      CertsAlone(certs);
      AppliedExactly(s1, m, step, src.configs, n);
      HasAppliedMeans(Applying(s, src, c, hash).1);
    }
  }

  // ---------------------------------------------------------------------------
  // When a pass leaves the disk as it is
  // ---------------------------------------------------------------------------

  /** The pass comes to file `i`: no step before it raises. */
  predicate Reaches(s: State, src: Source, c: PassCalls, hash: string -> string, i: nat)
    requires i <= |src.configs|
  {
    forall j :: 0 <= j < i ==> Passes(s, src, c, hash, j)
  }

  /** The certificate step writes nothing, or what is there already. */
  predicate LeavesCerts(s: State, c: CertCalls, src: Source) {
    CertsUntouched(s, c, src) || CertsHold(s.disk, CertOutput(c, src))
  }

  predicate LeavesIfReached(s: State, src: Source, c: PassCalls, hash: string -> string, i: nat)
    requires i < |src.configs|
  {
    Reaches(s, src, c, hash, i) ==> LeavesFile(StateAt(s, src, c, hash, i), c.files(i), hash, src.configs[i])
  }

  /** Nothing is written but what is there already, neither certificates nor any file the pass comes to. */
  predicate WritesNothingNew(s: State, src: Source, c: PassCalls, hash: string -> string) {
    && LeavesCerts(s, c.certs, src)
    && (c.generates ==> forall i :: 0 <= i < |src.configs| ==> LeavesIfReached(s, src, c, hash, i))
  }

  lemma CertsLeftExactly(s: State, c: CertCalls, src: Source)
    ensures CertStep(s, c, src).0.disk == s.disk <==> LeavesCerts(s, c, src)
    ensures CertStep(s, c, src).0.disk.outputs == s.disk.outputs
  {
    CertStepLeavesDisk(s, c, src);
    var what := CertOutput(c, src);
    if CertsHold(s.disk, what) {
      assert s.disk.certs + what == s.disk.certs;
    } else {
      var f :| f in what && !(f in s.disk.certs && s.disk.certs[f] == what[f]);
      assert (s.disk.certs + what)[f] == what[f];
    }
  }

  /** A step of a sequence of disks that touches no certificate and no file but its own. */
  predicate OwnFileOnly(before: Disk, after: Disk, name: string) {
    after.certs == before.certs && after.outputs - {name} == before.outputs - {name}
  }

  lemma OtherEntry(before: Disk, after: Disk, name: string, other: string)
    requires OwnFileOnly(before, after, name) && other != name
    ensures Entry(after, other) == Entry(before, other)
  {
    assert other in after.outputs <==> other in after.outputs - {name};
    assert other in before.outputs <==> other in before.outputs - {name};
    assert other in after.outputs ==> after.outputs[other] == (after.outputs - {name})[other];
    assert other in before.outputs ==> before.outputs[other] == (before.outputs - {name})[other];
  }

  lemma OwnEntry(before: Disk, after: Disk, name: string)
    requires OwnFileOnly(before, after, name) && Entry(after, name) == Entry(before, name)
    ensures after == before
  {
    forall other | other != name ensures Entry(after, other) == Entry(before, other) {
      OtherEntry(before, after, name, other);
    }
    SameByEntry(after, before, name);
  }

  lemma {:induction false} EntryKept(disk: nat -> Disk, names: seq<string>, m: nat, n: nat, name: string)
    requires m <= n <= |names| && (forall i :: 0 <= i < |names| ==> OwnFileOnly(disk(i), disk(i + 1), names[i]))
    requires forall i :: m <= i < n ==> names[i] != name
    ensures Entry(disk(n), name) == Entry(disk(m), name)
    decreases n
  {
    if m < n {
      EntryKept(disk, names, m, n - 1, name);
      OtherEntry(disk(n - 1), disk(n), names[n - 1], name);
    }
  }

  /** With different files, the last disk is the first one only if no step changed anything. */
  lemma {:induction false} NothingUndone(disk: nat -> Disk, names: seq<string>, n: nat)
    requires n <= |names| && (forall i :: 0 <= i < |names| ==> OwnFileOnly(disk(i), disk(i + 1), names[i]))
    requires forall i, j :: 0 <= i < j < |names| ==> names[i] != names[j]
    ensures disk(n) == disk(0) <==> forall i :: 0 <= i < n ==> disk(i + 1) == disk(i)
    decreases n
  {
    if n > 0 {
      NothingUndone(disk, names, n - 1);
      var name := names[n - 1];
      EntryKept(disk, names, 0, n - 1, name);
      if disk(n) == disk(0) {
        OwnEntry(disk(n - 1), disk(n), name);
      }
    }
  }

  lemma {:induction false} CertsKept(disk: nat -> Disk, names: seq<string>, n: nat)
    requires n <= |names| && (forall i :: 0 <= i < |names| ==> OwnFileOnly(disk(i), disk(i + 1), names[i]))
    ensures disk(n).certs == disk(0).certs
    decreases n
  {
    if n > 0 {
      CertsKept(disk, names, n - 1);
    }
  }

  lemma FrameIsOwn(before: Disk, after: Disk, name: string)
    requires after.certs == before.certs && forall n :: n != name ==> Entry(after, n) == Entry(before, n)
    ensures OwnFileOnly(before, after, name)
  {
    var a, b := after.outputs - {name}, before.outputs - {name};
    forall n ensures (n in a <==> n in b) && (n in a ==> a[n] == b[n]) {
      assert n != name ==> Entry(after, n) == Entry(before, n);
    }
    assert a.Keys == b.Keys;
  }

  lemma ReachesExactly(s: State, src: Source, c: PassCalls, hash: string -> string, i: nat)
    requires i <= |src.configs|
    ensures var (s1, certs) := CertStep(s, c.certs, src);
            Reaches(s, src, c, hash, i) <==>
              FilesUpTo(s1, map[CERTIFICATES := certs], FileSteps(c, hash, src.configs), src.configs, i).Reply?
  {
    var (s1, certs) := CertStep(s, c.certs, src);
    var m, step := map[CERTIFICATES := certs], FileSteps(c, hash, src.configs);
    RepliesExactly(s1, m, step, src.configs, i);
    AllPass(s, src, c, hash, i);
  }

  lemma StateNext(s: State, src: Source, c: PassCalls, hash: string -> string, i: nat)
    requires i < |src.configs|
    ensures StateAt(s, src, c, hash, i + 1)
         == if Reaches(s, src, c, hash, i) then FileStep(StateAt(s, src, c, hash, i), c.files(i), hash, src.configs[i]).state
            else StateAt(s, src, c, hash, i)
  {
    ReachesExactly(s, src, c, hash, i);
  }

  lemma DiskNext(s: State, src: Source, c: PassCalls, hash: string -> string, i: nat)
    requires i < |src.configs|
    ensures var before, after := StateAt(s, src, c, hash, i).disk, StateAt(s, src, c, hash, i + 1).disk;
            && OwnFileOnly(before, after, src.configs[i].name)
            && (after == before <==> LeavesIfReached(s, src, c, hash, i))
  {
    StateNext(s, src, c, hash, i);
    var before := StateAt(s, src, c, hash, i);
    if Reaches(s, src, c, hash, i) {
      FileStepFrame(before, c.files(i), hash, src.configs[i]);
      FrameIsOwn(before.disk, FileStep(before, c.files(i), hash, src.configs[i]).state.disk, src.configs[i].name);
      FileStepLeavesDisk(before, c.files(i), hash, src.configs[i]);
    }
  }

  lemma LeftExactly(disk: nat -> Disk, names: seq<string>, left: nat -> bool)
    requires forall i :: 0 <= i < |names| ==> OwnFileOnly(disk(i), disk(i + 1), names[i]) && (disk(i + 1) == disk(i) <==> left(i))
    requires forall i, j :: 0 <= i < j < |names| ==> names[i] != names[j]
    ensures disk(|names|).certs == disk(0).certs
    ensures disk(|names|) == disk(0) <==> forall i :: 0 <= i < |names| ==> left(i)
  {
    CertsKept(disk, names, |names|);
    NothingUndone(disk, names, |names|);
    if forall i :: 0 <= i < |names| ==> left(i) {
      forall i | 0 <= i < |names| ensures disk(i + 1) == disk(i) {
        assert OwnFileOnly(disk(i), disk(i + 1), names[i]) && left(i);
      }
    } else {
      var i :| 0 <= i < |names| && !left(i);
      assert OwnFileOnly(disk(i), disk(i + 1), names[i]) && disk(i + 1) != disk(i);
    }
  }

  /** The last disk of the files is the first one exactly when each step that is reached leaves its file. */
  lemma FilesLeftExactly(s: State, src: Source, c: PassCalls, hash: string -> string)
    requires WellNamed(src)
    ensures var first, last := StateAt(s, src, c, hash, 0).disk, StateAt(s, src, c, hash, |src.configs|).disk;
            && last.certs == first.certs
            && (last == first <==> forall i :: 0 <= i < |src.configs| ==> LeavesIfReached(s, src, c, hash, i))
  {
    var n := |src.configs|;
    var disk := (i: nat) => StateAt(s, src, c, hash, if i <= n then i else n).disk;
    var left := (i: nat) => i < n && LeavesIfReached(s, src, c, hash, i);
    var names := seq(n, i requires 0 <= i < n => src.configs[i].name);
    forall i | 0 <= i < n ensures OwnFileOnly(disk(i), disk(i + 1), names[i]) && (disk(i + 1) == disk(i) <==> left(i)) {
      DiskNext(s, src, c, hash, i);
    }
    LeftExactly(disk, names, left);
    assert forall i :: 0 <= i < n ==> (left(i) <==> LeavesIfReached(s, src, c, hash, i));
  }

  /** A pass leaves the disk as it is exactly when it writes nothing but what is there already. */
  lemma DiskKeptExactly(s: State, src: Source, c: PassCalls, hash: string -> string)
    requires WellNamed(src)
    ensures Applying(s, src, c, hash).0.disk == s.disk <==> WritesNothingNew(s, src, c, hash)
  {
    CertsLeftExactly(s, c.certs, src);
    FilesLeftExactly(s, src, c, hash);
    var s1 := CertStep(s, c.certs, src).0;
    assert StateAt(s, src, c, hash, 0) == s1;
    assert c.generates ==> Applying(s, src, c, hash).0 == StateAt(s, src, c, hash, |src.configs|);
  }

  // ---------------------------------------------------------------------------
  // What runs is what is on disk
  // ---------------------------------------------------------------------------

  /**
   What keeps a server in step with the disk: a pass that writes nothing new, or one that renders, in
   which no call makes a file step raise, that applies something, and whose reload works.
   */
  predicate KeepsStep(s: State, src: Source, c: PassCalls, hash: string -> string) {
    || WritesNothingNew(s, src, c, hash)
    || (c.generates && c.reloads && NoFileRaises(s, src, c, hash) && SomethingApplies(s, src, c, hash))
  }

  /** Exactly so, whatever the calls do: raise, fail softly, or leave a write half done. */
  lemma InStepExactly(x: System, src: Source, c: PassCalls, hash: string -> string)
    requires WellNamed(src) && InStep(x)
    ensures InStep(PassStep(x, src, c, hash).0) <==> KeepsStep(x.state, src, c, hash)
  {
    DiskKeptExactly(x.state, src, c, hash);
    if c.generates {
      PassEndsExactly(x.state, src, c, hash);
    }
  }

  /** In particular: a pass past generation in which nothing raises and failed writes leave nothing, with a reload that works. */
  lemma CleanKeepsStep(s: State, src: Source, c: PassCalls, hash: string -> string)
    requires WellNamed(src) && Clean(c) && c.generates && c.reloads
    ensures KeepsStep(s, src, c, hash)
  {
    ChangeIsReported(s, src, c, hash);
    InStepExactly(System(s, s.disk), src, c, hash);
  }

  /** Everything works in a pass. */
  ghost predicate AllWork(c: PassCalls) {
    RecordsWork(c) && c.reloads && forall i: nat :: c.files(i).write.FileWritten?
  }

  lemma WorkingPassApplies(s: State, src: Source, c: PassCalls, hash: string -> string)
    requires TenantKnown(s) && WellNamed(src) && AllWork(c)
    ensures NoFileRaises(s, src, c, hash)
    ensures SomethingApplies(s, src, c, hash) <==> !Reconciled(s, src, hash)
  {
    var (s1, certs) := CertStep(s, c.certs, src);
    CertStepRecords(s, c.certs, src);
    forall i | 0 <= i < |src.configs|
      ensures Passes(s, src, c, hash, i)
      ensures Applies(s, src, c, hash, i) <==> FileRow(s, src.configs[i].name) != Some(hash(src.configs[i].content)) {
      GeneratedNames(src.configs[i].name);
      FilesRecord(s1, certs, src, c, hash, i);
    }
  }

  /** When a pass in which everything works brings a server into step, exactly: it was, or some stored hash is not current. */
  lemma WorkingPassHealsExactly(x: System, src: Source, c: PassCalls, hash: string -> string)
    requires TenantKnown(x.state) && WellNamed(src) && AllWork(c)
    ensures InStep(PassStep(x, src, c, hash).0) <==> InStep(x) || !Reconciled(x.state, src, hash)
  {
    WorkingPassApplies(x.state, src, c, hash);
    PassEndsExactly(x.state, src, c, hash);
    if Reconciled(x.state, src, hash) {
      PassIsFixpoint(x, src, c, hash);
    }
  }

  predicate KeepsAt(x: System, passes: seq<Occasion>, hash: string -> string, i: nat)
    requires i < |passes|
  {
    KeepsStep(RunOver(x, passes, hash, i).state, passes[i].src, passes[i].calls, hash)
  }

  predicate InStepAt(x: System, passes: seq<Occasion>, hash: string -> string, i: nat)
    requires i <= |passes|
  {
    InStep(RunOver(x, passes, hash, i))
  }

  lemma NextInStep(x: System, passes: seq<Occasion>, hash: string -> string, i: nat)
    requires i < |passes| && WellNamed(passes[i].src) && InStepAt(x, passes, hash, i)
    ensures InStepAt(x, passes, hash, i + 1) <==> KeepsAt(x, passes, hash, i)
  {
    InStepExactly(RunOver(x, passes, hash, i), passes[i].src, passes[i].calls, hash);
  }

  lemma {:induction false} StepByStep(good: nat -> bool, n: nat)
    requires good(0) && forall i: nat :: i < n && good(i) ==> good(i + 1)
    ensures good(n)
    decreases n
  {
    if n > 0 {
      StepByStep(good, n - 1);
    }
  }

  lemma KeptRun(x: System, passes: seq<Occasion>, hash: string -> string, n: nat)
    requires InStep(x) && n <= |passes| && forall i :: 0 <= i < n ==> WellNamed(passes[i].src)
    requires forall i :: 0 <= i < n ==> KeepsAt(x, passes, hash, i)
    ensures InStepAt(x, passes, hash, n)
  {
    var good := (i: nat) => i <= |passes| && InStepAt(x, passes, hash, i);
    forall i: nat | i < n && good(i) ensures good(i + 1) {
      NextInStep(x, passes, hash, i);
    }
    StepByStep(good, n);
  }

  /** Along a run the server is always in step if and only if every pass keeps it so. */
  lemma RunStaysInStep(x: System, passes: seq<Occasion>, hash: string -> string)
    requires InStep(x) && forall i :: 0 <= i < |passes| ==> WellNamed(passes[i].src)
    ensures (forall i :: 0 <= i <= |passes| ==> InStepAt(x, passes, hash, i))
       <==> forall i :: 0 <= i < |passes| ==> KeepsAt(x, passes, hash, i)
  {
    if forall i :: 0 <= i < |passes| ==> KeepsAt(x, passes, hash, i) {
      forall i | 0 <= i <= |passes| ensures InStepAt(x, passes, hash, i) {
        KeptRun(x, passes, hash, i);
      }
    } else {
      var i :| 0 <= i < |passes| && !KeepsAt(x, passes, hash, i);
      if InStepAt(x, passes, hash, i) {
        NextInStep(x, passes, hash, i);
      }
    }
  }
}
