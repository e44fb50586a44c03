/**
 What holds of the certificates table over every run of committed and rolled back transactions,
 and what a chain of renewals preserves.
 */
module CertificateLaws {
  import opened Wrappers
  import opened Certificates

  // ---------------------------------------------------------------------------
  // One active certificate per tenant and type
  // ---------------------------------------------------------------------------

  predicate KeysUnique(rows: seq<Cert>) {
    forall i, j :: 0 <= i < j < |rows| ==> !Clashes(rows[i], rows[j])
  }

  predicate BothActive(r: Cert, c: Cert) {
    r.active && c.active && r.tenant == c.tenant && r.kind == c.kind
  }

  predicate AtMostOneActive(rows: seq<Cert>) {
    forall i, j :: 0 <= i < j < |rows| ==> !BothActive(rows[i], rows[j])
  }

  predicate Sound(rows: seq<Cert>) {
    KeysUnique(rows) && AtMostOneActive(rows)
  }

  /** A step that stays sound and leaves no group without its active certificate. */
  ghost predicate Steady(rows: seq<Cert>, after: seq<Cert>) {
    Sound(after) && forall tenant, kind :: HasActive(rows, tenant, kind) ==> HasActive(after, tenant, kind)
  }

  lemma InsertIsSteady(rows: seq<Cert>, c: Cert)
    requires Sound(rows) && Inserted(rows, c).Ok?
    ensures Steady(rows, Inserted(rows, c).value)
  {
    var after := Inserted(rows, c).value;
    forall tenant, kind | HasActive(rows, tenant, kind) ensures HasActive(after, tenant, kind) {
      var i :| 0 <= i < |rows| && IsActiveIn(rows[i], tenant, kind);
      assert after[i] == rows[i];
    }
    forall i, j | 0 <= i < j < |after| ensures !Clashes(after[i], after[j]) {
      assert after[i] == rows[i];
      assert j < |rows| ==> after[j] == rows[j];
    }
  }

  /** Activating a certificate leaves it the only active one of its group, and other groups as they were. */
  lemma ActivationChooses(rows: seq<Cert>, tenant: string, id: nat, k: nat)
    requires Sound(rows) && k < |rows| && rows[k].tenant == tenant && rows[k].id == id
    ensures Activation(rows, tenant, id).Ok?
    ensures var after := Activation(rows, tenant, id).value;
            && |after| == |rows|
            && forall i :: 0 <= i < |rows| ==>
                 after[i] == if rows[i].tenant == tenant && rows[i].kind == rows[k].kind
                             then rows[i].(active := i == k) else rows[i]
  {
    var c := Lookup(rows, tenant, id).value;
    var at :| 0 <= at < |rows| && rows[at] == c;
    assert at == k by {
      assert Clashes(rows[at], rows[k]) && Clashes(rows[k], rows[at]);
    }
    forall i | 0 <= i < |rows| && i != k ensures !Is(rows[i], tenant, id) {
      assert i < k ==> !Clashes(rows[i], rows[k]);
      assert k < i ==> !Clashes(rows[k], rows[i]);
    }
  }

  lemma ActivationKeepsActive(rows: seq<Cert>, tenant: string, id: nat, t: string, kind: string)
    requires Sound(rows) && Activation(rows, tenant, id).Ok? && HasActive(rows, t, kind)
    ensures HasActive(Activation(rows, tenant, id).value, t, kind)
  {
    var k :| 0 <= k < |rows| && Is(rows[k], tenant, id);
    ActivationChooses(rows, tenant, id, k);
    var i :| 0 <= i < |rows| && IsActiveIn(rows[i], t, kind);
    assert IsActiveIn(Activation(rows, tenant, id).value[if InGroup(rows[i], tenant, rows[k].kind) then k else i], t, kind);
  }

  lemma ActivationOfPair(rows: seq<Cert>, tenant: string, id: nat, i: nat, j: nat)
    requires Sound(rows) && Activation(rows, tenant, id).Ok? && i < j < |rows|
    ensures var after := Activation(rows, tenant, id).value;
            |after| == |rows| && !Clashes(after[i], after[j]) && !BothActive(after[i], after[j])
  {
    var k :| 0 <= k < |rows| && Is(rows[k], tenant, id);
    ActivationChooses(rows, tenant, id, k);
    assert !Clashes(rows[i], rows[j]) && !BothActive(rows[i], rows[j]);
  }

  lemma ActivationStaysSound(rows: seq<Cert>, tenant: string, id: nat)
    requires Sound(rows) && Activation(rows, tenant, id).Ok?
    ensures Sound(Activation(rows, tenant, id).value)
  {
    var after := Activation(rows, tenant, id).value;
    forall i, j | 0 <= i < j < |after| ensures !Clashes(after[i], after[j]) && !BothActive(after[i], after[j]) {
      ActivationOfPair(rows, tenant, id, i, j);
    }
  }

  lemma ActivationIsSteady(rows: seq<Cert>, tenant: string, id: nat)
    requires Sound(rows) && Activation(rows, tenant, id).Ok?
    ensures Steady(rows, Activation(rows, tenant, id).value)
  {
    ActivationStaysSound(rows, tenant, id);
    forall t, kind | HasActive(rows, t, kind) ensures HasActive(Activation(rows, tenant, id).value, t, kind) {
      ActivationKeepsActive(rows, tenant, id, t, kind);
    }
  }

  lemma {:induction false} WithoutNone(rows: seq<Cert>, tenant: string, id: nat)
    requires forall i :: 0 <= i < |rows| ==> !Is(rows[i], tenant, id)
    ensures Without(rows, tenant, id) == rows
    decreases rows
  {
    if rows != [] {
      WithoutNone(rows[1..], tenant, id);
    }
  }

  lemma {:induction false} WithoutOne(rows: seq<Cert>, tenant: string, id: nat, k: nat)
    requires KeysUnique(rows) && k < |rows| && Is(rows[k], tenant, id)
    ensures Without(rows, tenant, id) == rows[..k] + rows[k + 1..]
    decreases rows
  {
    if k == 0 {
      forall i | 0 <= i < |rows[1..]| ensures !Is(rows[1..][i], tenant, id) {
        assert !Clashes(rows[0], rows[i + 1]);
      }
      WithoutNone(rows[1..], tenant, id);
    } else {
      assert !Clashes(rows[0], rows[k]);
      WithoutOne(rows[1..], tenant, id, k - 1);
      assert rows[..k] == [rows[0]] + rows[1..][..k - 1];
    }
  }

  lemma DeletionIsSteady(rows: seq<Cert>, tenant: string, id: nat)
    requires Sound(rows) && Deletion(rows, tenant, id).Ok?
    ensures Steady(rows, Deletion(rows, tenant, id).value)
  {
    var k :| 0 <= k < |rows| && rows[k] == Lookup(rows, tenant, id).value;
    WithoutOne(rows, tenant, id, k);
    var after := Deletion(rows, tenant, id).value;
    forall t, kind | HasActive(rows, t, kind) ensures HasActive(after, t, kind) {
      var i :| 0 <= i < |rows| && IsActiveIn(rows[i], t, kind);
      assert after[if i < k then i else i - 1] == rows[i];
    }
    forall i, j | 0 <= i < j < |after| ensures !Clashes(after[i], after[j]) && !BothActive(after[i], after[j]) {
      var i', j' := if i < k then i else i + 1, if j < k then j else j + 1;
      assert !Clashes(rows[i'], rows[j']) && !BothActive(rows[i'], rows[j']);
    }
  }

  // ---------------------------------------------------------------------------
  // Renewal passes
  // ---------------------------------------------------------------------------

  lemma {:induction false} RenewableRows(rows: seq<Cert>, tenant: string, now: int, days: int, c: Cert)
    ensures c in Renewable(rows, tenant, now, days) <==> c in rows && IsRenewable(c, tenant, now, days)
    decreases rows
  {
    if rows != [] {
      RenewableRows(rows[1..], tenant, now, days, c);
      assert c in rows <==> c == rows[0] || c in rows[1..];
    }
  }

  /** A pass never sees more than one candidate. */
  lemma {:induction false} OneCandidate(rows: seq<Cert>, tenant: string, now: int, days: int)
    requires AtMostOneActive(rows)
    ensures |Renewable(rows, tenant, now, days)| <= 1
    decreases rows
  {
    if rows != [] {
      OneCandidate(rows[1..], tenant, now, days);
      forall r | r in rows[1..] ensures !BothActive(rows[0], r) {
        var i :| 0 <= i < |rows[1..]| && rows[1..][i] == r;
        assert !BothActive(rows[0], rows[i + 1]);
      }
      var rest := Renewable(rows[1..], tenant, now, days);
      if rest != [] {
        RenewableRows(rows[1..], tenant, now, days, rest[0]);
      }
    }
  }

  lemma RenewOneIsSteady(isIp: string -> bool, rows: seq<Cert>, tenant: string, expiring: Cert, date: string, a: Attempt)
    requires Sound(rows) && |date| == 8
    ensures Steady(rows, RenewOne(isIp, rows, tenant, expiring, date, a).rows)
  {
    var q := RenewalRequest(isIp, expiring, date);
    var c := Signed(q, tenant, a.id, a.at);
    var issued := Issue(rows, tenant, q, a.id, a.at, a.trouble);
    if Acceptable(q) && issued.Ok? {
      InsertIsSteady(rows, c);
      if Activation(issued.value, tenant, a.id).Ok? {
        ActivationIsSteady(issued.value, tenant, a.id);
      }
    }
  }

  lemma {:induction false} RenewFirstIsSteady(isIp: string -> bool, rows: seq<Cert>, tenant: string, olds: seq<Cert>,
                                              date: string, plan: nat -> Attempt, n: nat)
    requires Sound(rows) && n <= |olds| && |date| == 8
    ensures Steady(rows, RenewFirst(isIp, rows, tenant, olds, date, plan, n).rows)
    decreases n
  {
    if n > 0 {
      RenewFirstIsSteady(isIp, rows, tenant, olds, date, plan, n - 1);
      RenewOneIsSteady(isIp, RenewFirst(isIp, rows, tenant, olds, date, plan, n - 1).rows, tenant, olds[n - 1], date, plan(n - 1));
    }
  }

  // ---------------------------------------------------------------------------
  // Runs
  // ---------------------------------------------------------------------------

  datatype Op =
    | CreateCa(c: Cert)
    | Import(c: Cert)
    | CreateServer(tenant: string, q: ServerRequest, id: nat, at: int)
    | Activate(tenant: string, id: nat)
    | Delete(tenant: string, id: nat)
    | Renew(tenant: string, thresholdDays: int, clock: Clock, plan: nat -> Attempt)

  predicate Allowed(op: Op) {
    match op
    case CreateCa(c) => c.kind == CA && !c.imported && 1 <= |c.name| <= 255
    case Import(c) => c.kind in {CA, SERVER, "client", "radius"} && c.imported && 1 <= |c.name| <= 255
    case Renew(_, _, clock, _) => |clock.date| == 8
    case _ => true
  }

  function Statements(rows: seq<Cert>, op: Op): Result<seq<Cert>, Error>
    requires !op.Renew?
  {
    match op
    case CreateCa(c) => Inserted(rows, c)
    case Import(c) => Inserted(rows, c)
    case CreateServer(tenant, q, id, at) => if Acceptable(q) then Issue(rows, tenant, q, id, at, Nothing) else Err(Invalid)
    case Activate(tenant, id) => Activation(rows, tenant, id)
    case Delete(tenant, id) => Deletion(rows, tenant, id)
  }

  /** A request commits if nothing goes wrong and is rolled back otherwise; a renewal pass decides for itself. */
  function Exec(isIp: string -> bool, rows: seq<Cert>, op: Op, trouble: Trouble): seq<Cert>
    requires Allowed(op)
  {
    if op.Renew? then RenewalPass(isIp, rows, op.tenant, op.thresholdDays, op.clock, op.plan).0
    else if trouble == Nothing && Statements(rows, op).Ok? then Statements(rows, op).value
    else rows
  }

  lemma ExecIsSteady(isIp: string -> bool, rows: seq<Cert>, op: Op, trouble: Trouble)
    requires Sound(rows) && Allowed(op)
    ensures Steady(rows, Exec(isIp, rows, op, trouble))
  {
    match op
    case Renew(tenant, days, clock, plan) =>
      var olds := Renewable(rows, tenant, clock.now, days);
      RenewFirstIsSteady(isIp, rows, tenant, olds, clock.date, plan, |olds|);
    case CreateCa(c) =>
      if Inserted(rows, c).Ok? { InsertIsSteady(rows, c); }
    case Import(c) =>
      if Inserted(rows, c).Ok? { InsertIsSteady(rows, c); }
    case CreateServer(tenant, q, id, at) =>
      if Issue(rows, tenant, q, id, at, Nothing).Ok? { InsertIsSteady(rows, Signed(q, tenant, id, at)); }
    case Activate(tenant, id) =>
      if Activation(rows, tenant, id).Ok? { ActivationIsSteady(rows, tenant, id); }
    case Delete(tenant, id) =>
      if Deletion(rows, tenant, id).Ok? { DeletionIsSteady(rows, tenant, id); }
  }

  function Run(isIp: string -> bool, rows: seq<Cert>, ops: seq<(Op, Trouble)>, n: nat): seq<Cert>
    requires n <= |ops| && forall i :: 0 <= i < |ops| ==> Allowed(ops[i].0)
  {
    if n == 0 then rows else Exec(isIp, Run(isIp, rows, ops, n - 1), ops[n - 1].0, ops[n - 1].1)
  }

  /** Exactly one active certificate, once there is one. */
  ghost predicate OneActive(rows: seq<Cert>, tenant: string, kind: string) {
    exists k :: 0 <= k < |rows| && IsActiveIn(rows[k], tenant, kind)
             && forall i :: 0 <= i < |rows| && IsActiveIn(rows[i], tenant, kind) ==> i == k
  }

  lemma {:induction false} RunIsSound(isIp: string -> bool, ops: seq<(Op, Trouble)>, n: nat)
    requires n <= |ops| && forall i :: 0 <= i < |ops| ==> Allowed(ops[i].0)
    ensures Sound(Run(isIp, [], ops, n))
    decreases n
  {
    if n > 0 {
      RunIsSound(isIp, ops, n - 1);
      ExecIsSteady(isIp, Run(isIp, [], ops, n - 1), ops[n - 1].0, ops[n - 1].1);
    }
  }

  lemma RunStepKeepsActive(isIp: string -> bool, ops: seq<(Op, Trouble)>, n: nat, tenant: string, kind: string)
    requires 0 < n <= |ops| && forall i :: 0 <= i < |ops| ==> Allowed(ops[i].0)
    ensures HasActive(Run(isIp, [], ops, n - 1), tenant, kind) ==> HasActive(Run(isIp, [], ops, n), tenant, kind)
  {
    var before := Run(isIp, [], ops, n - 1);
    RunIsSound(isIp, ops, n - 1);
    ExecIsSteady(isIp, before, ops[n - 1].0, ops[n - 1].1);
    assert Run(isIp, [], ops, n) == Exec(isIp, before, ops[n - 1].0, ops[n - 1].1);
  }

  lemma {:induction false} RunKeepsActive(isIp: string -> bool, ops: seq<(Op, Trouble)>, m: nat, n: nat, tenant: string, kind: string)
    requires m <= n <= |ops| && forall i :: 0 <= i < |ops| ==> Allowed(ops[i].0)
    ensures HasActive(Run(isIp, [], ops, m), tenant, kind) ==> HasActive(Run(isIp, [], ops, n), tenant, kind)
    decreases n
  {
    if m < n {
      RunKeepsActive(isIp, ops, m, n - 1, tenant, kind);
      RunStepKeepsActive(isIp, ops, n, tenant, kind);
    }
  }

  lemma RunKeepsOneActive(isIp: string -> bool, ops: seq<(Op, Trouble)>, m: nat, n: nat, tenant: string, kind: string)
    requires m <= n <= |ops| && forall i :: 0 <= i < |ops| ==> Allowed(ops[i].0)
    ensures Sound(Run(isIp, [], ops, n))
    ensures HasActive(Run(isIp, [], ops, m), tenant, kind) ==> OneActive(Run(isIp, [], ops, n), tenant, kind)
  {
    RunIsSound(isIp, ops, n);
    if HasActive(Run(isIp, [], ops, m), tenant, kind) {
      RunKeepsActive(isIp, ops, m, n, tenant, kind);
      SoundHasOne(Run(isIp, [], ops, n), tenant, kind);
    }
  }

  lemma SoundHasOne(rows: seq<Cert>, tenant: string, kind: string)
    requires Sound(rows)
    ensures HasActive(rows, tenant, kind) <==> OneActive(rows, tenant, kind)
  {
    if HasActive(rows, tenant, kind) {
      var k :| 0 <= k < |rows| && IsActiveIn(rows[k], tenant, kind);
      forall i | 0 <= i < |rows| && IsActiveIn(rows[i], tenant, kind) ensures i == k {
        assert BothActive(rows[i], rows[k]) && BothActive(rows[k], rows[i]);
      }
    }
  }

  // ---------------------------------------------------------------------------
  // What a renewal preserves
  // ---------------------------------------------------------------------------

  lemma {:induction false} SplitKeepsAll(isIp: string -> bool, san: seq<string>)
    ensures multiset(DnsNames(isIp, san) + IpNames(isIp, san)) == multiset(san)
    ensures forall x :: x in DnsNames(isIp, san) ==> !isIp(x)
    ensures forall x :: x in IpNames(isIp, san) ==> isIp(x)
    decreases |san|
  {
    if san != [] {
      var n := |san| - 1;
      SplitKeepsAll(isIp, san[..n]);
      assert san == san[..n] + [san[n]];
    }
  }

  lemma {:induction false} SplitSorted(isIp: string -> bool, dns: seq<string>, ips: seq<string>)
    requires forall x :: x in dns ==> !isIp(x)
    requires forall x :: x in ips ==> isIp(x)
    ensures DnsNames(isIp, dns + ips) == dns && IpNames(isIp, dns + ips) == ips
    decreases |dns| + |ips|
  {
    if ips != [] {
      var n := |ips| - 1;
      assert (dns + ips)[..|dns + ips| - 1] == dns + ips[..n] && (dns + ips)[|dns + ips| - 1] == ips[n];
      SplitSorted(isIp, dns, ips[..n]);
      assert ips == ips[..n] + [ips[n]];
    } else if dns != [] {
      var n := |dns| - 1;
      assert dns + ips == dns && (dns + ips)[..n] == dns[..n] + [] && (dns + ips)[n] == dns[n];
      SplitSorted(isIp, dns[..n], []);
      assert dns == dns[..n] + [dns[n]];
    }
  }

  /** The stored list after a renewal is the same multiset, and splitting it again changes nothing. */
  lemma SplitTwice(isIp: string -> bool, san: seq<string>)
    ensures var again := DnsNames(isIp, san) + IpNames(isIp, san);
            && multiset(again) == multiset(san)
            && DnsNames(isIp, again) == DnsNames(isIp, san) && IpNames(isIp, again) == IpNames(isIp, san)
  {
    SplitKeepsAll(isIp, san);
    SplitSorted(isIp, DnsNames(isIp, san), IpNames(isIp, san));
  }

  lemma WholeDays(at: int, days: int)
    ensures Whole(at + days * DAY) == Whole(at) + days * DAY
    ensures (Whole(at + days * DAY) - Whole(at)) / DAY == days
  {
    var s := days * 86_400;
    assert days * DAY == s * SECOND;
    assert (at + s * SECOND) % SECOND == at % SECOND by {
      var q, r := at / SECOND, at % SECOND;
      assert at + s * SECOND == (q + s) * SECOND + r;
    }
    assert Whole(at + days * DAY) - Whole(at) == days * DAY;
  }

  /** The name fits the column and ends in the date, whatever the old name was. */
  lemma RenewalNameFits(name: string, date: string)
    requires |date| == 8
    ensures var renewed := RenewalName(name, date);
            17 <= |renewed| <= 255 && renewed[|renewed| - 17..] == Suffix(date) && |renewed| - 17 <= |name| && renewed[..|renewed| - 17] == name[..|renewed| - 17]
  {
    assert |"-renewed-"| == 9;
    var keep := if |name| < 238 then |name| else 238;
    assert RenewalName(name, date) == name[..keep] + Suffix(date);
  }

  /** Renewing a renewed name on the same day gives a new name, unless the name was long enough to be cut. */
  lemma SameDayNameClashes(name: string, date: string)
    requires |date| == 8
    ensures RenewalName(RenewalName(name, date), date) == RenewalName(name, date) <==> |name| >= 238
  {
    RenewalNameFits(name, date);
    RenewalNameFits(RenewalName(name, date), date);
    assert |"-renewed-"| == 9;
    if |name| >= 238 {
      assert RenewalName(name, date)[..238] == name[..238];
    }
  }

  /** Names of different days differ. */
  lemma RenewalDatesDiffer(name: string, other: string, date: string, later: string)
    requires |date| == 8 && |later| == 8 && date != later
    ensures RenewalName(name, date) != RenewalName(other, later)
  {
    RenewalNameFits(name, date);
    RenewalNameFits(other, later);
    assert |"-renewed-"| == 9;
    assert Suffix(date)[9..] == date && Suffix(later)[9..] == later;
  }

  function RenewedCert(isIp: string -> bool, c: Cert, date: string, a: Attempt): Cert
    requires |date| == 8
  {
    Signed(RenewalRequest(isIp, c, date), c.tenant, a.id, a.at)
  }

  lemma RenewalPreserves(isIp: string -> bool, c: Cert, date: string, a: Attempt)
    requires |date| == 8 && SubjectOf(c) != ""
    ensures var renewed := RenewedCert(isIp, c, date, a);
            && renewed.commonName == Some(SubjectOf(c)) && SubjectOf(renewed) == SubjectOf(c)
            && Validity(renewed) == Validity(c) && (KeySizeOf(c) != 0 ==> KeySizeOf(renewed) == KeySizeOf(c))
            && SanOf(renewed) == DnsNames(isIp, SanOf(c)) + IpNames(isIp, SanOf(c))
            && multiset(SanOf(renewed)) == multiset(SanOf(c))
  {
    WholeDays(a.at, Validity(c));
    SplitTwice(isIp, SanOf(c));
  }

  datatype Step = Step(date: string, attempt: Attempt)

  /** The certificate after the first `n` of some renewals, each of the one before. */
  function Chain(isIp: string -> bool, c: Cert, steps: seq<Step>, n: nat): Cert
    requires n <= |steps| && forall i :: 0 <= i < |steps| ==> |steps[i].date| == 8
  {
    if n == 0 then c else RenewedCert(isIp, Chain(isIp, c, steps, n - 1), steps[n - 1].date, steps[n - 1].attempt)
  }

  /** However often it is renewed, a certificate keeps its subject, key size, validity and names. */
  lemma {:induction false} ChainPreserves(isIp: string -> bool, c: Cert, steps: seq<Step>, n: nat)
    requires 1 <= n <= |steps| && forall i :: 0 <= i < |steps| ==> |steps[i].date| == 8
    requires SubjectOf(c) != ""
    ensures var last := Chain(isIp, c, steps, n);
            && last.commonName == Some(SubjectOf(c)) && last.keySize == Some(KeySizeOf(c))
            && Validity(last) == Validity(c)
            && multiset(SanOf(last)) == multiset(SanOf(c))
            && SanOf(last) == SanOf(Chain(isIp, c, steps, 1))
            && |last.name| <= 255 && |last.name| >= 17 && last.name[|last.name| - 17..] == Suffix(steps[n - 1].date)
    decreases n
  {
    var before := Chain(isIp, c, steps, n - 1);
    if n > 1 {
      ChainPreserves(isIp, c, steps, n - 1);
      SplitTwice(isIp, SanOf(c));
      RenewalPreserves(isIp, c, steps[0].date, steps[0].attempt);
      assert Chain(isIp, c, steps, 1) == RenewedCert(isIp, Chain(isIp, c, steps, 0), steps[0].date, steps[0].attempt);
    }
    RenewalPreserves(isIp, before, steps[n - 1].date, steps[n - 1].attempt);
    RenewalNameFits(before.name, steps[n - 1].date);
  }

  /** Which certificates a renewal request is accepted for: the derived name never decides. */
  lemma RenewalAcceptedExactly(isIp: string -> bool, c: Cert, date: string)
    requires |date| == 8
    ensures Acceptable(RenewalRequest(isIp, c, date))
       <==> 1 <= |SubjectOf(c)| <= 255 && Validity(c) <= 3650 && 2048 <= KeySizeOf(c) <= 8192
  {
    RenewalNameFits(c.name, date);
  }

  predicate RenewalAccepts(r: Cert) {
    1 <= |SubjectOf(r)| <= 255 && Validity(r) <= 3650 && 2048 <= KeySizeOf(r) <= 8192
  }

  /** A renewal request is accepted for every server certificate that the service issued itself. */
  ghost predicate IssuedAreRenewable(rows: seq<Cert>) {
    forall r :: r in rows && r.kind == SERVER && !r.imported ==> RenewalAccepts(r)
  }

  lemma IssuedIsRenewable(rows: seq<Cert>, tenant: string, q: ServerRequest, id: nat, at: int, trouble: Trouble)
    requires IssuedAreRenewable(rows) && Acceptable(q) && Issue(rows, tenant, q, id, at, trouble).Ok?
    ensures IssuedAreRenewable(Issue(rows, tenant, q, id, at, trouble).value)
  {
    WholeDays(at, q.days);
  }

  lemma ActivationOfRow(rows: seq<Cert>, tenant: string, id: nat, i: nat)
    requires Activation(rows, tenant, id).Ok? && i < |rows|
    ensures |Activation(rows, tenant, id).value| == |rows|
    ensures Activation(rows, tenant, id).value[i].(active := rows[i].active) == rows[i]
  {
  }

  lemma ActivatedAreRenewable(rows: seq<Cert>, tenant: string, id: nat)
    requires IssuedAreRenewable(rows) && Activation(rows, tenant, id).Ok?
    ensures IssuedAreRenewable(Activation(rows, tenant, id).value)
  {
    var after := Activation(rows, tenant, id).value;
    forall r | r in after && r.kind == SERVER && !r.imported ensures RenewalAccepts(r) {
      var i :| 0 <= i < |after| && after[i] == r;
      ActivationOfRow(rows, tenant, id, if i < |rows| then i else 0);
      assert rows[i] in rows && RenewalAccepts(rows[i]);
    }
  }

  lemma {:induction false} WithoutSubset(rows: seq<Cert>, tenant: string, id: nat)
    ensures forall r :: r in Without(rows, tenant, id) ==> r in rows
    decreases rows
  {
    if rows != [] {
      WithoutSubset(rows[1..], tenant, id);
    }
  }

  lemma RenewOneKeepsRenewable(isIp: string -> bool, rows: seq<Cert>, tenant: string, expiring: Cert, date: string, a: Attempt)
    requires IssuedAreRenewable(rows) && |date| == 8
    ensures IssuedAreRenewable(RenewOne(isIp, rows, tenant, expiring, date, a).rows)
  {
    var q := RenewalRequest(isIp, expiring, date);
    var issued := Issue(rows, tenant, q, a.id, a.at, a.trouble);
    if Acceptable(q) && issued.Ok? {
      IssuedIsRenewable(rows, tenant, q, a.id, a.at, a.trouble);
      if Activation(issued.value, tenant, a.id).Ok? {
        ActivatedAreRenewable(issued.value, tenant, a.id);
      }
    }
  }

  lemma {:induction false} RenewedAreRenewable(isIp: string -> bool, rows: seq<Cert>, tenant: string, olds: seq<Cert>,
                                               date: string, plan: nat -> Attempt, n: nat)
    requires IssuedAreRenewable(rows) && n <= |olds| && |date| == 8
    ensures IssuedAreRenewable(RenewFirst(isIp, rows, tenant, olds, date, plan, n).rows)
    decreases n
  {
    if n > 0 {
      RenewedAreRenewable(isIp, rows, tenant, olds, date, plan, n - 1);
      var before := RenewFirst(isIp, rows, tenant, olds, date, plan, n - 1).rows;
      RenewOneKeepsRenewable(isIp, before, tenant, olds[n - 1], date, plan(n - 1));
    }
  }

  lemma ExecKeepsRenewable(isIp: string -> bool, rows: seq<Cert>, op: Op, trouble: Trouble)
    requires IssuedAreRenewable(rows) && Allowed(op)
    ensures IssuedAreRenewable(Exec(isIp, rows, op, trouble))
  {
    match op
    case Renew(tenant, days, clock, plan) =>
      var olds := Renewable(rows, tenant, clock.now, days);
      RenewedAreRenewable(isIp, rows, tenant, olds, clock.date, plan, |olds|);
    case CreateServer(tenant, q, id, at) =>
      if Acceptable(q) && Issue(rows, tenant, q, id, at, Nothing).Ok? { IssuedIsRenewable(rows, tenant, q, id, at, Nothing); }
    case Activate(tenant, id) =>
      if Activation(rows, tenant, id).Ok? { ActivatedAreRenewable(rows, tenant, id); }
    case Delete(tenant, id) => WithoutSubset(rows, tenant, id);
    case CreateCa(c) =>
    case Import(c) =>
  }

  lemma {:induction false} RunKeepsRenewable(isIp: string -> bool, ops: seq<(Op, Trouble)>, n: nat)
    requires n <= |ops| && forall i :: 0 <= i < |ops| ==> Allowed(ops[i].0)
    ensures IssuedAreRenewable(Run(isIp, [], ops, n))
    decreases n
  {
    if n > 0 {
      RunKeepsRenewable(isIp, ops, n - 1);
      ExecKeepsRenewable(isIp, Run(isIp, [], ops, n - 1), ops[n - 1].0, ops[n - 1].1);
    }
  }

  // ---------------------------------------------------------------------------
  // One pass, and the next
  // ---------------------------------------------------------------------------

  /** The row that a renewal adds, and the rows of the table around it. */
  ghost predicate Replaced(rows: seq<Cert>, after: seq<Cert>, tenant: string, c: Cert) {
    && |after| == |rows| + 1 && after[|rows|] == c.(active := true)
    && forall i :: 0 <= i < |rows| ==>
         after[i] == if rows[i].tenant == tenant && rows[i].kind == "server" then rows[i].(active := false) else rows[i]
  }

  /** A renewal goes through, reported as such or as a failed publish, or leaves the rows alone. */
  lemma RenewOneReplaces(isIp: string -> bool, rows: seq<Cert>, tenant: string, expiring: Cert, date: string, a: Attempt)
    requires Sound(rows) && |date| == 8 && expiring.tenant == tenant
    ensures var r := RenewOne(isIp, rows, tenant, expiring, date, a);
            if r.Renewed? || r.error == PublishFailed
            then Replaced(rows, r.rows, tenant, RenewedCert(isIp, expiring, date, a))
            else r.rows == rows
  {
    var c := RenewedCert(isIp, expiring, date, a);
    if Inserted(rows, c).Ok? {
      AppendedIsChosen(rows, tenant, c);
    }
  }

  lemma AppendedIsChosen(rows: seq<Cert>, tenant: string, c: Cert)
    requires Sound(rows) && Inserted(rows, c).Ok? && InGroup(c, tenant, SERVER) && !c.active && c.enabled
    ensures Inserted(rows, c).value == rows + [c]
    ensures Activation(rows + [c], tenant, c.id).Ok? && Replaced(rows, Activation(rows + [c], tenant, c.id).value, tenant, c)
  {
    InsertIsSteady(rows, c);
    ActivationChooses(rows + [c], tenant, c.id, |rows|);
  }

  /** When the renewal of a row in a reachable table succeeds, exactly. */
  lemma RenewsExactly(isIp: string -> bool, rows: seq<Cert>, tenant: string, expiring: Cert, now: int, days: int,
                      date: string, a: Attempt)
    requires Sound(rows) && IssuedAreRenewable(rows) && |date| == 8
    requires expiring in rows && IsRenewable(expiring, tenant, now, days)
    ensures RenewOne(isIp, rows, tenant, expiring, date, a).Renewed?
       <==> && HasActive(rows, tenant, CA) && a.trouble == Nothing
            && forall i :: 0 <= i < |rows| ==> !Clashes(rows[i], RenewedCert(isIp, expiring, date, a))
  {
    RenewalAcceptedExactly(isIp, expiring, date);
    var c := RenewedCert(isIp, expiring, date, a);
    if Inserted(rows, c).Ok? {
      InsertIsSteady(rows, c);
      var rows1 := rows + [c];
      assert Inserted(rows, c).value == rows1 && Is(rows1[|rows|], tenant, a.id);
    }
  }

  /** What a renewal needs before its publish, of everything it depends on. */
  predicate GoesThrough(isIp: string -> bool, rows: seq<Cert>, tenant: string, expiring: Cert, date: string, a: Attempt)
    requires |date| == 8
  {
    && Acceptable(RenewalRequest(isIp, expiring, date)) && HasActive(rows, tenant, CA)
    && forall i :: 0 <= i < |rows| ==> !Clashes(rows[i], RenewedCert(isIp, expiring, date, a))
  }

  lemma OnlyPublishFailsExactly(isIp: string -> bool, rows: seq<Cert>, tenant: string, expiring: Cert, date: string, a: Attempt)
    requires Sound(rows) && |date| == 8 && expiring.tenant == tenant
    ensures var r := RenewOne(isIp, rows, tenant, expiring, date, a);
            (r.Failed? && r.error == PublishFailed) <==>
              a.trouble == PublishFails && GoesThrough(isIp, rows, tenant, expiring, date, a)
  {
    var c := RenewedCert(isIp, expiring, date, a);
    if Inserted(rows, c).Ok? {
      AppendedIsChosen(rows, tenant, c);
    }
  }

  function AfterOne(rows: seq<Cert>, r: Renewal): Progress {
    match r
    case Renewed(after, name) => Progress(after, false, [name], 0)
    case Failed(after, e) => Progress(after, Poisons(e), [], 1)
  }

  lemma FirstOfOne(isIp: string -> bool, rows: seq<Cert>, tenant: string, olds: seq<Cert>, date: string, plan: nat -> Attempt)
    requires |date| == 8 && |olds| == 1
    ensures RenewFirst(isIp, rows, tenant, olds, date, plan, 1)
         == AfterOne(rows, RenewOne(isIp, rows, tenant, olds[0], date, plan(0)))
  {
    var start := Progress(rows, false, [], 0);
    assert RenewFirst(isIp, rows, tenant, olds, date, plan, 0) == start;
    NextOfStart(isIp, rows, tenant, olds[0], date, plan(0));
  }

  lemma NextOfStart(isIp: string -> bool, rows: seq<Cert>, tenant: string, expiring: Cert, date: string, a: Attempt)
    requires |date| == 8
    ensures Next(isIp, Progress(rows, false, [], 0), tenant, expiring, date, a)
         == AfterOne(rows, RenewOne(isIp, rows, tenant, expiring, date, a))
  {
  }

  lemma PassOfOne(isIp: string -> bool, rows: seq<Cert>, tenant: string, days: int, clock: Clock, plan: nat -> Attempt)
    requires |clock.date| == 8 && |Renewable(rows, tenant, clock.now, days)| == 1
    ensures var p := AfterOne(rows, RenewOne(isIp, rows, tenant, Renewable(rows, tenant, clock.now, days)[0], clock.date, plan(0)));
            RenewalPass(isIp, rows, tenant, days, clock, plan) == (if p.poisoned then rows else p.rows, Summary(1, p.renewed, p.errors))
  {
    FirstOfOne(isIp, rows, tenant, Renewable(rows, tenant, clock.now, days), clock.date, plan);
  }

  /**
   A pass over a sound table replaces its one candidate or changes no row. It changes rows although
   it reports an error exactly when the renewal went through and only the publish failed.
   */
  lemma PassRenewsOne(isIp: string -> bool, rows: seq<Cert>, tenant: string, days: int, clock: Clock, plan: nat -> Attempt)
    requires Sound(rows) && |clock.date| == 8
    ensures var olds := Renewable(rows, tenant, clock.now, days);
            var (after, summary) := RenewalPass(isIp, rows, tenant, days, clock, plan);
            && summary.checked == |olds| <= 1 && |summary.renewed| + summary.errors == |olds|
            && (after == rows || (|olds| == 1 && Replaced(rows, after, tenant, RenewedCert(isIp, olds[0], clock.date, plan(0)))))
            && (summary.renewed != [] ==> after != rows)
            && (summary.errors == 1 && after != rows <==>
                  && |olds| == 1 && plan(0).trouble == PublishFails
                  && GoesThrough(isIp, rows, tenant, olds[0], clock.date, plan(0)))
  {
    OneCandidate(rows, tenant, clock.now, days);
    var olds := Renewable(rows, tenant, clock.now, days);
    if |olds| == 1 {
      RenewableRows(rows, tenant, clock.now, days, olds[0]);
      PassOfOne(isIp, rows, tenant, days, clock, plan);
      RenewOneReplaces(isIp, rows, tenant, olds[0], clock.date, plan(0));
      OnlyPublishFailsExactly(isIp, rows, tenant, olds[0], clock.date, plan(0));
    }
  }

  /**
   When a later pass finds nothing to renew, exactly: the validity, counted from the whole second
   in which the renewal was signed, reaches past the threshold.
   */
  lemma NextPassExactly(isIp: string -> bool, rows: seq<Cert>, after: seq<Cert>, tenant: string, expiring: Cert,
                        date: string, a: Attempt, now: int, days: int)
    requires Sound(rows) && |date| == 8 && expiring.tenant == tenant
    requires Replaced(rows, after, tenant, RenewedCert(isIp, expiring, date, a))
    ensures Renewable(after, tenant, now, days) == [] <==> Whole(a.at) + Validity(expiring) * DAY >= now + days * DAY
  {
    WholeDays(a.at, Validity(expiring));
    var c := RenewedCert(isIp, expiring, date, a).(active := true);
    RenewableRows(after, tenant, now, days, c);
    assert after[|rows|] == c;
    var found := Renewable(after, tenant, now, days);
    if found != [] {
      RenewableRows(after, tenant, now, days, found[0]);
      var i :| 0 <= i < |after| && after[i] == found[0];
      assert i == |rows|;
    }
  }

  /** At the very instant of the renewal, a validity of exactly the threshold is enough only on a whole second. */
  lemma SameInstantExactly(validity: int, days: int, at: int)
    ensures Whole(at) + validity * DAY >= at + days * DAY <==> validity > days || (validity == days && at % SECOND == 0)
  {
    assert validity > days ==> validity * DAY >= (days + 1) * DAY;
    assert validity < days ==> validity * DAY <= (days - 1) * DAY;
  }
}
