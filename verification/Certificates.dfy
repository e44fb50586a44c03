/**
 The certificates table and the operations on it: issue, import, activate, delete and renew.
 Times are in microseconds. Signing is abstract: it may fail, and a signed certificate carries
 what its request says.
 */
module Certificates {
  import opened Wrappers

  const SECOND := 1_000_000
  const DAY := 86_400 * SECOND

  datatype Cert = Cert(
    id: nat, tenant: string, kind: string, name: string, commonName: Option<string>, san: Option<seq<string>>,
    keySize: Option<nat>, notBefore: Option<int>, notAfter: Option<int>, active: bool, enabled: bool, imported: bool)

  const CA := "ca"
  const SERVER := "server"

  /** What can go wrong outside the table. */
  datatype Trouble = Nothing | SigningFails | DatabaseFails | PublishFails

  datatype Error = NotFound | NoAuthority | IsActive | Invalid | SigningFailed | Duplicate | DatabaseFailed | PublishFailed

  /** After one of these errors the database refuses everything until the transaction is rolled back. */
  predicate Poisons(e: Error) {
    e == Duplicate || e == DatabaseFailed
  }

  // ---------------------------------------------------------------------------
  // Statements on the table
  // ---------------------------------------------------------------------------

  predicate Clashes(r: Cert, c: Cert) {
    r.id == c.id || (r.name == c.name && r.tenant == c.tenant)
  }

  /** The primary key on the id and the unique constraint on (name, tenant). */
  function Inserted(rows: seq<Cert>, c: Cert): Result<seq<Cert>, Error> {
    if exists i :: 0 <= i < |rows| && Clashes(rows[i], c) then Err(Duplicate)
    else Ok(rows + [c.(active := false, enabled := true)])
  }

  predicate InGroup(r: Cert, tenant: string, kind: string) {
    r.tenant == tenant && r.kind == kind
  }

  predicate Is(r: Cert, tenant: string, id: nat) {
    r.tenant == tenant && r.id == id
  }

  function Deactivated(rows: seq<Cert>, tenant: string, kind: string): (r: seq<Cert>)
    ensures |r| == |rows|
  {
    seq(|rows|, i requires 0 <= i < |rows| =>
      if InGroup(rows[i], tenant, kind) then rows[i].(active := false) else rows[i])
  }

  function Activated(rows: seq<Cert>, tenant: string, id: nat): (r: seq<Cert>)
    ensures |r| == |rows|
  {
    seq(|rows|, i requires 0 <= i < |rows| => if Is(rows[i], tenant, id) then rows[i].(active := true) else rows[i])
  }

  function Without(rows: seq<Cert>, tenant: string, id: nat): seq<Cert> {
    if rows == [] then []
    else if Is(rows[0], tenant, id) then Without(rows[1..], tenant, id)
    else [rows[0]] + Without(rows[1..], tenant, id)
  }

  function Lookup(rows: seq<Cert>, tenant: string, id: nat): (c: Option<Cert>)
    ensures c.None? <==> forall i :: 0 <= i < |rows| ==> !Is(rows[i], tenant, id)
    ensures c.Some? ==> c.value in rows && Is(c.value, tenant, id)
  {
    if rows == [] then None
    else if Is(rows[0], tenant, id) then Some(rows[0])
    else
      assert forall i :: 1 <= i < |rows| ==> rows[i] == rows[1..][i - 1];
      Lookup(rows[1..], tenant, id)
  }

  predicate IsActiveIn(r: Cert, tenant: string, kind: string) {
    InGroup(r, tenant, kind) && r.active
  }

  predicate HasActive(rows: seq<Cert>, tenant: string, kind: string) {
    exists i :: 0 <= i < |rows| && IsActiveIn(rows[i], tenant, kind)
  }

  predicate IsRenewable(r: Cert, tenant: string, now: int, thresholdDays: int) {
    && r.kind == SERVER && r.active && r.enabled && !r.imported && r.tenant == tenant
    && r.notAfter.Some? && r.notAfter.value < now + thresholdDays * DAY
  }

  function Renewable(rows: seq<Cert>, tenant: string, now: int, thresholdDays: int): seq<Cert> {
    if rows == [] then []
    else if IsRenewable(rows[0], tenant, now, thresholdDays)
    then [rows[0]] + Renewable(rows[1..], tenant, now, thresholdDays)
    else Renewable(rows[1..], tenant, now, thresholdDays)
  }

  // ---------------------------------------------------------------------------
  // Use cases
  // ---------------------------------------------------------------------------

  datatype ServerRequest = ServerRequest(
    name: string, commonName: string, sanDns: seq<string>, sanIps: seq<string>, days: int, keySize: nat)

  predicate Acceptable(q: ServerRequest) {
    1 <= |q.name| <= 255 && 1 <= |q.commonName| <= 255 && 1 <= q.days <= 3650 && 2048 <= q.keySize <= 8192
  }

  /** A certificate stores its times in whole seconds. */
  function Whole(at: int): int {
    at - at % SECOND
  }

  function Signed(q: ServerRequest, tenant: string, id: nat, at: int): Cert {
    var san := q.sanDns + q.sanIps;
    Cert(id, tenant, SERVER, q.name, Some(q.commonName), if san == [] then None else Some(san), Some(q.keySize),
         Some(Whole(at)), Some(Whole(at + q.days * DAY)), false, true, false)
  }

  function Issue(rows: seq<Cert>, tenant: string, q: ServerRequest, id: nat, at: int, trouble: Trouble): Result<seq<Cert>, Error> {
    if !HasActive(rows, tenant, CA) then Err(NoAuthority)
    else if trouble == SigningFails then Err(SigningFailed)
    else match Inserted(rows, Signed(q, tenant, id, at))
      case Err(e) => Err(e)
      case Ok(rows1) => if trouble == DatabaseFails then Err(DatabaseFailed) else Ok(rows1)
  }

  function Activation(rows: seq<Cert>, tenant: string, id: nat): Result<seq<Cert>, Error> {
    match Lookup(rows, tenant, id)
    case None => Err(NotFound)
    case Some(c) => Ok(Activated(Deactivated(rows, tenant, c.kind), tenant, id))
  }

  function Deletion(rows: seq<Cert>, tenant: string, id: nat): Result<seq<Cert>, Error> {
    match Lookup(rows, tenant, id)
    case None => Err(NotFound)
    case Some(c) => if c.active then Err(IsActive) else Ok(Without(rows, tenant, id))
  }

  // ---------------------------------------------------------------------------
  // Renewal
  // ---------------------------------------------------------------------------

  function DnsNames(isIp: string -> bool, san: seq<string>): seq<string> {
    if san == [] then []
    else if isIp(san[|san| - 1]) then DnsNames(isIp, san[..|san| - 1])
    else DnsNames(isIp, san[..|san| - 1]) + [san[|san| - 1]]
  }

  function IpNames(isIp: string -> bool, san: seq<string>): seq<string> {
    if san == [] then []
    else if isIp(san[|san| - 1]) then IpNames(isIp, san[..|san| - 1]) + [san[|san| - 1]]
    else IpNames(isIp, san[..|san| - 1])
  }

  function SanOf(c: Cert): seq<string> {
    if c.san.Some? then c.san.value else []
  }

  /** `date` is the day of the pass as eight digits. */
  function Suffix(date: string): string {
    "-renewed-" + date
  }

  function RenewalName(name: string, date: string): string
    requires |date| == 8
  {
    name[..if |name| < 255 - |Suffix(date)| then |name| else 255 - |Suffix(date)|] + Suffix(date)
  }

  function Validity(c: Cert): int {
    if c.notBefore.Some? && c.notAfter.Some? then
      var days := (c.notAfter.value - c.notBefore.value) / DAY;
      if days < 1 then 1 else days
    else 730
  }

  function SubjectOf(c: Cert): string {
    if c.commonName.Some? && c.commonName.value != "" then c.commonName.value else c.name
  }

  function KeySizeOf(c: Cert): nat {
    if c.keySize.Some? && c.keySize.value != 0 then c.keySize.value else 2048
  }

  function RenewalRequest(isIp: string -> bool, expiring: Cert, date: string): ServerRequest
    requires |date| == 8
  {
    ServerRequest(RenewalName(expiring.name, date), SubjectOf(expiring), DnsNames(isIp, SanOf(expiring)), IpNames(isIp, SanOf(expiring)),
                  Validity(expiring), KeySizeOf(expiring))
  }

  datatype Attempt = Attempt(id: nat, at: int, trouble: Trouble)

  /** `Failed` still leaves rows: a failed publish comes after the activation. */
  datatype Renewal = Renewed(rows: seq<Cert>, name: string) | Failed(rows: seq<Cert>, error: Error)

  function RenewOne(isIp: string -> bool, rows: seq<Cert>, tenant: string, expiring: Cert, date: string, a: Attempt): Renewal
    requires |date| == 8
  {
    var q := RenewalRequest(isIp, expiring, date);
    if !Acceptable(q) then Failed(rows, Invalid) else
    match Issue(rows, tenant, q, a.id, a.at, a.trouble)
    case Err(e) => Failed(rows, e)
    case Ok(rows1) =>
      match Activation(rows1, tenant, a.id)
      case Err(e) => Failed(rows1, e)
      case Ok(rows2) => if a.trouble == PublishFails then Failed(rows2, PublishFailed) else Renewed(rows2, q.name)
  }

  datatype Clock = Clock(now: int, date: string)

  /** A pass in progress; once poisoned, it can only collect errors. */
  datatype Progress = Progress(rows: seq<Cert>, poisoned: bool, renewed: seq<string>, errors: nat)

  function Next(isIp: string -> bool, p: Progress, tenant: string, expiring: Cert, date: string, a: Attempt): Progress
    requires |date| == 8
  {
    if p.poisoned then p.(errors := p.errors + 1) else
    match RenewOne(isIp, p.rows, tenant, expiring, date, a)
    case Renewed(rows, name) => p.(rows := rows, renewed := p.renewed + [name])
    case Failed(rows, e) => p.(rows := rows, poisoned := Poisons(e), errors := p.errors + 1)
  }

  function RenewFirst(isIp: string -> bool, rows: seq<Cert>, tenant: string, olds: seq<Cert>, date: string,
                      plan: nat -> Attempt, n: nat): Progress
    requires n <= |olds| && |date| == 8
  {
    if n == 0 then Progress(rows, false, [], 0)
    else Next(isIp, RenewFirst(isIp, rows, tenant, olds, date, plan, n - 1), tenant, olds[n - 1], date, plan(n - 1))
  }

  datatype Summary = Summary(checked: nat, renewed: seq<string>, errors: nat)

  /** One pass in its transaction: committing a poisoned transaction rolls it back. */
  function RenewalPass(isIp: string -> bool, rows: seq<Cert>, tenant: string, thresholdDays: int, clock: Clock,
                       plan: nat -> Attempt): (seq<Cert>, Summary)
    requires |clock.date| == 8
  {
    var olds := Renewable(rows, tenant, clock.now, thresholdDays);
    var p := RenewFirst(isIp, rows, tenant, olds, clock.date, plan, |olds|);
    (if p.poisoned then rows else p.rows, Summary(|olds|, p.renewed, p.errors))
  }

  /** Split a stored list back into the two lists of a request. */
  method SplitSan(isIp: string -> bool, san: Option<seq<string>>) returns (dns: seq<string>, ips: seq<string>)
    ensures var all := if san.Some? then san.value else [];
            dns == DnsNames(isIp, all) && ips == IpNames(isIp, all)
  {
    dns, ips := [], [];
    if san.None? || san.value == [] {
      return;
    }
    for i := 0 to |san.value|
      invariant dns == DnsNames(isIp, san.value[..i]) && ips == IpNames(isIp, san.value[..i])
    {
      assert san.value[..i + 1][..i] == san.value[..i];
      if isIp(san.value[i]) {
        ips := ips + [san.value[i]];
      } else {
        dns := dns + [san.value[i]];
      }
    }
    assert san.value[..|san.value|] == san.value;
  }

  class Registry {
    var rows: seq<Cert>

    constructor ()
      ensures rows == []
    {
      rows := [];
    }

    method InsertCert(c: Cert) returns (r: Result<(), Error>)
      modifies this
      ensures Inserted(old(rows), c) == if r.Ok? then Ok(rows) else Err(r.error)
      ensures r.Err? ==> rows == old(rows)
    {
      var clash := exists i :: 0 <= i < |rows| && Clashes(rows[i], c);
      if clash {
        return Err(Duplicate);
      }
      rows := rows + [c.(active := false, enabled := true)];
      return Ok(());
    }

    method DeactivateCertsOfType(tenant: string, kind: string)
      modifies this
      ensures rows == Deactivated(old(rows), tenant, kind)
    {
      rows := Deactivated(rows, tenant, kind);
    }

    method SetCertActive(tenant: string, id: nat)
      modifies this
      ensures rows == Activated(old(rows), tenant, id)
    {
      rows := Activated(rows, tenant, id);
    }

    method ActivateCert(tenant: string, id: nat) returns (r: Result<(), Error>)
      modifies this
      ensures Activation(old(rows), tenant, id) == if r.Ok? then Ok(rows) else Err(r.error)
      ensures r.Err? ==> rows == old(rows)
    {
      var summary := Lookup(rows, tenant, id);
      if summary.None? {
        return Err(NotFound);
      }
      DeactivateCertsOfType(tenant, summary.value.kind);
      SetCertActive(tenant, id);
      return Ok(());
    }

    method DeleteCert(tenant: string, id: nat) returns (r: Result<(), Error>)
      modifies this
      ensures Deletion(old(rows), tenant, id) == if r.Ok? then Ok(rows) else Err(r.error)
      ensures r.Err? ==> rows == old(rows)
    {
      var summary := Lookup(rows, tenant, id);
      if summary.None? {
        return Err(NotFound);
      }
      if summary.value.active {
        return Err(IsActive);
      }
      rows := Without(rows, tenant, id);
      return Ok(());
    }

    method GenerateServer(tenant: string, q: ServerRequest, id: nat, at: int, trouble: Trouble) returns (r: Result<(), Error>)
      modifies this
      ensures Issue(old(rows), tenant, q, id, at, trouble) == if r.Ok? then Ok(rows) else Err(r.error)
      ensures r.Err? && !Poisons(r.error) ==> rows == old(rows)
    {
      var authority := HasActive(rows, tenant, CA);
      if !authority {
        return Err(NoAuthority);
      }
      if trouble == SigningFails {
        return Err(SigningFailed);
      }
      var inserted := InsertCert(Signed(q, tenant, id, at));
      if inserted.Err? {
        return inserted;
      }
      return if trouble == DatabaseFails then Err(DatabaseFailed) else Ok(());
    }

    /** The renewal of one row; after a poisoning error the rows no longer matter. */
    method Renew(isIp: string -> bool, tenant: string, expiring: Cert, date: string, a: Attempt) returns (r: Result<string, Error>)
      requires |date| == 8
      modifies this
      ensures var step := RenewOne(isIp, old(rows), tenant, expiring, date, a);
              && (r.Ok? ==> step == Renewed(rows, r.value))
              && (r.Err? ==> step.Failed? && step.error == r.error && (!Poisons(r.error) ==> rows == step.rows))
    {
      var dns, ips := SplitSan(isIp, expiring.san);
      var q := ServerRequest(RenewalName(expiring.name, date), SubjectOf(expiring), dns, ips, Validity(expiring), KeySizeOf(expiring));
      if !Acceptable(q) {
        return Err(Invalid);
      }
      var issued := GenerateServer(tenant, q, a.id, a.at, a.trouble);
      if issued.Err? {
        return Err(issued.error);
      }
      var activated := ActivateCert(tenant, a.id);
      if activated.Err? {
        return Err(activated.error);
      }
      return if a.trouble == PublishFails then Err(PublishFailed) else Ok(q.name);
    }

    method RenewExpiring(isIp: string -> bool, tenant: string, thresholdDays: int, clock: Clock, plan: nat -> Attempt)
      returns (summary: Summary)
      requires |clock.date| == 8
      modifies this
      ensures (rows, summary) == RenewalPass(isIp, old(rows), tenant, thresholdDays, clock, plan)
    {
      var olds := Renewable(rows, tenant, clock.now, thresholdDays);
      var before, poisoned := rows, false;
      var renewed: seq<string>, errors := [], 0;
      for i := 0 to |olds|
        invariant before == old(rows)
        invariant Stands(RenewFirst(isIp, before, tenant, olds, clock.date, plan, i), poisoned, renewed, errors)
      {
        ghost var p := RenewFirst(isIp, before, tenant, olds, clock.date, plan, i);
        poisoned, renewed, errors := RenewNext(isIp, tenant, olds[i], clock.date, plan(i), poisoned, renewed, errors, p);
      }
      if poisoned {
        rows := before;
      }
      return Summary(|olds|, renewed, errors);
    }

    ghost predicate Stands(p: Progress, poisoned: bool, renewed: seq<string>, errors: nat)
      reads this
    {
      p.poisoned == poisoned && p.renewed == renewed && p.errors == errors && (!poisoned ==> p.rows == rows)
    }

    method RenewNext(isIp: string -> bool, tenant: string, expiring: Cert, date: string, a: Attempt,
                     poisoned: bool, renewed: seq<string>, errors: nat, ghost p: Progress)
      returns (poisoned': bool, renewed': seq<string>, errors': nat)
      requires |date| == 8 && Stands(p, poisoned, renewed, errors)
      modifies this
      ensures Stands(Next(isIp, p, tenant, expiring, date, a), poisoned', renewed', errors')
    {
      poisoned', renewed', errors' := poisoned, renewed, errors;
      if poisoned {
        errors' := errors + 1;
      } else {
        var r := Renew(isIp, tenant, expiring, date, a);
        match r {
          case Ok(name) =>
            renewed' := renewed + [name];
          case Err(e) =>
            poisoned', errors' := Poisons(e), errors + 1;
        }
      }
    }
  }
}
