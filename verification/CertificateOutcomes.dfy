/**
 What each operation on the certificates table answers and leaves there, row by row and in the
 columns themselves.
 */
module CertificateOutcomes {
  import opened Wrappers
  import opened Certificates
  import opened CertificateLaws

  const DAY_IN_MICROSECONDS := 86_400_000_000

  predicate Keyed(r: Cert, tenant: string, id: nat) {
    r.tenant == tenant && r.id == id
  }

  // ---------------------------------------------------------------------------
  // Insertion
  // ---------------------------------------------------------------------------

  predicate SharesKey(r: Cert, id: nat, tenant: string, name: string) {
    r.id == id || (r.tenant == tenant && r.name == name)
  }

  /** A row goes in, last, inactive and enabled, unless its id or its name within the tenant is taken. */
  lemma InsertsExactly(rows: seq<Cert>, c: Cert)
    ensures if forall r :: r in rows ==> !SharesKey(r, c.id, c.tenant, c.name)
            then Inserted(rows, c) == Ok(rows + [c.(active := false, enabled := true)])
            else Inserted(rows, c) == Err(Duplicate)
  {
    if i :| 0 <= i < |rows| && Clashes(rows[i], c) {
      assert SharesKey(rows[i], c.id, c.tenant, c.name) && rows[i] in rows;
    } else {
      forall r | r in rows ensures !SharesKey(r, c.id, c.tenant, c.name) {
        var i :| 0 <= i < |rows| && rows[i] == r;
        assert !Clashes(rows[i], c);
      }
    }
  }

  predicate IsActiveCa(r: Cert, tenant: string) {
    r.tenant == tenant && r.kind == "ca" && r.active
  }

  lemma HasActiveCa(rows: seq<Cert>, tenant: string)
    ensures HasActive(rows, tenant, CA) <==> exists r :: r in rows && IsActiveCa(r, tenant)
  {
    if r :| r in rows && IsActiveCa(r, tenant) {
      var i :| 0 <= i < |rows| && rows[i] == r;
      assert IsActiveIn(rows[i], tenant, CA);
    }
    if i :| 0 <= i < |rows| && IsActiveIn(rows[i], tenant, CA) {
      assert rows[i] in rows && IsActiveCa(rows[i], tenant);
    }
  }

  /** The row of an issued server certificate: what was asked for, from the whole second of signing, for so many days. */
  predicate Describes(r: Cert, q: ServerRequest, tenant: string, id: nat, at: int) {
    && r.id == id && r.tenant == tenant && r.kind == "server" && r.name == q.name
    && r.commonName == Some(q.commonName) && r.keySize == Some(q.keySize)
    && (if q.sanDns == [] && q.sanIps == [] then r.san == None else r.san == Some(q.sanDns + q.sanIps))
    && r.notBefore.Some? && at - 1_000_000 < r.notBefore.value <= at && r.notBefore.value % 1_000_000 == 0
    && r.notAfter == Some(r.notBefore.value + q.days * DAY_IN_MICROSECONDS)
    && !r.active && r.enabled && !r.imported
  }

  /** Issuing needs an active authority of the tenant, a signature, a working database and keys not yet taken. */
  lemma IssuesExactly(rows: seq<Cert>, tenant: string, q: ServerRequest, id: nat, at: int, trouble: Trouble)
    ensures var issued := Issue(rows, tenant, q, id, at, trouble);
            && (issued.Ok? <==>
                  && (exists r :: r in rows && IsActiveCa(r, tenant)) && trouble != SigningFails && trouble != DatabaseFails
                  && forall r :: r in rows ==> !SharesKey(r, id, tenant, q.name))
            && (issued.Ok? ==>
                  |issued.value| == |rows| + 1 && issued.value[..|rows|] == rows && Describes(issued.value[|rows|], q, tenant, id, at))
  {
    HasActiveCa(rows, tenant);
    InsertsExactly(rows, Signed(q, tenant, id, at));
    WholeDays(at, q.days);
  }

  // ---------------------------------------------------------------------------
  // Deletion
  // ---------------------------------------------------------------------------

  lemma LookupFindsOnly(rows: seq<Cert>, tenant: string, id: nat, k: nat)
    requires Sound(rows) && k < |rows| && Keyed(rows[k], tenant, id)
    ensures Lookup(rows, tenant, id) == Some(rows[k])
  {
    assert Is(rows[k], tenant, id);
    var c := Lookup(rows, tenant, id).value;
    var at :| 0 <= at < |rows| && rows[at] == c;
    assert Clashes(rows[at], rows[k]) && Clashes(rows[k], rows[at]);
  }

  /** An inactive row is taken out of the table, and nothing else is touched. */
  lemma DeletionRemoves(rows: seq<Cert>, tenant: string, id: nat, k: nat)
    requires Sound(rows) && k < |rows| && Keyed(rows[k], tenant, id)
    ensures Deletion(rows, tenant, id) == if rows[k].active then Err(IsActive) else Ok(rows[..k] + rows[k + 1..])
  {
    LookupFindsOnly(rows, tenant, id, k);
    WithoutOne(rows, tenant, id, k);
  }

  predicate Deletable(r: Cert, tenant: string, id: nat) {
    Keyed(r, tenant, id) && !r.active
  }

  /** A deletion succeeds exactly when the tenant has that id and it is not active; then the id is gone and the table one shorter. */
  lemma DeletesExactly(rows: seq<Cert>, tenant: string, id: nat)
    requires Sound(rows)
    ensures Deletion(rows, tenant, id).Ok? <==> exists r :: r in rows && Deletable(r, tenant, id)
    ensures Deletion(rows, tenant, id) == Err(NotFound) <==> forall r :: r in rows ==> !Keyed(r, tenant, id)
    ensures Deletion(rows, tenant, id).Ok? ==>
              var after := Deletion(rows, tenant, id).value;
              && |after| == |rows| - 1
              && (forall r :: r in after ==> !Keyed(r, tenant, id))
              && forall r :: r in rows && !Keyed(r, tenant, id) ==> r in after
  {
    if k :| 0 <= k < |rows| && Keyed(rows[k], tenant, id) {
      assert rows[k] in rows;
      DeletionRemoves(rows, tenant, id, k);
      forall i | 0 <= i < |rows| && i != k ensures !Keyed(rows[i], tenant, id) {
        assert i < k ==> !Clashes(rows[i], rows[k]);
        assert k < i ==> !Clashes(rows[k], rows[i]);
      }
    } else {
      NothingToDelete(rows, tenant, id);
    }
  }

  lemma NothingToDelete(rows: seq<Cert>, tenant: string, id: nat)
    requires forall i :: 0 <= i < |rows| ==> !Keyed(rows[i], tenant, id)
    ensures Deletion(rows, tenant, id) == Err(NotFound)
  {
    forall i | 0 <= i < |rows| ensures !Is(rows[i], tenant, id) {
      assert !Keyed(rows[i], tenant, id);
    }
  }

  /** A name is taken until its row is deleted, and free for a new certificate from then on. */
  lemma DeletionFreesName(rows: seq<Cert>, k: nat, c: Cert)
    requires Sound(rows) && k < |rows| && !rows[k].active
    requires c.tenant == rows[k].tenant && c.name == rows[k].name && forall r :: r in rows ==> r.id != c.id
    ensures Inserted(rows, c) == Err(Duplicate)
    ensures var after := Deletion(rows, rows[k].tenant, rows[k].id);
            after.Ok? && Inserted(after.value, c) == Ok(rows[..k] + rows[k + 1..] + [c.(active := false, enabled := true)])
  {
    assert Clashes(rows[k], c);
    DeletionRemoves(rows, rows[k].tenant, rows[k].id, k);
    var after := rows[..k] + rows[k + 1..];
    forall r | r in after ensures !SharesKey(r, c.id, c.tenant, c.name) {
      var i :| 0 <= i < |rows| && i != k && rows[i] == r;
      assert i < k ==> !Clashes(rows[i], rows[k]);
      assert k < i ==> !Clashes(rows[k], rows[i]);
    }
    InsertsExactly(after, c);
  }

  // ---------------------------------------------------------------------------
  // Renewal
  // ---------------------------------------------------------------------------

  /** Which rows a pass takes up: own, active, enabled server certificates that end within the days. */
  lemma CandidatesExactly(rows: seq<Cert>, tenant: string, now: int, days: int, r: Cert)
    ensures r in Renewable(rows, tenant, now, days) <==>
            && r in rows && r.tenant == tenant && r.kind == "server" && r.active && r.enabled && !r.imported
            && r.notAfter.Some? && r.notAfter.value < now + days * DAY_IN_MICROSECONDS
  {
    RenewableRows(rows, tenant, now, days, r);
  }

  /** As much of the old name as leaves the column room for the suffix. */
  lemma RenewalNameExactly(name: string, date: string)
    requires |date| == 8
    ensures RenewalName(name, date) == (if |name| <= 238 then name else name[..238]) + "-renewed-" + date
  {
    assert |"-renewed-"| == 9;
    assert name[..|name|] == name;
  }

  /** The whole days between the two dates, at least one; two years without dates. */
  lemma ValidityExactly(c: Cert)
    ensures c.notBefore.None? || c.notAfter.None? ==> Validity(c) == 730
    ensures c.notBefore.Some? && c.notAfter.Some? ==>
              var span, days := c.notAfter.value - c.notBefore.value, Validity(c);
              && days >= 1 && span < (days + 1) * DAY_IN_MICROSECONDS
              && (days > 1 ==> days * DAY_IN_MICROSECONDS <= span)
  {
  }

  /** The request of a renewal, from the columns of the old row. */
  lemma RequestExactly(isIp: string -> bool, c: Cert, date: string)
    requires |date| == 8
    ensures var q := RenewalRequest(isIp, c, date);
            && q.name == RenewalName(c.name, date) && q.days == Validity(c)
            && q.commonName == (if c.commonName.None? || c.commonName == Some("") then c.name else c.commonName.value)
            && q.keySize == (if c.keySize.None? || c.keySize == Some(0) then 2048 else c.keySize.value)
            && (c.san.None? ==> q.sanDns == [] && q.sanIps == [])
            && (c.san.Some? ==> q.sanDns == DnsNames(isIp, c.san.value) && q.sanIps == IpNames(isIp, c.san.value))
  {
  }

  /** Splitting keeps the order: each list takes the entries of its kind as they come. */
  lemma {:induction false} SplitInOrder(isIp: string -> bool, a: seq<string>, b: seq<string>)
    ensures DnsNames(isIp, a + b) == DnsNames(isIp, a) + DnsNames(isIp, b)
    ensures IpNames(isIp, a + b) == IpNames(isIp, a) + IpNames(isIp, b)
    decreases |b|
  {
    if b == [] {
      assert a + b == a;
    } else {
      var n := |b| - 1;
      assert (a + b)[..|a + b| - 1] == a + b[..n] && (a + b)[|a + b| - 1] == b[n];
      SplitInOrder(isIp, a, b[..n]);
    }
  }

  lemma SplitOfOne(isIp: string -> bool, x: string)
    ensures DnsNames(isIp, [x]) == (if isIp(x) then [] else [x]) && IpNames(isIp, [x]) == (if isIp(x) then [x] else [])
  {
    assert [x][..0] == [];
  }

  /** What a pass over a sound table reports: how many rows it took up, and the new name of the one it renewed. */
  lemma PassReports(isIp: string -> bool, rows: seq<Cert>, tenant: string, days: int, clock: Clock, plan: nat -> Attempt)
    requires Sound(rows) && |clock.date| == 8
    ensures var olds := Renewable(rows, tenant, clock.now, days);
            var summary := RenewalPass(isIp, rows, tenant, days, clock, plan).1;
            && summary.checked == |olds| && (olds == [] ==> summary.renewed == [] && summary.errors == 0)
            && (olds != [] ==>
                  if RenewOne(isIp, rows, tenant, olds[0], clock.date, plan(0)).Renewed?
                  then summary.renewed == [RenewalName(olds[0].name, clock.date)] && summary.errors == 0
                  else summary.renewed == [] && summary.errors == 1)
  {
    OneCandidate(rows, tenant, clock.now, days);
    if |Renewable(rows, tenant, clock.now, days)| == 1 {
      PassOfOne(isIp, rows, tenant, days, clock, plan);
    }
  }
}
