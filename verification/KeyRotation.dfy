/**
 Rotation of the master secret: every listed column is read, decrypted with the old key and
 written back under the new one, in one transaction per column.
 */
module KeyRotation {
  import opened Wrappers
  import opened Vault
  import opened SecretTable

  /** The two vaults of a rotation. */
  datatype Keys = Keys(before: Cipher, after: Cipher)

  /** What happens to one row. `Undecryptable` and `EncryptFailed` are caught exceptions. */
  datatype Fate = Blank | Undecryptable | EncryptFailed | Rotated(text: string)

  /** The nonce drawn for a row; None when drawing one raises. */
  type Nonces = (nat, nat) -> Option<Nonce>

  function FateOf(k: Keys, nonce: Option<Nonce>, row: Row): Fate {
    if Empty(row) then Blank
    else match k.before.decrypt(row.val.value)
      case Err(_) => Undecryptable
      case Ok(plaintext) =>
        if nonce.None? then EncryptFailed
        else match k.after.encrypt(nonce.value, plaintext)
          case Err(_) => EncryptFailed
          case Ok(text) => Rotated(text)
  }

  function Fates(k: Keys, column: nat, nonces: Nonces, rows: seq<Row>): (fates: seq<Fate>)
    ensures |fates| == |rows|
    ensures forall i :: 0 <= i < |rows| ==> fates[i] == FateOf(k, nonces(column, i), rows[i])
  {
    seq(|rows|, i requires 0 <= i < |rows| => FateOf(k, nonces(column, i), rows[i]))
  }

  function Rewritten(row: Row, fate: Fate): Row {
    if fate.Rotated? then row.(val := Some(fate.text)) else row
  }

  function RotatedColumn(rows: seq<Row>, fates: seq<Fate>): (rotated: seq<Row>)
    requires |fates| == |rows|
    ensures |rotated| == |rows|
    ensures forall i :: 0 <= i < |rows| ==> rotated[i] == Rewritten(rows[i], fates[i])
  {
    seq(|rows|, i requires 0 <= i < |rows| => Rewritten(rows[i], fates[i]))
  }

  /** How the run reports a fate: one of the three tallies. */
  datatype Report = Report(rotated: nat, skipped: nat, failures: seq<nat>)

  function Reported(r: Report, fate: Fate, id: nat, skipUndecryptable: bool): Report {
    match fate
    case Blank => r.(skipped := r.skipped + 1)
    case Undecryptable =>
      if skipUndecryptable then r.(skipped := r.skipped + 1) else r.(failures := r.failures + [id])
    case EncryptFailed => r.(failures := r.failures + [id])
    case Rotated(_) => r.(rotated := r.rotated + 1)
  }

  /** The report after the first `n` rows. */
  function ReportUpTo(rows: seq<Row>, fates: seq<Fate>, skipUndecryptable: bool, n: nat): Report
    requires |fates| == |rows| && n <= |rows|
  {
    if n == 0 then Report(0, 0, []) else
    Reported(ReportUpTo(rows, fates, skipUndecryptable, n - 1), fates[n - 1], rows[n - 1].id, skipUndecryptable)
  }

  function ReportOn(rows: seq<Row>, fates: seq<Fate>, skipUndecryptable: bool): Report
    requires |fates| == |rows|
  {
    ReportUpTo(rows, fates, skipUndecryptable, |rows|)
  }

  /** One row's value, decrypted and encrypted again; the catch clauses become fates. */
  method Reencrypt(k: Keys, nonce: Option<Nonce>, row: Row) returns (fate: Fate)
    ensures fate == FateOf(k, nonce, row)
  {
    if row.val.None? || row.val.value == "" {
      return Blank;
    }
    var plaintext := k.before.decrypt(row.val.value);
    if plaintext.Err? {
      return Undecryptable;
    }
    if nonce.None? {
      return EncryptFailed;
    }
    var text := k.after.encrypt(nonce.value, plaintext.value);
    if text.Err? {
      return EncryptFailed;
    }
    return Rotated(text.value);
  }

  method RotateTable(table: Column, k: Keys, column: nat, nonces: Nonces, dryRun: bool, skipUndecryptable: bool)
    returns (rotated: nat, skipped: nat, failures: seq<nat>)
    requires DistinctIds(table.rows)
    modifies table
    ensures var fates := Fates(k, column, nonces, old(table.rows));
      && (table.rows == if dryRun then old(table.rows) else RotatedColumn(old(table.rows), fates))
      && Report(rotated, skipped, failures) == ReportOn(old(table.rows), fates, skipUndecryptable)
    ensures rotated + skipped + |failures| == |old(table.rows)|
  {
    rotated, skipped, failures := 0, 0, [];
    var rows := table.rows;
    ghost var fates := Fates(k, column, nonces, rows);
    for i := 0 to |rows|
      invariant |table.rows| == |rows|
      invariant forall j :: 0 <= j < |rows| ==>
        table.rows[j] == if j < i && !dryRun then Rewritten(rows[j], fates[j]) else rows[j]
      invariant Report(rotated, skipped, failures) == ReportUpTo(rows, fates, skipUndecryptable, i)
      invariant rotated + skipped + |failures| == i
    {
      var row := rows[i];
      var fate := Reencrypt(k, nonces(column, i), row);
      assert fate == fates[i];
      match fate {
        case Blank =>
          skipped := skipped + 1;
        case Undecryptable =>
          if skipUndecryptable {
            skipped := skipped + 1;
          } else {
            failures := failures + [row.id];
          }
        case EncryptFailed =>
          failures := failures + [row.id];
        case Rotated(text) =>
          if !dryRun {
            table.Update(row.id, text);
          }
          rotated := rotated + 1;
      }
    }
  }

  // ---------------------------------------------------------------------------
  // A pass over the listed columns, and sequences of passes
  // ---------------------------------------------------------------------------

  /** `committed` columns are finished before the process dies, if it does. */
  datatype Pass = Pass(dryRun: bool, skipUndecryptable: bool, nonces: Nonces, committed: nat)

  type Columns = seq<seq<Row>>

  predicate WellKeyed(columns: Columns) {
    forall c :: 0 <= c < |columns| ==> DistinctIds(columns[c])
  }

  function PassFates(k: Keys, pass: Pass, columns: Columns, c: nat): (fates: seq<Fate>)
    requires c < |columns|
    ensures |fates| == |columns[c]|
  {
    Fates(k, c, pass.nonces, columns[c])
  }

  /** The failures a pass would report for one column. */
  function FailuresIn(k: Keys, pass: Pass, columns: Columns, c: nat): seq<nat>
    requires c < |columns|
  {
    ReportOn(columns[c], PassFates(k, pass, columns, c), pass.skipUndecryptable).failures
  }

  function AfterPass(k: Keys, pass: Pass, columns: Columns): (result: Columns)
    ensures |result| == |columns|
    ensures forall c :: 0 <= c < |columns| ==> |result[c]| == |columns[c]|
  {
    seq(|columns|, c requires 0 <= c < |columns| =>
      if c < pass.committed && !pass.dryRun
      then RotatedColumn(columns[c], PassFates(k, pass, columns, c)) else columns[c])
  }

  function AfterPasses(k: Keys, passes: seq<Pass>, columns: Columns): (result: Columns)
    ensures |result| == |columns|
    ensures forall c :: 0 <= c < |columns| ==> |result[c]| == |columns[c]|
    decreases |passes|
  {
    if passes == [] then columns else AfterPasses(k, passes[1..], AfterPass(k, passes[0], columns))
  }

  class Database {
    var columns: Columns

    constructor (columns: Columns)
      ensures this.columns == columns
    {
      this.columns := columns;
    }

    /** The exit status: 2 if any row failed, 0 otherwise; None when an exception ends the run. */
    method Rotate(k: Keys, pass: Pass) returns (status: Option<int>)
      requires WellKeyed(columns)
      modifies this
      ensures columns == AfterPass(k, pass, old(columns))
      ensures status.None? <==> pass.committed < |columns|
      ensures status.Some? ==> status.value in {0, 2}
      ensures status == Some(0) <==> pass.committed >= |columns| && forall c :: 0 <= c < |old(columns)| ==>
        FailuresIn(k, pass, old(columns), c) == []
    {
      var start := columns;
      var failed := 0;
      for c := 0 to |start|
        invariant c <= pass.committed && |columns| == |start|
        invariant forall d :: 0 <= d < |start| ==>
          columns[d] ==
          if d < c && !pass.dryRun then RotatedColumn(start[d], PassFates(k, pass, start, d)) else start[d]
        invariant failed == 0 <==> forall d :: 0 <= d < c ==> FailuresIn(k, pass, start, d) == []
        invariant failed >= 0
      {
        var transaction := new Column(columns[c]);
        var rotated, skipped, failures :=
          RotateTable(transaction, k, c, pass.nonces, pass.dryRun, pass.skipUndecryptable);
        assert FailuresIn(k, pass, start, c) == failures;
        if c >= pass.committed {
          // The exception leaves the transaction block, which rolls the column back.
          return None;
        }
        columns := columns[c := transaction.rows];
        failed := failed + |failures|;
      }
      return Some(if failed == 0 then 0 else 2);
    }
  }

  // ---------------------------------------------------------------------------
  // Nothing is lost
  // ---------------------------------------------------------------------------

  predicate OnOldKey(k: Keys, row: Row) {
    !Empty(row) && k.before.decrypt(row.val.value).Ok?
  }

  predicate OnNewKey(k: Keys, row: Row) {
    !Empty(row) && !OnOldKey(k, row) && k.after.decrypt(row.val.value).Ok?
  }

  /** The old vault refuses the text that is written into a row. */
  predicate OldRefuses(k: Keys, nonce: Option<Nonce>, row: Row) {
    var fate := FateOf(k, nonce, row);
    fate.Rotated? ==> k.before.decrypt(fate.text).Err?
  }

  /** The new vault reads what it writes, and the old vault refuses the texts of this pass. */
  ghost predicate Trusted(k: Keys, pass: Pass, columns: Columns) {
    RoundTrips(k.after) && forall c, i :: 0 <= c < |columns| && 0 <= i < |columns[c]| ==>
      OldRefuses(k, pass.nonces(c, i), columns[c][i])
  }

  ghost predicate TrustedAll(k: Keys, passes: seq<Pass>, columns: Columns)
    decreases |passes|
  {
    passes == [] || (Trusted(k, passes[0], columns) && TrustedAll(k, passes[1..], AfterPass(k, passes[0], columns)))
  }

  /** Vaults over a sound cipher and two keys that it separates are trusted in any passes over any columns. */
  lemma {:induction false} VaultsAreTrusted(p: Primitives, before: Key, after: Key, passes: seq<Pass>, columns: Columns)
    requires Sound(p) && Separates(p, before, after)
    ensures TrustedAll(Keys(CipherOf(p, before), CipherOf(p, after)), passes, columns)
    decreases |passes|
  {
    var k := Keys(CipherOf(p, before), CipherOf(p, after));
    CiphersObeyLaws(p, before, after);
    if passes != [] {
      forall c, i | 0 <= c < |columns| && 0 <= i < |columns[c]| ensures OldRefuses(k, passes[0].nonces(c, i), columns[c][i]) {
        RefusesWhatIsWritten(k, passes[0].nonces(c, i), columns[c][i]);
      }
      VaultsAreTrusted(p, before, after, passes[1..], AfterPass(k, passes[0], columns));
    }
  }

  lemma RefusesWhatIsWritten(k: Keys, nonce: Option<Nonce>, row: Row)
    requires Rejects(k.before, k.after)
    ensures OldRefuses(k, nonce, row)
  {
    if FateOf(k, nonce, row).Rotated? {
      assert k.after.encrypt(nonce.value, k.before.decrypt(row.val.value).value).Ok?;
    }
  }

  /** The secret in a row, by whichever of the two keys opens it. */
  function Secret(k: Keys, row: Row): Option<string> {
    if OnOldKey(k, row) then Some(k.before.decrypt(row.val.value).value)
    else if OnNewKey(k, row) then Some(k.after.decrypt(row.val.value).value)
    else None
  }

  /** A row keeps its id and its secret, and changes only by moving from the old key to the new. */
  predicate Preserved(k: Keys, before: Row, after: Row) {
    && after.id == before.id
    && Secret(k, after) == Secret(k, before)
    && (after == before || (OnOldKey(k, before) && OnNewKey(k, after)))
  }

  lemma RowPreserved(k: Keys, nonce: Option<Nonce>, row: Row)
    requires RoundTrips(k.after) && OldRefuses(k, nonce, row)
    ensures Preserved(k, row, Rewritten(row, FateOf(k, nonce, row)))
  {
    if FateOf(k, nonce, row).Rotated? {
      assert k.after.encrypt(nonce.value, k.before.decrypt(row.val.value).value).Ok?;
    }
  }

  lemma PreservedTransitive(k: Keys, a: Row, b: Row, c: Row)
    requires Preserved(k, a, b) && Preserved(k, b, c)
    ensures Preserved(k, a, c)
  {
  }

  lemma PassPreserves(k: Keys, pass: Pass, columns: Columns)
    requires Trusted(k, pass, columns)
    ensures forall c, i :: 0 <= c < |columns| && 0 <= i < |columns[c]| ==>
      Preserved(k, columns[c][i], AfterPass(k, pass, columns)[c][i])
  {
    forall c, i | 0 <= c < |columns| && 0 <= i < |columns[c]|
      ensures Preserved(k, columns[c][i], AfterPass(k, pass, columns)[c][i])
    {
      RowPreserved(k, pass.nonces(c, i), columns[c][i]);
    }
  }

  /**
   Over any sequence of passes, complete, interrupted or dry, with either treatment of
   undecryptable rows: every row of every listed column keeps its secret.
   */
  lemma {:induction false} RotationLosesNothing(k: Keys, passes: seq<Pass>, columns: Columns)
    requires TrustedAll(k, passes, columns)
    ensures forall c, i :: 0 <= c < |columns| && 0 <= i < |columns[c]| ==>
      Preserved(k, columns[c][i], AfterPasses(k, passes, columns)[c][i])
    decreases |passes|
  {
    if passes != [] {
      var next := AfterPass(k, passes[0], columns);
      PassPreserves(k, passes[0], columns);
      RotationLosesNothing(k, passes[1..], next);
      forall c, i | 0 <= c < |columns| && 0 <= i < |columns[c]|
        ensures Preserved(k, columns[c][i], AfterPasses(k, passes, columns)[c][i])
      {
        PreservedTransitive(k, columns[c][i], next[c][i], AfterPasses(k, passes, columns)[c][i]);
      }
    }
  }

  function OldRows(k: Keys, rows: seq<Row>): nat {
    if rows == [] then 0 else (if OnOldKey(k, rows[0]) then 1 else 0) + OldRows(k, rows[1..])
  }

  lemma {:induction false} OldRowsShrink(k: Keys, before: seq<Row>, after: seq<Row>)
    requires |before| == |after| && forall i :: 0 <= i < |before| ==> Preserved(k, before[i], after[i])
    ensures OldRows(k, after) <= OldRows(k, before)
  {
    if before != [] {
      assert Preserved(k, before[0], after[0]);
      OldRowsShrink(k, before[1..], after[1..]);
    }
  }

  /** No sequence of passes ever puts a row back on the old key. */
  lemma OldRowsNeverGrow(k: Keys, passes: seq<Pass>, columns: Columns, c: nat)
    requires TrustedAll(k, passes, columns) && c < |columns|
    ensures OldRows(k, AfterPasses(k, passes, columns)[c]) <= OldRows(k, columns[c])
  {
    RotationLosesNothing(k, passes, columns);
    OldRowsShrink(k, columns[c], AfterPasses(k, passes, columns)[c]);
  }

  // ---------------------------------------------------------------------------
  // What a complete pass achieves
  // ---------------------------------------------------------------------------

  predicate Complete(pass: Pass, columns: Columns) {
    !pass.dryRun && pass.committed >= |columns|
  }

  lemma RowFinishes(k: Keys, nonce: Option<Nonce>, row: Row)
    requires RoundTrips(k.after) && OldRefuses(k, nonce, row)
    ensures OnOldKey(k, Rewritten(row, FateOf(k, nonce, row))) <==> FateOf(k, nonce, row).EncryptFailed?
    ensures FateOf(k, nonce, row).Rotated? ==>
      OnOldKey(k, row) && OnNewKey(k, Rewritten(row, FateOf(k, nonce, row)))
  {
    if FateOf(k, nonce, row).Rotated? {
      assert k.after.encrypt(nonce.value, k.before.decrypt(row.val.value).value).Ok?;
    }
  }

  /**
   After a complete pass a row is still on the old key exactly where the old vault opened it and
   it was not encrypted: no nonce was drawn, or the new vault refused what was in it.
   */
  lemma CompletePassFinishes(k: Keys, pass: Pass, columns: Columns, c: nat, i: nat)
    requires Trusted(k, pass, columns) && Complete(pass, columns) && c < |columns| && i < |columns[c]|
    ensures OnOldKey(k, AfterPass(k, pass, columns)[c][i]) <==>
      FateOf(k, pass.nonces(c, i), columns[c][i]).EncryptFailed?
    ensures OnOldKey(k, AfterPass(k, pass, columns)[c][i]) <==>
      var row, nonce := columns[c][i], pass.nonces(c, i);
      && row.val.Some? && row.val.value != "" && k.before.decrypt(row.val.value).Ok?
      && (nonce.None? || k.after.encrypt(nonce.value, k.before.decrypt(row.val.value).value).Err?)
  {
    var row := AfterPass(k, pass, columns)[c][i];
    assert row == Rewritten(columns[c][i], FateOf(k, pass.nonces(c, i), columns[c][i]));
    RowFinishes(k, pass.nonces(c, i), columns[c][i]);
  }

  /** A row is listed as a failure when it could not be encrypted, or not decrypted and not skipped. */
  lemma {:induction false} FailuresListed(rows: seq<Row>, fates: seq<Fate>, skip: bool, n: nat)
    requires |fates| == |rows| && n <= |rows|
    ensures ReportUpTo(rows, fates, skip, n).failures == [] <==>
      forall i :: 0 <= i < n ==> !fates[i].EncryptFailed? && (fates[i].Undecryptable? ==> skip)
  {
    if n > 0 {
      FailuresListed(rows, fates, skip, n - 1);
    }
  }

  /**
   No failure in a complete pass without the skip flag: every value in the column was on the
   old key, and every one is now on the new key.
   */
  lemma CleanExitMeansRotated(k: Keys, pass: Pass, columns: Columns, c: nat)
    requires Trusted(k, pass, columns) && Complete(pass, columns) && !pass.skipUndecryptable && c < |columns|
    requires FailuresIn(k, pass, columns, c) == []
    ensures forall i :: 0 <= i < |columns[c]| ==>
      Empty(columns[c][i]) || (OnOldKey(k, columns[c][i]) && OnNewKey(k, AfterPass(k, pass, columns)[c][i]))
  {
    var fates := PassFates(k, pass, columns, c);
    FailuresListed(columns[c], fates, false, |fates|);
    forall i | 0 <= i < |columns[c]|
      ensures Empty(columns[c][i]) || (OnOldKey(k, columns[c][i]) && OnNewKey(k, AfterPass(k, pass, columns)[c][i]))
    {
      assert AfterPass(k, pass, columns)[c][i] == Rewritten(columns[c][i], fates[i]);
      RowFinishes(k, pass.nonces(c, i), columns[c][i]);
    }
  }

  /**
   A re-run over a column with nothing left on the old key writes nothing. It reports every
   value as a failure, unless told to skip: then it reports none.
   */
  lemma RerunChangesNothing(k: Keys, column: nat, nonces: Nonces, rows: seq<Row>, skip: bool)
    requires forall i :: 0 <= i < |rows| ==> !OnOldKey(k, rows[i])
    ensures var fates := Fates(k, column, nonces, rows);
      && RotatedColumn(rows, fates) == rows
      && (ReportOn(rows, fates, skip).failures == [] <==> skip || forall i :: 0 <= i < |rows| ==> Empty(rows[i]))
  {
    var fates := Fates(k, column, nonces, rows);
    FailuresListed(rows, fates, skip, |rows|);
    forall i | 0 <= i < |rows|
      ensures fates[i] == if Empty(rows[i]) then Blank else Undecryptable
    {
      assert !OnOldKey(k, rows[i]);
    }
  }
}
