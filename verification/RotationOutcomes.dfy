/**
 What the two maintenance scripts do to each row and report of it, read off the two vaults alone,
 and the balance between the rows they rewrite and the rows still to do.
 */
module RotationOutcomes {
  import opened Wrappers
  import opened Vault
  import opened SecretTable
  import R = KeyRotation
  import M = SecretMigration

  // ---------------------------------------------------------------------------
  // Rotation, row by row
  // ---------------------------------------------------------------------------

  predicate Opens(c: Cipher, row: Row) {
    row.val.Some? && row.val.value != "" && c.decrypt(row.val.value).Ok?
  }

  /** The old vault opens the row, a nonce is drawn, and the new vault encrypts what was in it. */
  predicate Moves(k: R.Keys, nonce: Option<Nonce>, row: Row) {
    && Opens(k.before, row) && nonce.Some?
    && k.after.encrypt(nonce.value, k.before.decrypt(row.val.value).value).Ok?
  }

  /** The row is reported as a failure: opened but not encrypted, or not opened and not to be skipped. */
  predicate Fails(k: R.Keys, nonce: Option<Nonce>, row: Row, skip: bool) {
    row.val.Some? && row.val.value != "" && !Moves(k, nonce, row) && (Opens(k.before, row) || !skip)
  }

  /** Exactly the rows that move get a new text, the new vault's; and only when their column is committed for real. */
  lemma RowWritten(k: R.Keys, pass: R.Pass, columns: R.Columns, c: nat, i: nat)
    requires c < |columns| && i < |columns[c]|
    ensures var row, nonce := columns[c][i], pass.nonces(c, i);
            R.AfterPass(k, pass, columns)[c][i]
            == if c < pass.committed && !pass.dryRun && Moves(k, nonce, row)
               then Row(row.id, Some(k.after.encrypt(nonce.value, k.before.decrypt(row.val.value).value).value)) else row
  {
  }

  // ---------------------------------------------------------------------------
  // Rotation, column by column
  // ---------------------------------------------------------------------------

  predicate MovesAt(k: R.Keys, nonces: R.Nonces, rows: seq<Row>, c: nat, i: nat)
    requires i < |rows|
  {
    Moves(k, nonces(c, i), rows[i])
  }

  /** How many of the first `n` rows move. */
  function Moving(k: R.Keys, nonces: R.Nonces, rows: seq<Row>, c: nat, n: nat): nat
    requires n <= |rows|
  {
    if n == 0 then 0 else Moving(k, nonces, rows, c, n - 1) + if MovesAt(k, nonces, rows, c, n - 1) then 1 else 0
  }

  /** The ids of the failing ones among them, in order. */
  function FailedIds(k: R.Keys, nonces: R.Nonces, rows: seq<Row>, c: nat, skip: bool, n: nat): seq<nat>
    requires n <= |rows|
  {
    if n == 0 then [] else
    FailedIds(k, nonces, rows, c, skip, n - 1) + if Fails(k, nonces(c, n - 1), rows[n - 1], skip) then [rows[n - 1].id] else []
  }

  lemma RowReported(k: R.Keys, nonce: Option<Nonce>, row: Row, skip: bool, report: R.Report)
    ensures var r := R.Reported(report, R.FateOf(k, nonce, row), row.id, skip);
            && r.rotated == report.rotated + (if Moves(k, nonce, row) then 1 else 0)
            && r.failures == report.failures + (if Fails(k, nonce, row, skip) then [row.id] else [])
            && r.rotated + r.skipped + |r.failures| == report.rotated + report.skipped + |report.failures| + 1
  {
    assert report.failures + [] == report.failures;
  }

  lemma {:induction false} ReportedUpTo(k: R.Keys, nonces: R.Nonces, rows: seq<Row>, c: nat, skip: bool, n: nat)
    requires n <= |rows|
    ensures var r := R.ReportUpTo(rows, R.Fates(k, c, nonces, rows), skip, n);
            && r.rotated == Moving(k, nonces, rows, c, n) && r.failures == FailedIds(k, nonces, rows, c, skip, n)
            && r.rotated + r.skipped + |r.failures| == n
  {
    if n > 0 {
      ReportedUpTo(k, nonces, rows, c, skip, n - 1);
      var fates := R.Fates(k, c, nonces, rows);
      assert fates[n - 1] == R.FateOf(k, nonces(c, n - 1), rows[n - 1]);
      RowReported(k, nonces(c, n - 1), rows[n - 1], skip, R.ReportUpTo(rows, fates, skip, n - 1));
    }
  }

  /** The three tallies of a column: rows that move, ids of rows that fail, and all the others skipped. */
  lemma ReportExactly(k: R.Keys, nonces: R.Nonces, rows: seq<Row>, c: nat, skip: bool)
    ensures R.ReportOn(rows, R.Fates(k, c, nonces, rows), skip)
         == R.Report(Moving(k, nonces, rows, c, |rows|),
                     R.ReportOn(rows, R.Fates(k, c, nonces, rows), skip).skipped,
                     FailedIds(k, nonces, rows, c, skip, |rows|))
    ensures R.ReportOn(rows, R.Fates(k, c, nonces, rows), skip).skipped
         == |rows| - Moving(k, nonces, rows, c, |rows|) - |FailedIds(k, nonces, rows, c, skip, |rows|)|
  {
    ReportedUpTo(k, nonces, rows, c, skip, |rows|);
  }

  lemma {:induction false} OldRowsSnoc(k: R.Keys, rows: seq<Row>, row: Row)
    ensures R.OldRows(k, rows + [row]) == R.OldRows(k, rows) + if Opens(k.before, row) then 1 else 0
  {
    if rows == [] {
      assert [] + [row] == [row] && [row][1..] == [];
    } else {
      assert (rows + [row])[1..] == rows[1..] + [row];
      OldRowsSnoc(k, rows[1..], row);
    }
  }

  lemma {:induction false} Balance(k: R.Keys, nonces: R.Nonces, rows: seq<Row>, after: seq<Row>, c: nat, n: nat)
    requires |after| == |rows| && n <= |rows|
    requires forall i :: 0 <= i < |rows| ==>
      (Opens(k.before, after[i]) <==> Opens(k.before, rows[i]) && !MovesAt(k, nonces, rows, c, i))
    ensures R.OldRows(k, after[..n]) + Moving(k, nonces, rows, c, n) == R.OldRows(k, rows[..n])
  {
    if n > 0 {
      Balance(k, nonces, rows, after, c, n - 1);
      assert rows[..n] == rows[..n - 1] + [rows[n - 1]] && after[..n] == after[..n - 1] + [after[n - 1]];
      OldRowsSnoc(k, rows[..n - 1], rows[n - 1]);
      OldRowsSnoc(k, after[..n - 1], after[n - 1]);
    }
  }

  /** A complete pass takes as many rows off the old key as it reports rotated. */
  lemma RotatedLeaveOldKey(k: R.Keys, pass: R.Pass, columns: R.Columns, c: nat)
    requires R.Trusted(k, pass, columns) && R.Complete(pass, columns) && c < |columns|
    ensures R.OldRows(k, R.AfterPass(k, pass, columns)[c])
            + R.ReportOn(columns[c], R.PassFates(k, pass, columns, c), pass.skipUndecryptable).rotated
         == R.OldRows(k, columns[c])
  {
    var rows, after := columns[c], R.AfterPass(k, pass, columns)[c];
    forall i | 0 <= i < |rows|
      ensures Opens(k.before, after[i]) <==> Opens(k.before, rows[i]) && !MovesAt(k, pass.nonces, rows, c, i)
    {
      R.CompletePassFinishes(k, pass, columns, c, i);
    }
    Balance(k, pass.nonces, rows, after, c, |rows|);
    assert rows[..|rows|] == rows && after[..|rows|] == after;
    ReportExactly(k, pass.nonces, rows, c, pass.skipUndecryptable);
  }

  lemma {:induction false} NoneOld(k: R.Keys, rows: seq<Row>)
    requires forall i :: 0 <= i < |rows| ==> !Opens(k.before, rows[i])
    ensures R.OldRows(k, rows) == 0
  {
    if rows != [] {
      NoneOld(k, rows[1..]);
    }
  }

  /** The new vault encrypts whatever it is given, and every nonce can be drawn. */
  ghost predicate NothingFails(k: R.Keys, pass: R.Pass) {
    (forall n: Nonce, s: string :: k.after.encrypt(n, s).Ok?) && forall c: nat, i: nat :: pass.nonces(c, i).Some?
  }

  /** Then one complete pass empties the old key, and reports every row that was on it. */
  lemma OnePassSuffices(k: R.Keys, pass: R.Pass, columns: R.Columns, c: nat)
    requires R.Trusted(k, pass, columns) && R.Complete(pass, columns) && c < |columns| && NothingFails(k, pass)
    ensures R.OldRows(k, R.AfterPass(k, pass, columns)[c]) == 0
    ensures R.ReportOn(columns[c], R.PassFates(k, pass, columns, c), pass.skipUndecryptable).rotated == R.OldRows(k, columns[c])
  {
    var after := R.AfterPass(k, pass, columns)[c];
    forall i | 0 <= i < |after| ensures !Opens(k.before, after[i]) {
      R.CompletePassFinishes(k, pass, columns, c, i);
    }
    NoneOld(k, after);
    RotatedLeaveOldKey(k, pass, columns, c);
  }

  // ---------------------------------------------------------------------------
  // Migration
  // ---------------------------------------------------------------------------

  /** There is text in the row, and it does not have the form of an encryption. */
  predicate Plain(t: M.Tools, row: Row) {
    row.val.Some? && row.val.value != "" && !t.isEncrypted(row.val.value)
  }

  predicate Encrypts(t: M.Tools, nonce: Option<Nonce>, row: Row) {
    Plain(t, row) && nonce.Some? && t.vault.encrypt(nonce.value, row.val.value).Ok?
  }

  /** Exactly the plain rows that can be encrypted are, and only in a real run that reaches its commit. */
  lemma RowEncrypted(t: M.Tools, run: M.Run, columns: M.Columns, c: nat, i: nat)
    requires c < |columns| && i < |columns[c]|
    ensures var row, nonce := columns[c][i], run.nonces(c, i);
            M.AfterRun(t, run, columns)[c][i]
            == if !run.dryRun && !run.interrupted && Encrypts(t, nonce, row)
               then Row(row.id, Some(t.vault.encrypt(nonce.value, row.val.value).value)) else row
  {
  }

  predicate EncryptsAt(t: M.Tools, nonces: M.Nonces, rows: seq<Row>, c: nat, i: nat)
    requires i < |rows|
  {
    Encrypts(t, nonces(c, i), rows[i])
  }

  /** Each row of the first `n` under one of four heads. */
  function Sorted(t: M.Tools, nonces: M.Nonces, rows: seq<Row>, c: nat, n: nat): M.Tally
    requires n <= |rows|
  {
    if n == 0 then M.Tally(0, 0, 0, 0) else
    var tally, row := Sorted(t, nonces, rows, c, n - 1), rows[n - 1];
    M.Tally(tally.encrypted + (if EncryptsAt(t, nonces, rows, c, n - 1) then 1 else 0),
            tally.already + (if row.val.Some? && row.val.value != "" && t.isEncrypted(row.val.value) then 1 else 0),
            tally.blank + (if row.val.None? || row.val.value == "" then 1 else 0),
            tally.failed + (if Plain(t, row) && !EncryptsAt(t, nonces, rows, c, n - 1) then 1 else 0))
  }

  lemma RowCounted(t: M.Tools, nonce: Option<Nonce>, row: Row, tally: M.Tally)
    ensures M.Added(tally, M.FateOf(t, nonce, row))
         == M.Tally(tally.encrypted + (if Encrypts(t, nonce, row) then 1 else 0),
                    tally.already + (if row.val.Some? && row.val.value != "" && t.isEncrypted(row.val.value) then 1 else 0),
                    tally.blank + (if row.val.None? || row.val.value == "" then 1 else 0),
                    tally.failed + (if Plain(t, row) && !Encrypts(t, nonce, row) then 1 else 0))
  {
  }

  /** The four tallies are the numbers of rows under the four heads. */
  lemma {:induction false} TallyExactly(t: M.Tools, nonces: M.Nonces, rows: seq<Row>, c: nat, n: nat)
    requires n <= |rows|
    ensures M.CountUpTo(M.Fates(t, c, nonces, rows), n) == Sorted(t, nonces, rows, c, n)
  {
    if n > 0 {
      TallyExactly(t, nonces, rows, c, n - 1);
      var fates := M.Fates(t, c, nonces, rows);
      assert fates[n - 1] == M.FateOf(t, nonces(c, n - 1), rows[n - 1]);
      RowCounted(t, nonces(c, n - 1), rows[n - 1], M.CountUpTo(fates, n - 1));
    }
  }

  /** Rows still plain after a run that commits are exactly those it could not encrypt. */
  lemma StaysPlainExactly(t: M.Tools, run: M.Run, columns: M.Columns, c: nat, i: nat)
    requires M.Coherent(t) && !run.dryRun && !run.interrupted && c < |columns| && i < |columns[c]|
    ensures Plain(t, M.AfterRun(t, run, columns)[c][i]) <==>
            Plain(t, columns[c][i]) && !Encrypts(t, run.nonces(c, i), columns[c][i])
  {
    RowEncrypted(t, run, columns, c, i);
  }
}
