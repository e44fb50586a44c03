/**
 The one-shot migration that encrypts columns still holding plaintext: all target columns in
 one transaction, rows that already look encrypted left alone.
 */
module SecretMigration {
  import opened Wrappers
  import opened Vault
  import opened SecretTable

  /** The two functions of the vault that the script is handed, and the vault's decryption. */
  datatype Tools = Tools(vault: Cipher, isEncrypted: string -> bool)

  ghost predicate Coherent(t: Tools) {
    forall n: Nonce, s: string :: t.vault.encrypt(n, s).Ok? ==>
      var text := t.vault.encrypt(n, s).value;
      text != "" && t.isEncrypted(text) && t.vault.decrypt(text) == Ok(s)
  }

  function ToolsOf(p: Primitives, key: Key): Tools {
    Tools(CipherOf(p, key), (text: string) => IsEncrypted(Some(text)))
  }

  /** The vault's own structural check and cipher fit together. */
  lemma VaultIsCoherent(p: Primitives, key: Key)
    requires Sound(p)
    ensures Coherent(ToolsOf(p, key))
  {
    var t := ToolsOf(p, key);
    forall n: Nonce, s: string | t.vault.encrypt(n, s).Ok?
      ensures var text := t.vault.encrypt(n, s).value;
        text != "" && t.isEncrypted(text) && t.vault.decrypt(text) == Ok(s)
    {
      DecryptOfEncrypt(p, key, n, s);
    }
  }

  predicate LooksEncrypted(t: Tools, row: Row) {
    row.val.Some? && t.isEncrypted(row.val.value)
  }

  datatype Fate = Blank | Already | Failed | Encrypted(text: string)

  /** The nonce drawn for a row of a column; None when encrypting it raises. */
  type Nonces = (nat, nat) -> Option<Nonce>

  function FateOf(t: Tools, nonce: Option<Nonce>, row: Row): Fate {
    if Empty(row) then Blank
    else if t.isEncrypted(row.val.value) then Already
    else if nonce.None? then Failed
    else match t.vault.encrypt(nonce.value, row.val.value)
      case Err(_) => Failed
      case Ok(text) => Encrypted(text)
  }

  function Fates(t: Tools, column: nat, nonces: Nonces, rows: seq<Row>): (fates: seq<Fate>)
    ensures |fates| == |rows|
    ensures forall i :: 0 <= i < |rows| ==> fates[i] == FateOf(t, nonces(column, i), rows[i])
  {
    seq(|rows|, i requires 0 <= i < |rows| => FateOf(t, nonces(column, i), rows[i]))
  }

  function Rewritten(row: Row, fate: Fate): Row {
    if fate.Encrypted? then row.(val := Some(fate.text)) else row
  }

  function Migrated(rows: seq<Row>, fates: seq<Fate>): (result: seq<Row>)
    requires |fates| == |rows|
    ensures |result| == |rows|
    ensures forall i :: 0 <= i < |rows| ==> result[i] == Rewritten(rows[i], fates[i])
  {
    seq(|rows|, i requires 0 <= i < |rows| => Rewritten(rows[i], fates[i]))
  }

  datatype Tally = Tally(encrypted: nat, already: nat, blank: nat, failed: nat)
  {
    function Total(): nat { encrypted + already + blank + failed }
  }

  function Added(tally: Tally, fate: Fate): Tally {
    match fate
    case Blank => tally.(blank := tally.blank + 1)
    case Already => tally.(already := tally.already + 1)
    case Failed => tally.(failed := tally.failed + 1)
    case Encrypted(_) => tally.(encrypted := tally.encrypted + 1)
  }

  /** The tally of the first `n` rows. */
  function CountUpTo(fates: seq<Fate>, n: nat): Tally
    requires n <= |fates|
  {
    if n == 0 then Tally(0, 0, 0, 0) else Added(CountUpTo(fates, n - 1), fates[n - 1])
  }

  function Count(fates: seq<Fate>): Tally {
    CountUpTo(fates, |fates|)
  }

  lemma {:induction false} CountsEveryRow(fates: seq<Fate>, n: nat)
    requires n <= |fates|
    ensures CountUpTo(fates, n).Total() == n
  {
    if n > 0 {
      CountsEveryRow(fates, n - 1);
    }
  }

  /** A dry run encrypts nothing, so it cannot see a failure coming. */
  function Foretold(tally: Tally): Tally {
    Tally(tally.encrypted + tally.failed, tally.already, tally.blank, 0)
  }

  /** A dry run counts every plaintext row as one it would encrypt. */
  function Decision(fate: Fate, dryRun: bool): Fate {
    if dryRun && (fate.Failed? || fate.Encrypted?) then Encrypted("") else fate
  }

  method Decide(t: Tools, nonce: Option<Nonce>, row: Row, dryRun: bool) returns (decision: Fate)
    ensures decision == Decision(FateOf(t, nonce, row), dryRun)
  {
    if row.val.None? || row.val.value == "" {
      return Blank;
    }
    if t.isEncrypted(row.val.value) {
      return Already;
    }
    if dryRun {
      return Encrypted("");
    }
    if nonce.None? {
      return Failed;
    }
    var text := t.vault.encrypt(nonce.value, row.val.value);
    if text.Err? {
      return Failed;
    }
    return Encrypted(text.value);
  }

  method MigrateOne(table: Column, t: Tools, column: nat, nonces: Nonces, dryRun: bool)
    returns (encrypted: nat, already: nat, nullOrEmpty: nat, failed: seq<nat>)
    requires DistinctIds(table.rows)
    modifies table
    ensures var fates := Fates(t, column, nonces, old(table.rows));
      var tally := Tally(encrypted, already, nullOrEmpty, |failed|);
      && (table.rows == if dryRun then old(table.rows) else Migrated(old(table.rows), fates))
      && (tally == if dryRun then Foretold(Count(fates)) else Count(fates))
      && tally.Total() == |old(table.rows)|
  {
    encrypted, already, nullOrEmpty, failed := 0, 0, 0, [];
    var rows := table.rows;
    ghost var fates := Fates(t, column, nonces, rows);
    ghost var seen := Tally(0, 0, 0, 0);
    for i := 0 to |rows|
      invariant |table.rows| == |rows|
      invariant forall j :: 0 <= j < |rows| ==>
        table.rows[j] == if j < i && !dryRun then Rewritten(rows[j], fates[j]) else rows[j]
      invariant seen == CountUpTo(fates, i)
      invariant Tally(encrypted, already, nullOrEmpty, |failed|) == if dryRun then Foretold(seen) else seen
    {
      var row := rows[i];
      seen := Added(seen, fates[i]);
      var decision := Decide(t, nonces(column, i), row, dryRun);
      assert decision == Decision(fates[i], dryRun);
      match decision {
        case Blank =>
          nullOrEmpty := nullOrEmpty + 1;
        case Already =>
          already := already + 1;
        case Failed =>
          failed := failed + [row.id];
        case Encrypted(text) =>
          if !dryRun {
            table.Update(row.id, text);
          }
          encrypted := encrypted + 1;
      }
    }
    CountsEveryRow(fates, |fates|);
  }

  // ---------------------------------------------------------------------------
  // One transaction over all target columns, run any number of times
  // ---------------------------------------------------------------------------

  /** `interrupted`: an exception ends the run before the commit. */
  datatype Run = Run(dryRun: bool, nonces: Nonces, interrupted: bool)

  type Columns = seq<seq<Row>>

  function AfterRun(t: Tools, run: Run, columns: Columns): (result: Columns)
    ensures |result| == |columns|
    ensures forall c :: 0 <= c < |columns| ==> |result[c]| == |columns[c]|
  {
    if run.dryRun || run.interrupted then columns else
    seq(|columns|, c requires 0 <= c < |columns| => Migrated(columns[c], Fates(t, c, run.nonces, columns[c])))
  }

  function AfterRuns(t: Tools, runs: seq<Run>, columns: Columns): (result: Columns)
    ensures |result| == |columns|
    ensures forall c :: 0 <= c < |columns| ==> |result[c]| == |columns[c]|
    decreases |runs|
  {
    if runs == [] then columns else AfterRuns(t, runs[1..], AfterRun(t, runs[0], columns))
  }

  class Database {
    var columns: Columns

    constructor (columns: Columns)
      ensures this.columns == columns
    {
      this.columns := columns;
    }

    /** The exit status; None when an exception rolls the whole run back. */
    method Migrate(t: Tools, run: Run) returns (status: Option<int>)
      requires forall c :: 0 <= c < |columns| ==> DistinctIds(columns[c])
      modifies this
      ensures columns == AfterRun(t, run, old(columns))
      ensures status.None? <==> run.interrupted
      ensures !run.interrupted && run.dryRun ==> status == Some(0)
      ensures !run.interrupted && !run.dryRun ==>
        status in {Some(0), Some(2)} &&
        (status == Some(0) <==> forall c :: 0 <= c < |old(columns)| ==>
          Count(Fates(t, c, run.nonces, old(columns)[c])).failed == 0)
    {
      var start := columns;
      var working := start;
      var failures := 0;
      for c := 0 to |start|
        invariant |working| == |start|
        invariant forall d :: 0 <= d < |start| ==>
          working[d] ==
          if d < c && !run.dryRun then Migrated(start[d], Fates(t, d, run.nonces, start[d])) else start[d]
        invariant columns == start
        invariant failures >= 0 && (run.dryRun ==> failures == 0)
        invariant !run.dryRun ==> (failures == 0 <==>
          forall d :: 0 <= d < c ==> Count(Fates(t, d, run.nonces, start[d])).failed == 0)
      {
        var table := new Column(start[c]);
        var encrypted, already, blank, failed := MigrateOne(table, t, c, run.nonces, run.dryRun);
        working := working[c := table.rows];
        failures := failures + |failed|;
      }
      if run.interrupted {
        return None;
      }
      columns := working;
      return Some(if failures > 0 then 2 else 0);
    }
  }

  // ---------------------------------------------------------------------------
  // Nothing is lost, and nothing is encrypted twice
  // ---------------------------------------------------------------------------

  /** A row that changed was plaintext and now decrypts to it; every other row is as it was. */
  predicate Preserved(t: Tools, before: Row, after: Row) {
    || after == before
    || (&& after.id == before.id && !Empty(before) && !LooksEncrypted(t, before)
        && LooksEncrypted(t, after) && t.vault.decrypt(after.val.value) == Ok(before.val.value))
  }

  lemma RowPreserved(t: Tools, nonce: Option<Nonce>, row: Row)
    requires Coherent(t)
    ensures Preserved(t, row, Rewritten(row, FateOf(t, nonce, row)))
  {
    if FateOf(t, nonce, row).Encrypted? {
      assert t.vault.encrypt(nonce.value, row.val.value).Ok?;
    }
  }

  /** Any number of runs, dry, interrupted or complete: no row is rewritten but plaintext, to what decrypts to it. */
  lemma {:induction false} MigrationLosesNothing(t: Tools, runs: seq<Run>, columns: Columns)
    requires Coherent(t)
    ensures forall c, i :: 0 <= c < |columns| && 0 <= i < |columns[c]| ==>
      Preserved(t, columns[c][i], AfterRuns(t, runs, columns)[c][i])
    decreases |runs|
  {
    if runs != [] {
      var next := AfterRun(t, runs[0], columns);
      MigrationLosesNothing(t, runs[1..], next);
      forall c, i | 0 <= c < |columns| && 0 <= i < |columns[c]|
        ensures Preserved(t, columns[c][i], AfterRuns(t, runs, columns)[c][i])
      {
        RowPreserved(t, runs[0].nonces(c, i), columns[c][i]);
        assert Preserved(t, columns[c][i], next[c][i]);
        assert Preserved(t, next[c][i], AfterRuns(t, runs, columns)[c][i]);
      }
    }
  }

  lemma {:induction false} CountedFailures(fates: seq<Fate>, n: nat)
    requires n <= |fates|
    ensures CountUpTo(fates, n).failed == 0 <==> forall i :: 0 <= i < n ==> !fates[i].Failed?
  {
    if n > 0 {
      CountedFailures(fates, n - 1);
    }
  }

  lemma {:induction false} CountedEncryptions(fates: seq<Fate>, n: nat)
    requires n <= |fates|
    ensures CountUpTo(fates, n).encrypted == 0 <==> forall i :: 0 <= i < n ==> !fates[i].Encrypted?
  {
    if n > 0 {
      CountedEncryptions(fates, n - 1);
    }
  }

  lemma RowMigrated(t: Tools, nonce: Option<Nonce>, row: Row, later: Option<Nonce>)
    requires Coherent(t) && !FateOf(t, nonce, row).Failed?
    ensures var after := Rewritten(row, FateOf(t, nonce, row));
      && (Empty(after) || LooksEncrypted(t, after))
      && FateOf(t, later, after) in {Blank, Already}
  {
    if FateOf(t, nonce, row).Encrypted? {
      assert t.vault.encrypt(nonce.value, row.val.value).Ok?;
    }
  }

  /**
   After a run without failures every value looks encrypted, and a second run encrypts
   nothing, fails nothing and changes nothing, whatever nonces it draws.
   */
  lemma MigrationIdempotent(t: Tools, column: nat, nonces: Nonces, later: Nonces, rows: seq<Row>)
    requires Coherent(t) && Count(Fates(t, column, nonces, rows)).failed == 0
    ensures var once := Migrated(rows, Fates(t, column, nonces, rows));
      && (forall i :: 0 <= i < |once| ==> Empty(once[i]) || LooksEncrypted(t, once[i]))
      && Migrated(once, Fates(t, column, later, once)) == once
      && Count(Fates(t, column, later, once)).encrypted == 0
      && Count(Fates(t, column, later, once)).failed == 0
  {
    var fates := Fates(t, column, nonces, rows);
    var once := Migrated(rows, fates);
    var again := Fates(t, column, later, once);
    CountedFailures(fates, |fates|);
    forall i | 0 <= i < |rows|
      ensures (Empty(once[i]) || LooksEncrypted(t, once[i])) && again[i] in {Blank, Already}
    {
      RowMigrated(t, nonces(column, i), rows[i], later(column, i));
      assert once[i] == Rewritten(rows[i], fates[i]);
    }
    CountedFailures(again, |again|);
    CountedEncryptions(again, |again|);
  }
}
