/**
 The MAB whitelist: bulk import that inserts or skips, the records of an import file, and the
 export whose file the import reads. Number and date texts belong to the host.
 */
module MabDevices {
  import opened Wrappers
  import opened MacAddress
  import opened CsvRow
  import opened CsvPreview

  datatype Item = Item(
    mac: string, name: Option<string>, description: Option<string>, kind: Option<string>,
    vlan: Option<int>, expiry: Option<int>)

  /** A row: what an import file carries of it, and whether it is enabled, which no file carries. */
  datatype Device = Device(tenant: string, item: Item, enabled: bool)

  /** A row that would conflict on (mac_address, tenant_id). */
  predicate Holds(rows: seq<Device>, tenant: string, mac: string) {
    exists i :: 0 <= i < |rows| && rows[i].tenant == tenant && rows[i].item.mac == mac
  }

  function InsertOrSkip(rows: seq<Device>, tenant: string, item: Item): seq<Device> {
    if Holds(rows, tenant, item.mac) then rows else rows + [Device(tenant, item, true)]
  }

  /** The table after the first `n` items of an import. */
  function Imported(rows: seq<Device>, tenant: string, items: seq<Item>, n: nat): seq<Device>
    requires n <= |items|
  {
    if n == 0 then rows else InsertOrSkip(Imported(rows, tenant, items, n - 1), tenant, items[n - 1])
  }

  class Whitelist {
    var rows: seq<Device>

    constructor ()
      ensures rows == []
    {
      rows := [];
    }

    method BulkInsert(tenant: string, item: Item) returns (inserted: bool)
      modifies this
      ensures rows == InsertOrSkip(old(rows), tenant, item)
      ensures inserted <==> !Holds(old(rows), tenant, item.mac)
    {
      var conflict := Holds(rows, tenant, item.mac);
      if conflict {
        return false;
      }
      rows := rows + [Device(tenant, item, true)];
      return true;
    }

    method BulkImport(tenant: string, items: seq<Item>) returns (created: nat, skipped: nat, total: nat)
      modifies this
      ensures rows == Imported(old(rows), tenant, items, |items|)
      ensures created == |rows| - |old(rows)| && created + skipped == total == |items|
    {
      created, skipped := 0, 0;
      for i := 0 to |items|
        invariant rows == Imported(old(rows), tenant, items, i)
        invariant created == |rows| - |old(rows)| && created + skipped == i
      {
        var inserted := BulkInsert(tenant, items[i]);
        if inserted {
          created := created + 1;
        } else {
          skipped := skipped + 1;
        }
      }
      return created, skipped, |items|;
    }

    /** What can be read of an upload is imported, whatever else is wrong with it. */
    method ImportCsv(c: Codec, tenant: string, u: Upload)
      returns (created: nat, skipped: nat, total: nat, errors: seq<Problem>)
      modifies this
      ensures var (items, problems) := Parsed(c, u);
              && rows == Imported(old(rows), tenant, items, |items|) && errors == problems
              && created == |rows| - |old(rows)| && created + skipped == total == |items|
    {
      var items, problems := ParseBulkItems(c, u);
      created, skipped, total := 0, 0, 0;
      if items != [] {
        created, skipped, total := BulkImport(tenant, items);
      }
      errors := problems;
    }
  }

  // ---------------------------------------------------------------------------
  // Importing
  // ---------------------------------------------------------------------------

  predicate KeysUnique(rows: seq<Device>) {
    forall i, j :: 0 <= i < j < |rows| ==> !(rows[i].tenant == rows[j].tenant && rows[i].item.mac == rows[j].item.mac)
  }

  /** An import appends; rows that were there stay as they were, whatever the file says of them. */
  lemma {:induction false} ImportAppends(rows: seq<Device>, tenant: string, items: seq<Item>, n: nat)
    requires n <= |items|
    ensures rows <= Imported(rows, tenant, items, n)
    decreases n
  {
    if n > 0 {
      ImportAppends(rows, tenant, items, n - 1);
    }
  }

  lemma {:induction false} ImportKeepsUnique(rows: seq<Device>, tenant: string, items: seq<Item>, n: nat)
    requires n <= |items| && KeysUnique(rows)
    ensures KeysUnique(Imported(rows, tenant, items, n))
    decreases n
  {
    if n > 0 {
      ImportKeepsUnique(rows, tenant, items, n - 1);
    }
  }

  predicate Offers(items: seq<Item>, n: nat, mac: string) {
    exists i :: 0 <= i < n <= |items| && items[i].mac == mac
  }

  /** Afterwards an address is listed exactly if it was before or the file offers it, in this tenant only. */
  lemma {:induction false} ImportHolds(rows: seq<Device>, tenant: string, items: seq<Item>, n: nat, owner: string, mac: string)
    requires n <= |items|
    ensures Holds(Imported(rows, tenant, items, n), owner, mac)
       <==> Holds(rows, owner, mac) || (owner == tenant && Offers(items, n, mac))
    decreases n
  {
    if n > 0 {
      var before := Imported(rows, tenant, items, n - 1);
      ImportHolds(rows, tenant, items, n - 1, owner, mac);
      assert Offers(items, n, mac) <==> Offers(items, n - 1, mac) || items[n - 1].mac == mac;
      assert Holds(before + [Device(tenant, items[n - 1], true)], owner, mac)
        <==> Holds(before, owner, mac) || (owner == tenant && mac == items[n - 1].mac) by {
        var after := before + [Device(tenant, items[n - 1], true)];
        assert after[|before|] == Device(tenant, items[n - 1], true);
        if Holds(before, owner, mac) {
          var i :| 0 <= i < |before| && before[i].tenant == owner && before[i].item.mac == mac;
          assert after[i] == before[i];
        }
      }
    }
  }

  /** Each address that is new gets the first item that offers it. */
  lemma {:induction false} FirstOfferWins(rows: seq<Device>, tenant: string, items: seq<Item>, n: nat, k: nat)
    requires k < n <= |items|
    requires !Holds(rows, tenant, items[k].mac) && !Offers(items, k, items[k].mac)
    ensures Device(tenant, items[k], true) in Imported(rows, tenant, items, n)
    decreases n
  {
    if k == n - 1 {
      ImportHolds(rows, tenant, items, k, tenant, items[k].mac);
    } else {
      FirstOfferWins(rows, tenant, items, n - 1, k);
    }
  }

  /** Nothing is created if and only if every address is already listed. */
  lemma {:induction false} CreatesNothingExactly(rows: seq<Device>, tenant: string, items: seq<Item>, n: nat)
    requires n <= |items|
    ensures Imported(rows, tenant, items, n) == rows <==> forall i :: 0 <= i < n ==> Holds(rows, tenant, items[i].mac)
    ensures |Imported(rows, tenant, items, n)| >= |rows|
    ensures |Imported(rows, tenant, items, n)| == |rows| ==> Imported(rows, tenant, items, n) == rows
    decreases n
  {
    ImportAppends(rows, tenant, items, n);
    if n > 0 {
      CreatesNothingExactly(rows, tenant, items, n - 1);
    }
  }

  /** Importing the same file again creates nothing. */
  lemma ReimportCreatesNothing(rows: seq<Device>, tenant: string, items: seq<Item>)
    ensures var once := Imported(rows, tenant, items, |items|); Imported(once, tenant, items, |items|) == once
  {
    var once := Imported(rows, tenant, items, |items|);
    forall i | 0 <= i < |items| ensures Holds(once, tenant, items[i].mac) {
      ImportHolds(rows, tenant, items, |items|, tenant, items[i].mac);
    }
    CreatesNothingExactly(once, tenant, items, |items|);
  }

  // ---------------------------------------------------------------------------
  // The records of an import file
  // ---------------------------------------------------------------------------

  datatype Codec = Codec(host: Host, digits: int -> string, moment: string -> Option<int>, iso: int -> string)

  /** One record as its (column, text) pairs, in file order. */
  type Record = seq<(string, string)>

  /** Folded column names with their trimmed texts; of two columns with one name the later counts. */
  function Folded(h: Host, r: Record): map<string, string> {
    if r == [] then map[]
    else Folded(h, r[..|r| - 1])[h.lower(Trim(h.space, r[|r| - 1].0)) := Trim(h.space, r[|r| - 1].1)]
  }

  predicate IsBlank(row: map<string, string>) {
    forall k :: k in row ==> row[k] == ""
  }

  function Get(row: map<string, string>, name: string): Option<string> {
    if name in row && row[name] != "" then Some(row[name]) else None
  }

  /** Validation of one cleaned record: the address, the VLAN and the date can each refuse it. */
  function Validated(c: Codec, row: map<string, string>): Option<Item> {
    var vlan, expiry := Get(row, VLAN), Get(row, "expiry_date");
    if Get(row, MAC).None? || Normalise(Get(row, MAC).value).None? then None
    else if vlan.Some? && !VlanFits(c.host, vlan.value) then None
    else if expiry.Some? && c.moment(expiry.value).None? then None
    else Some(Item(Normalise(Get(row, MAC).value).value, Get(row, "name"), Get(row, "description"), Get(row, "device_type"),
                   if vlan.Some? then c.host.number(vlan.value) else None,
                   if expiry.Some? then c.moment(expiry.value) else None))
  }

  datatype Reading = Blank | Accepted(item: Item) | Refused

  function ReadRecord(c: Codec, r: Record): Reading {
    var row := Folded(c.host, r);
    if IsBlank(row) then Blank
    else match Validated(c, row)
      case Some(item) => Accepted(item)
      case None => Refused
  }

  function Readings(c: Codec, records: seq<Record>): seq<Reading> {
    seq(|records|, i requires 0 <= i < |records| => ReadRecord(c, records[i]))
  }

  /** The items among the first `n` readings. */
  function ItemsOf(readings: seq<Reading>, n: nat): seq<Item>
    requires n <= |readings|
  {
    if n == 0 then []
    else ItemsOf(readings, n - 1) + if readings[n - 1].Accepted? then [readings[n - 1].item] else []
  }

  /** What an upload is refused for: the whole of it, or one row, counting the header as row 1. */
  datatype Problem = NoHeader | ColumnMissing | BadRow(row: nat)

  function ErrorsOf(readings: seq<Reading>, n: nat): seq<Problem>
    requires n <= |readings|
  {
    if n == 0 then []
    else ErrorsOf(readings, n - 1) + if readings[n - 1].Refused? then [BadRow(n + 1)] else []
  }

  /** The column names, if the file has any line, and the records under them. */
  datatype Upload = Upload(fieldnames: Option<seq<string>>, records: seq<Record>)

  predicate HasColumn(h: Host, fieldnames: seq<string>, name: string) {
    exists i :: 0 <= i < |fieldnames| && h.lower(Trim(h.space, fieldnames[i])) == name
  }

  function HeaderProblem(h: Host, fieldnames: Option<seq<string>>): Option<Problem> {
    if fieldnames.None? then Some(NoHeader)
    else if !HasColumn(h, fieldnames.value, MAC) then Some(ColumnMissing)
    else None
  }

  function Parsed(c: Codec, u: Upload): (seq<Item>, seq<Problem>) {
    var readings := Readings(c, u.records);
    match HeaderProblem(c.host, u.fieldnames)
    case Some(problem) => ([], [problem])
    case None => (ItemsOf(readings, |readings|), ErrorsOf(readings, |readings|))
  }

  method ParseBulkItems(c: Codec, u: Upload) returns (items: seq<Item>, errors: seq<Problem>)
    ensures (items, errors) == Parsed(c, u)
  {
    if u.fieldnames.None? {
      return [], [NoHeader];
    }
    var found := HasColumn(c.host, u.fieldnames.value, MAC);
    if !found {
      return [], [ColumnMissing];
    }
    items, errors := ParseRecords(c, u.records);
  }

  method ParseRecords(c: Codec, records: seq<Record>) returns (items: seq<Item>, errors: seq<Problem>)
    ensures items == ItemsOf(Readings(c, records), |records|) && errors == ErrorsOf(Readings(c, records), |records|)
  {
    ghost var readings := Readings(c, records);
    items, errors := [], [];
    for i := 0 to |records|
      invariant items == ItemsOf(readings, i) && errors == ErrorsOf(readings, i)
    {
      var reading := Read(c, records[i]);
      assert readings[i] == reading;
      match reading {
        case Blank =>
        case Accepted(item) =>
          items := items + [item];
        case Refused =>
          errors := errors + [BadRow(i + 2)];
      }
    }
  }

  method Read(c: Codec, r: Record) returns (reading: Reading)
    ensures reading == ReadRecord(c, r)
  {
    var row := FoldRecord(c.host, r);
    if forall k :: k in row ==> row[k] == "" {
      return Blank;
    }
    var item := Validated(c, row);
    return if item.Some? then Accepted(item.value) else Refused;
  }

  method FoldRecord(h: Host, r: Record) returns (row: map<string, string>)
    ensures row == Folded(h, r)
  {
    row := map[];
    for i := 0 to |r|
      invariant row == Folded(h, r[..i])
    {
      assert r[..i + 1][..i] == r[..i];
      row := row[h.lower(Trim(h.space, r[i].0)) := Trim(h.space, r[i].1)];
    }
    assert r[..|r|] == r;
  }

  // ---------------------------------------------------------------------------
  // Exporting
  // ---------------------------------------------------------------------------

  function OrEmpty(s: Option<string>): string {
    if s.Some? then s.value else ""
  }

  /** The six texts of a row, under the columns the import knows. */
  function Exported(c: Codec, d: Item): seq<string> {
    [d.mac, OrEmpty(d.name), OrEmpty(d.description), OrEmpty(d.kind),
     NumberText(c, d.vlan), DateText(c, d.expiry)]
  }

  function RecordOf(names: seq<string>, texts: seq<string>): Record
    requires |names| == |texts|
  {
    seq(|names|, i requires 0 <= i < |names| => (names[i], texts[i]))
  }

  predicate NumberReadsBack(c: Codec, v: int) {
    var text := c.digits(v);
    text != "" && Trim(c.host.space, text) == text && c.host.number(text) == Some(v)
  }

  predicate DateReadsBack(c: Codec, t: int) {
    var text := c.iso(t);
    text != "" && Trim(c.host.space, text) == text && c.moment(text) == Some(t)
  }

  /** A host that reads back the VLAN numbers, and whose white space keeps clear of addresses. */
  ghost predicate Faithful(c: Codec) {
    && Sane(c.host)
    && (forall ch :: IsLowerHex(ch) || ch == ':' ==> !c.host.space(ch))
    && forall v :: 1 <= v <= 4094 ==> NumberReadsBack(c, v)
  }

  predicate WellFormed(d: Item) {
    |d.mac| == 17 && Paired(d.mac) && (d.vlan.Some? ==> 1 <= d.vlan.value <= 4094)
  }

  /** A device of a reachable table whose own expiry date, if it has one, reads back. */
  predicate Readable(c: Codec, d: Item) {
    WellFormed(d) && (d.expiry.Some? ==> DateReadsBack(c, d.expiry.value))
  }

  function Kept(c: Codec, s: Option<string>): Option<string> {
    var t := Trim(c.host.space, OrEmpty(s));
    if t == "" then None else Some(t)
  }

  /** What a row is after export and import: the texts lose the white space around them, and blank ones go. */
  function Restored(c: Codec, d: Item): Item {
    d.(name := Kept(c, d.name), description := Kept(c, d.description), kind := Kept(c, d.kind))
  }

  lemma {:induction false} FoldedAt(h: Host, names: seq<string>, texts: seq<string>, i: nat)
    requires i < |names| == |texts|
    requires forall j, k :: 0 <= j < k < |names| ==> names[j] != names[k]
    requires forall j :: 0 <= j < |names| ==> h.lower(Trim(h.space, names[j])) == names[j]
    ensures var row := Folded(h, RecordOf(names, texts)); names[i] in row && row[names[i]] == Trim(h.space, texts[i])
    decreases |names|
  {
    var n := |names| - 1;
    var r := RecordOf(names, texts);
    assert r[..n] == RecordOf(names[..n], texts[..n]);
    if i < n {
      FoldedAt(h, names[..n], texts[..n], i);
    }
  }

  lemma KnownDistinct(j: nat, k: nat)
    requires j < k < |KNOWN|
    ensures KNOWN[j] != KNOWN[k]
  {
    KnownIndex(j);
    KnownIndex(k);
  }

  lemma FoldedExport(c: Codec, d: Item)
    requires Faithful(c)
    ensures var row := Folded(c.host, RecordOf(KNOWN, Exported(c, d)));
            forall i :: 0 <= i < |KNOWN| ==> KNOWN[i] in row && row[KNOWN[i]] == Trim(c.host.space, Exported(c, d)[i])
  {
    forall j, k | 0 <= j < k < |KNOWN| ensures KNOWN[j] != KNOWN[k] {
      KnownDistinct(j, k);
    }
    forall i | 0 <= i < |KNOWN|
      ensures var row := Folded(c.host, RecordOf(KNOWN, Exported(c, d)));
              KNOWN[i] in row && row[KNOWN[i]] == Trim(c.host.space, Exported(c, d)[i]) {
      FoldedAt(c.host, KNOWN, Exported(c, d), i);
    }
  }

  lemma TrimKeepsVisible(space: char -> bool, s: string)
    requires s != "" && !space(s[0]) && !space(s[|s| - 1])
    ensures Trim(space, s) == s
  {
  }

  lemma TrimKeepsMac(c: Codec, mac: string)
    requires Faithful(c) && |mac| == 17 && Paired(mac)
    ensures Trim(c.host.space, mac) == mac
  {
    assert IsLowerHex(mac[0]) && IsLowerHex(mac[16]);
    TrimKeepsVisible(c.host.space, mac);
  }

  lemma TrimEmpty(space: char -> bool)
    ensures Trim(space, "") == ""
  {
  }

  /** The columns of a record that is validated as a known item. */
  predicate Columns(c: Codec, row: map<string, string>, texts: seq<string>)
    requires |texts| == |KNOWN|
  {
    && Get(row, MAC) == Shown(texts[0]) && Get(row, "name") == Shown(texts[1])
    && Get(row, "description") == Shown(texts[2]) && Get(row, "device_type") == Shown(texts[3])
    && Get(row, VLAN) == Shown(texts[4]) && Get(row, "expiry_date") == Shown(texts[5])
  }

  function Shown(text: string): Option<string> {
    if text == "" then None else Some(text)
  }

  lemma ExportedColumns(c: Codec, d: Item)
    requires Faithful(c) && WellFormed(d)
    ensures var row := Folded(c.host, RecordOf(KNOWN, Exported(c, d)));
            Columns(c, row, TrimAll(c.host.space, Exported(c, d))) && !IsBlank(row)
  {
    FoldedExport(c, d);
    TrimKeepsMac(c, d.mac);
    var row := Folded(c.host, RecordOf(KNOWN, Exported(c, d)));
    var names, texts := KNOWN, Exported(c, d);
    assert names[0] in row && row[names[0]] == d.mac;
    assert forall i :: 0 <= i < 6 ==> names[i] in row && row[names[i]] == Trim(c.host.space, texts[i]);
  }

  function NumberText(c: Codec, v: Option<int>): string {
    if v.Some? then c.digits(v.value) else ""
  }

  function DateText(c: Codec, t: Option<int>): string {
    if t.Some? then c.iso(t.value) else ""
  }

  lemma NumberTextReadsBack(c: Codec, v: Option<int>)
    requires Faithful(c) && (v.Some? ==> 1 <= v.value <= 4094)
    ensures Trim(c.host.space, NumberText(c, v)) == NumberText(c, v)
    ensures Shown(NumberText(c, v)) == if v.Some? then Some(NumberText(c, v)) else None
    ensures v.Some? ==> c.host.number(NumberText(c, v)) == v
  {
    TrimEmpty(c.host.space);
    assert v.Some? ==> NumberReadsBack(c, v.value);
  }

  lemma DateTextReadsBack(c: Codec, t: Option<int>)
    requires t.Some? ==> DateReadsBack(c, t.value)
    ensures Trim(c.host.space, DateText(c, t)) == DateText(c, t)
    ensures Shown(DateText(c, t)) == if t.Some? then Some(DateText(c, t)) else None
    ensures t.Some? ==> c.moment(DateText(c, t)) == t
  {
    TrimEmpty(c.host.space);
  }

  lemma ValidatedOf(c: Codec, row: map<string, string>, texts: seq<string>, d: Item)
    requires Faithful(c) && Readable(c, d) && |texts| == |KNOWN| && Columns(c, row, texts)
    requires texts[0] == d.mac && Normalise(d.mac) == Some(d.mac)
    requires texts[4] == NumberText(c, d.vlan) && texts[5] == DateText(c, d.expiry)
    ensures Validated(c, row)
         == Some(d.(name := Shown(texts[1]), description := Shown(texts[2]), kind := Shown(texts[3])))
  {
    NumberTextReadsBack(c, d.vlan);
    DateTextReadsBack(c, d.expiry);
  }

  /** Every exported row reads back as one valid item. */
  lemma ExportValidates(c: Codec, d: Item)
    requires Faithful(c) && Readable(c, d)
    ensures ReadRecord(c, RecordOf(KNOWN, Exported(c, d))) == Accepted(Restored(c, d))
  {
    ExportedColumns(c, d);
    TrimKeepsMac(c, d.mac);
    NormalFormExactly(d.mac);
    NumberTextReadsBack(c, d.vlan);
    DateTextReadsBack(c, d.expiry);
    ValidatedOf(c, Folded(c.host, RecordOf(KNOWN, Exported(c, d))), TrimAll(c.host.space, Exported(c, d)), d);
  }

  function ExportRecords(c: Codec, devices: seq<Device>): seq<Record> {
    seq(|devices|, i requires 0 <= i < |devices| => RecordOf(KNOWN, Exported(c, devices[i].item)))
  }

  function RestoredAll(c: Codec, devices: seq<Device>): seq<Item> {
    seq(|devices|, i requires 0 <= i < |devices| => Restored(c, devices[i].item))
  }

  lemma {:induction false} AllAccepted(readings: seq<Reading>, items: seq<Item>, n: nat)
    requires n <= |readings| == |items| && forall i :: 0 <= i < |items| ==> readings[i] == Accepted(items[i])
    ensures ItemsOf(readings, n) == items[..n] && ErrorsOf(readings, n) == []
    decreases n
  {
    if n > 0 {
      AllAccepted(readings, items, n - 1);
      assert items[..n] == items[..n - 1] + [items[n - 1]];
    }
  }

  /** The exported file as an upload. */
  function ExportUpload(c: Codec, devices: seq<Device>): Upload {
    Upload(Some(KNOWN), ExportRecords(c, devices))
  }

  lemma ExportParses(c: Codec, devices: seq<Device>)
    requires Faithful(c) && forall i :: 0 <= i < |devices| ==> Readable(c, devices[i].item)
    ensures Parsed(c, ExportUpload(c, devices)) == (RestoredAll(c, devices), [])
  {
    var readings, items := Readings(c, ExportRecords(c, devices)), RestoredAll(c, devices);
    forall i | 0 <= i < |devices| ensures readings[i] == Accepted(items[i]) {
      AcceptedAt(c, devices, i);
    }
    AllAccepted(readings, items, |devices|);
    assert items[..|items|] == items;
    KnownHasAddress(c.host);
  }

  lemma KnownHasAddress(h: Host)
    requires Sane(h)
    ensures HasColumn(h, KNOWN, MAC)
  {
    var names := KNOWN;
    assert names[0] == MAC && h.lower(Trim(h.space, names[0])) == MAC;
  }

  lemma AcceptedAt(c: Codec, devices: seq<Device>, i: nat)
    requires Faithful(c) && i < |devices| && Readable(c, devices[i].item)
    ensures Readings(c, ExportRecords(c, devices))[i] == Accepted(RestoredAll(c, devices)[i])
  {
    ExportValidates(c, devices[i].item);
  }

  /** Export, then import into the same table: every row is read without error and skipped. */
  lemma ReimportSkipsAll(c: Codec, rows: seq<Device>, devices: seq<Device>, tenant: string)
    requires Faithful(c)
    requires forall i :: 0 <= i < |devices| ==>
               devices[i] in rows && devices[i].tenant == tenant && Readable(c, devices[i].item)
    ensures var (items, errors) := Parsed(c, ExportUpload(c, devices));
            errors == [] && |items| == |devices| && Imported(rows, tenant, items, |items|) == rows
  {
    ExportParses(c, devices);
    var items := RestoredAll(c, devices);
    forall i | 0 <= i < |items| ensures Holds(rows, tenant, items[i].mac) {
      var k :| 0 <= k < |rows| && rows[k] == devices[i];
    }
    CreatesNothingExactly(rows, tenant, items, |items|);
  }

  /** The rows that were exported, but for the white space around their texts. */
  function RestoredRows(c: Codec, devices: seq<Device>): seq<Device> {
    seq(|devices|, i requires 0 <= i < |devices| => devices[i].(item := Restored(c, devices[i].item)))
  }

  lemma {:induction false} ImportFresh(tenant: string, items: seq<Item>, n: nat)
    requires n <= |items| && forall i, j :: 0 <= i < j < |items| ==> items[i].mac != items[j].mac
    ensures |Imported([], tenant, items, n)| == n
    ensures forall i :: 0 <= i < n ==> Imported([], tenant, items, n)[i] == Device(tenant, items[i], true)
    decreases n
  {
    if n > 0 {
      ImportFresh(tenant, items, n - 1);
      ImportHolds([], tenant, items, n - 1, tenant, items[n - 1].mac);
    }
  }

  /**
   Export, delete, import: every row comes back, in order and enabled, but for white space around its
   texts. So the rows are as they were if and only if every device was enabled: one that had been
   disabled comes back enabled.
   */
  lemma ExportRestores(c: Codec, devices: seq<Device>, tenant: string)
    requires Faithful(c) && KeysUnique(devices)
    requires forall i :: 0 <= i < |devices| ==> devices[i].tenant == tenant && Readable(c, devices[i].item)
    ensures var (items, errors) := Parsed(c, ExportUpload(c, devices));
            var rows := Imported([], tenant, items, |items|);
            && errors == [] && |rows| == |devices|
            && (forall i :: 0 <= i < |devices| ==> rows[i] == RestoredRows(c, devices)[i].(enabled := true))
            && (rows == RestoredRows(c, devices) <==> forall i :: 0 <= i < |devices| ==> devices[i].enabled)
  {
    ExportParses(c, devices);
    var items := RestoredAll(c, devices);
    ImportFresh(tenant, items, |items|);
    ComesBackExactly(c, devices, tenant, Imported([], tenant, items, |items|));
  }

  lemma ComesBackExactly(c: Codec, devices: seq<Device>, tenant: string, rows: seq<Device>)
    requires |rows| == |devices| && forall i :: 0 <= i < |devices| ==> devices[i].tenant == tenant
    requires forall i :: 0 <= i < |devices| ==> rows[i] == Device(tenant, RestoredAll(c, devices)[i], true)
    ensures forall i :: 0 <= i < |devices| ==> rows[i] == RestoredRows(c, devices)[i].(enabled := true)
    ensures rows == RestoredRows(c, devices) <==> forall i :: 0 <= i < |devices| ==> devices[i].enabled
  {
    var restored := RestoredRows(c, devices);
    forall i | 0 <= i < |devices| ensures restored[i] == Device(tenant, RestoredAll(c, devices)[i], devices[i].enabled) {
    }
    if rows == restored {
      forall i | 0 <= i < |devices| ensures devices[i].enabled {
        assert rows[i] == restored[i];
      }
    }
  }

  /** Whatever a file says, every row that an import adds is enabled. */
  lemma {:induction false} ImportedAreEnabled(rows: seq<Device>, tenant: string, items: seq<Item>, n: nat)
    requires n <= |items|
    ensures forall d :: d in Imported(rows, tenant, items, n) && d !in rows ==> d.enabled && d.tenant == tenant
    decreases n
  {
    if n > 0 {
      ImportedAreEnabled(rows, tenant, items, n - 1);
    }
  }

  /** Every record with a visible text is either an item or an error, never both. */
  lemma {:induction false} RecordsAccounted(readings: seq<Reading>, n: nat)
    requires n <= |readings|
    ensures |ItemsOf(readings, n)| + |ErrorsOf(readings, n)| == |set i | 0 <= i < n && !readings[i].Blank?|
    decreases n
  {
    if n > 0 {
      RecordsAccounted(readings, n - 1);
      var before, now := set i | 0 <= i < n - 1 && !readings[i].Blank?, set i | 0 <= i < n && !readings[i].Blank?;
      assert now == before + if readings[n - 1].Blank? then {} else {n - 1};
    }
  }

  // ---------------------------------------------------------------------------
  // The preview of an exported file
  // ---------------------------------------------------------------------------

  /** A file as the writer prints it: each row's texts, quoted where they must be and wherever else it likes. */
  ghost predicate PrintsExport(c: Codec, devices: seq<Device>, file: seq<seq<Cell>>) {
    && |file| == |devices| + 1 && Texts(file[0]) == KNOWN
    && (forall i :: 0 <= i < |devices| ==> Texts(file[i + 1]) == Exported(c, devices[i].item))
    && (forall i :: 0 <= i < |file| ==> OneLine(file[i]))
  }

  predicate IsClean(row: Row, d: Item) {
    row.error == None && MAC in row.values && row.values[MAC] == d.mac
  }

  /** The preview of an exported file shows every device, under its address, without an error. */
  lemma ExportPreviewsClean(c: Codec, devices: seq<Device>, file: seq<seq<Cell>>)
    requires Faithful(c) && PrintsExport(c, devices, file)
    requires forall i :: 0 <= i < |devices| ==> WellFormed(devices[i].item)
    ensures var p := PreviewOf(c.host, PrintFile(file));
            p.Rows? && |p.rows| == |devices| && forall i :: 0 <= i < |devices| ==> IsClean(p.rows[i], devices[i].item)
  {
    RowsAreFull(c, devices, file);
    PreviewOfFile(c.host, file);
    RowsAreClean(c, devices, file, PreviewOf(c.host, PrintFile(file)).rows);
  }

  lemma RowsAreClean(c: Codec, devices: seq<Device>, file: seq<seq<Cell>>, rows: seq<Row>)
    requires Faithful(c) && PrintsExport(c, devices, file) && |rows| == |devices|
    requires forall i :: 0 <= i < |devices| ==> WellFormed(devices[i].item)
    requires forall i :: 0 <= i < |file| ==> |file[i]| == |KNOWN|
    requires forall i :: 0 <= i < |rows| ==> RowOf(c.host, rows[i], i + 2, Texts(file[i + 1]))
    ensures forall i :: 0 <= i < |devices| ==> IsClean(rows[i], devices[i].item)
  {
    forall i | 0 <= i < |devices| ensures IsClean(rows[i], devices[i].item) {
      ShownIsClean(c, devices[i].item, rows[i], i + 2, Texts(file[i + 1]));
    }
  }

  lemma ShownIsClean(c: Codec, d: Item, row: Row, rowIdx: nat, texts: seq<string>)
    requires Faithful(c) && WellFormed(d) && texts == Exported(c, d) && RowOf(c.host, row, rowIdx, texts)
    ensures IsClean(row, d)
  {
    RowIsClean(c, d, row, rowIdx);
  }

  lemma RowsAreFull(c: Codec, devices: seq<Device>, file: seq<seq<Cell>>)
    requires PrintsExport(c, devices, file)
    ensures forall i :: 0 <= i < |file| ==> |file[i]| == |KNOWN|
  {
    forall i | 0 <= i < |file| ensures |file[i]| == |KNOWN| {
      assert |Texts(file[i])| == |file[i]|;
      if i > 0 {
        assert Texts(file[i - 1 + 1]) == Exported(c, devices[i - 1].item);
      }
    }
  }

  lemma ShowsAt(h: Host, values: map<string, string>, names: seq<string>, texts: seq<string>, i: nat)
    requires |texts| == |names| && i < |names| && Shows(h, values, names, texts)
    ensures names[i] in values <==> Trim(h.space, texts[i]) != ""
    ensures names[i] in values ==> values[names[i]] == Trim(h.space, texts[i])
  {
  }

  lemma CheckedClean(h: Host, rowIdx: nat, values: map<string, string>, mac: string)
    requires MAC in values && values[MAC] == mac && Normalise(mac) == Some(mac)
    requires VLAN in values ==> VlanFits(h, values[VLAN])
    ensures Checked(h, rowIdx, values) == Row(rowIdx, values, None)
  {
    assert values[MAC := mac] == values;
  }

  lemma ShownMac(c: Codec, d: Item, values: map<string, string>)
    requires Faithful(c) && WellFormed(d) && Shows(c.host, values, KNOWN, Exported(c, d))
    ensures MAC in values && values[MAC] == d.mac
  {
    ShowsAt(c.host, values, KNOWN, Exported(c, d), 0);
    TrimKeepsMac(c, d.mac);
  }

  lemma ShownVlan(c: Codec, d: Item, values: map<string, string>)
    requires Faithful(c) && WellFormed(d) && Shows(c.host, values, KNOWN, Exported(c, d))
    ensures VLAN in values ==> VlanFits(c.host, values[VLAN])
  {
    ShowsAt(c.host, values, KNOWN, Exported(c, d), 4);
    NumberTextReadsBack(c, d.vlan);
    assert Exported(c, d)[4] == NumberText(c, d.vlan);
  }

  lemma RowIsClean(c: Codec, d: Item, row: Row, rowIdx: nat)
    requires Faithful(c) && WellFormed(d) && RowOf(c.host, row, rowIdx, Exported(c, d))
    ensures IsClean(row, d)
  {
    var values: map<string, string> :| Shows(c.host, values, KNOWN, Exported(c, d)) && row == Checked(c.host, rowIdx, values);
    ShownMac(c, d, values);
    ShownVlan(c, d, values);
    NormalFormExactly(d.mac);
    CheckedClean(c.host, rowIdx, values, d.mac);
  }
}
