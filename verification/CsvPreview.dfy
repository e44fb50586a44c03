/**
 The import preview of MAB devices: a CSV text becomes rows with per-row errors. What belongs to
 the host language (white space, case folding, number parsing) is a parameter.
 */
module CsvPreview {
  import opened Wrappers
  import opened CsvRow
  import opened MacAddress

  datatype Host = Host(space: char -> bool, lower: string -> string, number: string -> Option<int>)

  const MAC := "mac_address"
  const VLAN := "assigned_vlan_id"
  const KNOWN := [MAC, "name", "description", "device_type", VLAN, "expiry_date"]

  datatype RowError = MacEmpty | MacInvalid(raw: string) | VlanInvalid(raw: string)

  datatype Row = Row(rowIdx: nat, values: map<string, string>, error: Option<RowError>)

  datatype Preview = Empty | MacColumnMissing | Rows(rows: seq<Row>)

  /** Lines end in a line feed, with or without a carriage return before it. */
  function Lines(rest: string, cur: string): (lines: seq<string>)
    decreases |rest|
  {
    if rest == "" then [cur]
    else if rest[0] == '\n' then [WithoutReturn(cur)] + Lines(rest[1..], "")
    else Lines(rest[1..], cur + [rest[0]])
  }

  function WithoutReturn(line: string): string {
    if line != "" && line[|line| - 1] == '\r' then line[..|line| - 1] else line
  }

  function NonBlank(space: char -> bool, lines: seq<string>): seq<string> {
    if lines == [] then []
    else if Trim(space, lines[0]) == "" then NonBlank(space, lines[1..])
    else [lines[0]] + NonBlank(space, lines[1..])
  }

  function Cells(h: Host, line: string): seq<string> {
    TrimAll(h.space, Fields(line, "", false))
  }

  function Headers(h: Host, line: string): seq<string> {
    var cells := Cells(h, line);
    seq(|cells|, i requires 0 <= i < |cells| => h.lower(cells[i]))
  }

  function IndexOf(headers: seq<string>, name: string): (k: Option<nat>)
    ensures k.Some? ==> k.value < |headers| && headers[k.value] == name && name !in headers[..k.value]
    ensures k.None? <==> name !in headers
  {
    if headers == [] then None
    else if headers[0] == name then Some(0)
    else match IndexOf(headers[1..], name)
      case None => None
      case Some(k) => Some(k + 1)
  }

  /** The text under a column; blank when the column or the cell is missing. */
  function Value(h: Host, headers: seq<string>, cells: seq<string>, name: string): string {
    match IndexOf(headers, name)
    case None => ""
    case Some(k) => if k < |cells| then Trim(h.space, cells[k]) else ""
  }

  /** The columns among `names` that are not blank. */
  function Values(h: Host, names: seq<string>, headers: seq<string>, cells: seq<string>): map<string, string> {
    map name | name in names && Value(h, headers, cells, name) != "" :: Value(h, headers, cells, name)
  }

  predicate VlanFits(h: Host, raw: string) {
    h.number(raw).Some? && 1 <= h.number(raw).value <= 4094
  }

  function Checked(h: Host, rowIdx: nat, values: map<string, string>): Row {
    if MAC !in values then Row(rowIdx, values, Some(MacEmpty)) else
    match Normalise(values[MAC])
    case None => Row(rowIdx, values, Some(MacInvalid(values[MAC])))
    case Some(mac) =>
      if VLAN in values && !VlanFits(h, values[VLAN])
      then Row(rowIdx, values[MAC := mac], Some(VlanInvalid(values[VLAN])))
      else Row(rowIdx, values[MAC := mac], None)
  }

  function PreviewRow(h: Host, headers: seq<string>, line: string, rowIdx: nat): Row {
    Checked(h, rowIdx, Values(h, KNOWN, headers, Cells(h, line)))
  }

  /** Every line but the first is a row; rows are numbered as a reader counts lines. */
  function PreviewRows(h: Host, headers: seq<string>, lines: seq<string>): seq<Row>
    requires lines != []
  {
    seq(|lines| - 1, i requires 0 <= i < |lines| - 1 => PreviewRow(h, headers, lines[i + 1], i + 2))
  }

  function PreviewOf(h: Host, text: string): Preview {
    var lines := NonBlank(h.space, Lines(text, ""));
    if lines == [] then Empty
    else if MAC !in Headers(h, lines[0]) then MacColumnMissing
    else Rows(PreviewRows(h, Headers(h, lines[0]), lines))
  }

  method ReadValues(h: Host, names: seq<string>, headers: seq<string>, cells: seq<string>) returns (values: map<string, string>)
    ensures values == Values(h, names, headers, cells)
  {
    values := map[];
    for k := 0 to |names|
      invariant values == Values(h, names[..k], headers, cells)
    {
      assert forall name :: name in names[..k + 1] <==> name in names[..k] || name == names[k];
      var v := Value(h, headers, cells, names[k]);
      if v != "" {
        values := values[names[k] := v];
      }
    }
    assert names[..|names|] == names;
  }

  method ReadRow(h: Host, headers: seq<string>, line: string, rowIdx: nat) returns (row: Row)
    ensures row == PreviewRow(h, headers, line, rowIdx)
  {
    var cells := SplitRow(h.space, line);
    var values := ReadValues(h, KNOWN, headers, cells);
    if MAC !in values {
      return Row(rowIdx, values, Some(MacEmpty));
    }
    var raw := values[MAC];
    var mac := Normalise(raw);
    if mac.None? {
      return Row(rowIdx, values, Some(MacInvalid(raw)));
    }
    var error: Option<RowError> := None;
    if VLAN in values && !VlanFits(h, values[VLAN]) {
      error := Some(VlanInvalid(values[VLAN]));
    }
    return Row(rowIdx, values[MAC := mac.value], error);
  }

  method ParseCsv(h: Host, text: string) returns (p: Preview)
    ensures p == PreviewOf(h, text)
  {
    var lines := NonBlank(h.space, Lines(text, ""));
    if lines == [] {
      return Empty;
    }
    var cells := SplitRow(h.space, lines[0]);
    var headers := seq(|cells|, i requires 0 <= i < |cells| => h.lower(cells[i]));
    assert headers == Headers(h, lines[0]);
    if MAC !in headers {
      return MacColumnMissing;
    }
    var rows := ReadRows(h, headers, lines);
    return Rows(rows);
  }

  method ReadRows(h: Host, headers: seq<string>, lines: seq<string>) returns (rows: seq<Row>)
    requires lines != []
    ensures rows == PreviewRows(h, headers, lines)
  {
    rows := [];
    for i := 1 to |lines|
      invariant |rows| == i - 1
      invariant forall k :: 0 <= k < i - 1 ==> rows[k] == PreviewRow(h, headers, lines[k + 1], k + 2)
    {
      var row := ReadRow(h, headers, lines[i], i + 1);
      rows := rows + [row];
    }
  }

  // ---------------------------------------------------------------------------
  // Reading back an exported file
  // ---------------------------------------------------------------------------

  /** Rows the writer can produce that stay on one line; line breaks inside a cell are not supported. */
  predicate OneLine(cells: seq<Cell>) {
    && Legal(cells)
    && forall i :: 0 <= i < |cells| ==> '\n' !in cells[i].text && (!cells[i].quoted ==> '\r' !in cells[i].text)
  }

  function PrintFile(rows: seq<seq<Cell>>): string
    requires forall i :: 0 <= i < |rows| ==> rows[i] != []
  {
    if rows == [] then "" else PrintRow(rows[0]) + ['\n'] + PrintFile(rows[1..])
  }

  lemma {:induction false} EscapedStays(text: string)
    requires '\n' !in text
    ensures '\n' !in Escaped(text)
    decreases |text|
  {
    if text != "" {
      EscapedStays(text[1..]);
    }
  }

  lemma {:induction false} RowStaysOnItsLine(cells: seq<Cell>)
    requires OneLine(cells)
    ensures '\n' !in PrintRow(cells) && WithoutReturn(PrintRow(cells)) == PrintRow(cells)
    ensures |cells| >= 2 ==> COMMA in PrintRow(cells)
    decreases |cells|
  {
    EscapedStays(cells[0].text);
    var first := PrintCell(cells[0]);
    if |cells| > 1 {
      var rest := PrintRow(cells[1..]);
      RowStaysOnItsLine(cells[1..]);
      assert PrintRow(cells)[|first|] == COMMA;
      if rest != "" {
        assert PrintRow(cells)[|PrintRow(cells)| - 1] == rest[|rest| - 1];
      } else {
        assert PrintRow(cells)[|PrintRow(cells)| - 1] == COMMA;
      }
    } else if first != "" {
      assert !cells[0].quoted ==> first[|first| - 1] in cells[0].text;
    }
  }

  lemma {:induction false} LinesOfRow(line: string, tail: string, cur: string)
    requires '\n' !in line
    ensures Lines(line + ['\n'] + tail, cur) == [WithoutReturn(cur + line)] + Lines(tail, "")
    decreases |line|
  {
    var rest := line + ['\n'] + tail;
    if line == "" {
      assert rest == ['\n'] + tail && rest[1..] == tail && cur + line == cur;
    } else {
      assert rest[1..] == line[1..] + ['\n'] + tail;
      LinesOfRow(line[1..], tail, cur + [line[0]]);
      assert cur + [line[0]] + line[1..] == cur + line;
    }
  }

  lemma {:induction false} LeftOfVisible(space: char -> bool, s: string, i: nat)
    requires i < |s| && !space(s[i])
    ensures s[i] in TrimLeft(space, s)
    decreases |s|
  {
    if space(s[0]) {
      LeftOfVisible(space, s[1..], i - 1);
    }
  }

  lemma {:induction false} RightOfVisible(space: char -> bool, s: string, c: char)
    requires c in s && !space(c)
    ensures TrimRight(space, s) != ""
    decreases |s|
  {
    if space(s[|s| - 1]) {
      assert s == s[..|s| - 1] + [s[|s| - 1]];
      RightOfVisible(space, s[..|s| - 1], c);
    }
  }

  lemma VisibleStays(space: char -> bool, s: string, c: char)
    requires c in s && !space(c)
    ensures Trim(space, s) != ""
  {
    var i :| 0 <= i < |s| && s[i] == c;
    LeftOfVisible(space, s, i);
    RightOfVisible(space, TrimLeft(space, s), c);
  }

  function PrintedRows(rows: seq<seq<Cell>>): seq<string>
    requires forall i :: 0 <= i < |rows| ==> rows[i] != []
  {
    seq(|rows|, i requires 0 <= i < |rows| => PrintRow(rows[i]))
  }

  lemma FirstLine(space: char -> bool, cells: seq<Cell>, tail: string)
    requires OneLine(cells) && |cells| >= 2 && !space(COMMA)
    ensures var line := PrintRow(cells);
            NonBlank(space, Lines(line + ['\n'] + tail, "")) == [line] + NonBlank(space, Lines(tail, ""))
  {
    var line, rest := PrintRow(cells), Lines(tail, "");
    RowStaysOnItsLine(cells);
    LinesOfRow(line, tail, "");
    assert "" + line == line;
    VisibleStays(space, line, COMMA);
    assert ([line] + rest)[1..] == rest;
  }

  /** The non-blank lines of a written file are its rows. */
  lemma {:induction false} LinesOfFile(space: char -> bool, rows: seq<seq<Cell>>)
    requires !space(COMMA)
    requires forall i :: 0 <= i < |rows| ==> OneLine(rows[i]) && |rows[i]| >= 2
    ensures NonBlank(space, Lines(PrintFile(rows), "")) == PrintedRows(rows)
    decreases |rows|
  {
    if rows == [] {
      assert Lines("", "") == [""];
    } else {
      FirstLine(space, rows[0], PrintFile(rows[1..]));
      LinesOfFile(space, rows[1..]);
      assert PrintedRows(rows) == [PrintRow(rows[0])] + PrintedRows(rows[1..]);
    }
  }

  /** A host that agrees with the header names: lower case already, and no white space in them. */
  ghost predicate Sane(h: Host) {
    && !h.space(COMMA)
    && forall i :: 0 <= i < |KNOWN| ==> h.lower(KNOWN[i]) == KNOWN[i] && Trim(h.space, KNOWN[i]) == KNOWN[i]
  }

  lemma KnownIndex(i: nat)
    requires i < |KNOWN|
    ensures IndexOf(KNOWN, KNOWN[i]) == Some(i)
  {
    assert |KNOWN[0]| == 11 && |KNOWN[1]| == 4 && |KNOWN[2]| == 11 && |KNOWN[3]| == 11 && |KNOWN[4]| == 16 && |KNOWN[5]| == 11;
    assert KNOWN[0][0] == 'm' && KNOWN[2][0] == 'd' && KNOWN[2][2] == 's' && KNOWN[3][0] == 'd' && KNOWN[3][2] == 'v' && KNOWN[5][0] == 'e';
    var k := IndexOf(KNOWN, KNOWN[i]);
    assert KNOWN[k.value] == KNOWN[i];
  }

  /** What the preview shows of a record: its visible cells, trimmed, each under its column. */
  ghost predicate Shows(h: Host, values: map<string, string>, names: seq<string>, texts: seq<string>)
    requires |texts| == |names|
  {
    && (forall name :: name in values ==> name in names)
    && forall i :: 0 <= i < |names| ==>
         && (names[i] in values <==> Trim(h.space, texts[i]) != "")
         && (names[i] in values ==> values[names[i]] == Trim(h.space, texts[i]))
  }

  lemma ValuesOfRecord(h: Host, names: seq<string>, texts: seq<string>)
    requires |texts| == |names| && forall i :: 0 <= i < |names| ==> IndexOf(names, names[i]) == Some(i)
    ensures Shows(h, Values(h, names, names, TrimAll(h.space, texts)), names, texts)
  {
    forall i | 0 <= i < |names| ensures Value(h, names, TrimAll(h.space, texts), names[i]) == Trim(h.space, texts[i]) {
      TrimTwice(h.space, texts[i]);
    }
  }

  /** A preview row is the checked record: what its cells show, before the address is normalised. */
  ghost predicate RowOf(h: Host, row: Row, rowIdx: nat, texts: seq<string>)
    requires |texts| == |KNOWN|
  {
    exists values: map<string, string> :: Shows(h, values, KNOWN, texts) && row == Checked(h, rowIdx, values)
  }

  lemma PreviewOfRow(h: Host, cells: seq<Cell>, rowIdx: nat)
    requires Legal(cells) && |cells| == |KNOWN|
    ensures RowOf(h, PreviewRow(h, KNOWN, PrintRow(cells), rowIdx), rowIdx, Texts(cells))
  {
    SplitOfPrint(cells);
    forall i | 0 <= i < |KNOWN| ensures IndexOf(KNOWN, KNOWN[i]) == Some(i) {
      KnownIndex(i);
    }
    ValuesOfRecord(h, KNOWN, Texts(cells));
  }

  lemma HeaderOfFile(h: Host, header: seq<Cell>)
    requires Sane(h) && Legal(header) && Texts(header) == KNOWN
    ensures Headers(h, PrintRow(header)) == KNOWN
  {
    SplitOfPrint(header);
    var headers := Headers(h, PrintRow(header));
    forall i | 0 <= i < |KNOWN| ensures headers[i] == KNOWN[i] {
    }
  }

  lemma RowsOfFile(h: Host, file: seq<seq<Cell>>, i: nat)
    requires forall i :: 0 <= i < |file| ==> file[i] != []
    requires i + 1 < |file| && Legal(file[i + 1]) && |file[i + 1]| == |KNOWN|
    ensures RowOf(h, PreviewRows(h, KNOWN, PrintedRows(file))[i], i + 2, Texts(file[i + 1]))
  {
    PreviewOfRow(h, file[i + 1], i + 2);
  }

  lemma PreviewOfLines(h: Host, text: string, lines: seq<string>)
    requires NonBlank(h.space, Lines(text, "")) == lines && lines != [] && Headers(h, lines[0]) == KNOWN
    ensures PreviewOf(h, text) == Rows(PreviewRows(h, KNOWN, lines))
  {
    assert KNOWN[0] == MAC;
  }

  /** The preview of a written file shows every record, in order, under any legal quoting. */
  lemma PreviewOfFile(h: Host, file: seq<seq<Cell>>)
    requires Sane(h) && file != [] && Texts(file[0]) == KNOWN
    requires forall i :: 0 <= i < |file| ==> OneLine(file[i]) && |file[i]| == |KNOWN|
    ensures var p := PreviewOf(h, PrintFile(file));
            && p.Rows? && |p.rows| == |file| - 1
            && forall i :: 0 <= i < |file| - 1 ==> RowOf(h, p.rows[i], i + 2, Texts(file[i + 1]))
  {
    LinesOfFile(h.space, file);
    HeaderOfFile(h, file[0]);
    PreviewOfLines(h, PrintFile(file), PrintedRows(file));
    forall i | 0 <= i < |file| - 1
      ensures RowOf(h, PreviewRows(h, KNOWN, PrintedRows(file))[i], i + 2, Texts(file[i + 1])) {
      RowsOfFile(h, file, i);
    }
  }
}
