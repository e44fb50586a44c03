/**
 What becomes of the texts of an import file: blanks around them, digits of an address, columns by
 their folded names, and exactly which records are refused.
 */
module MabForms {
  import opened Wrappers
  import opened MacAddress
  import opened CsvRow
  import opened CsvPreview
  import opened MabDevices

  // ---------------------------------------------------------------------------
  // White space around a text
  // ---------------------------------------------------------------------------

  predicate AllSpace(space: char -> bool, s: string) {
    forall i :: 0 <= i < |s| ==> space(s[i])
  }

  predicate Tight(space: char -> bool, s: string) {
    s != "" ==> !space(s[0]) && !space(s[|s| - 1])
  }

  lemma {:induction false} LeftSpace(space: char -> bool, front: string, rest: string)
    requires AllSpace(space, front) && (rest != "" ==> !space(rest[0]))
    ensures TrimLeft(space, front + rest) == rest
    decreases |front|
  {
    if front == "" {
      assert front + rest == rest;
    } else {
      assert (front + rest)[1..] == front[1..] + rest;
      LeftSpace(space, front[1..], rest);
    }
  }

  lemma {:induction false} RightSpace(space: char -> bool, front: string, rest: string)
    requires AllSpace(space, rest) && (front != "" ==> !space(front[|front| - 1]))
    ensures TrimRight(space, front + rest) == front
    decreases |rest|
  {
    if rest == "" {
      assert front + rest == front;
    } else {
      assert (front + rest)[..|front + rest| - 1] == front + rest[..|rest| - 1];
      RightSpace(space, front, rest[..|rest| - 1]);
    }
  }

  /** Trimming takes away the white space on both sides and nothing else. */
  lemma TrimExactly(space: char -> bool, front: string, s: string, back: string)
    requires AllSpace(space, front) && AllSpace(space, back) && Tight(space, s)
    ensures Trim(space, front + s + back) == s
  {
    assert front + s + back == front + (s + back);
    if s == "" {
      assert front + (s + back) == (front + back) + "";
      assert AllSpace(space, front + back);
      LeftSpace(space, front + back, "");
    } else {
      LeftSpace(space, front, s + back);
      RightSpace(space, s, back);
    }
  }

  // ---------------------------------------------------------------------------
  // The digits of an address
  // ---------------------------------------------------------------------------

  function HexValue(c: char): int
    requires IsHex(c)
  {
    if '0' <= c <= '9' then c as int - '0' as int
    else if 'a' <= c <= 'f' then 10 + (c as int - 'a' as int)
    else 10 + (c as int - 'A' as int)
  }

  /** The digits are taken in order, and every other character is left out. */
  lemma {:induction false} DigitsInOrder(front: string, rest: string)
    ensures HexDigits(front + rest) == HexDigits(front) + HexDigits(rest)
    decreases |front|
  {
    if front == "" {
      assert front + rest == rest;
    } else {
      assert (front + rest)[1..] == front[1..] + rest;
      DigitsInOrder(front[1..], rest);
    }
  }

  lemma LowerKeepsValue(c: char)
    requires IsHex(c)
    ensures IsHex(Lower(c)) && HexValue(Lower(c)) == HexValue(c)
  {
  }

  /** Digit `k` of the normal form stands behind as many whole pairs and their colons. */
  function DigitAt(k: nat): nat {
    k / 2 * 3 + k % 2
  }

  lemma {:induction false} PairsKeepDigits(hex: string, k: nat)
    requires k < |hex| && |hex| % 2 == 0 && forall i :: 0 <= i < |hex| ==> IsHex(hex[i])
    ensures DigitAt(k) < |Pairs(hex)| && Pairs(hex)[DigitAt(k)] == Lower(hex[k])
    decreases |hex|
  {
    if |hex| > 2 && k >= 2 {
      PairsKeepDigits(hex[2..], k - 2);
      assert DigitAt(k) == DigitAt(k - 2) + 3;
    }
  }

  /** Twelve digits, no more and no fewer, make an address, and its digits are those twelve. */
  lemma NormaliseExactly(raw: string, k: nat)
    requires k < 12
    ensures Normalise(raw).Some? <==> |HexDigits(raw)| == 12
    ensures Normalise(raw).Some? ==>
              var s := Normalise(raw).value;
              && DigitAt(k) < |s| == 17 && IsHex(s[DigitAt(k)]) && HexValue(s[DigitAt(k)]) == HexValue(HexDigits(raw)[k])
  {
    if |HexDigits(raw)| == 12 {
      PairsArePaired(HexDigits(raw));
      PairsKeepDigits(HexDigits(raw), k);
      LowerKeepsValue(HexDigits(raw)[k]);
    }
  }

  // ---------------------------------------------------------------------------
  // A record, validated
  // ---------------------------------------------------------------------------

  /** Under the folded name stands the trimmed text of the last column with that name. */
  lemma {:induction false} LastColumnCounts(h: Host, r: Record, i: nat)
    requires i < |r|
    requires forall j :: i < j < |r| ==> h.lower(Trim(h.space, r[j].0)) != h.lower(Trim(h.space, r[i].0))
    ensures var row, name := Folded(h, r), h.lower(Trim(h.space, r[i].0));
            name in row && row[name] == Trim(h.space, r[i].1)
    decreases |r|
  {
    if i < |r| - 1 {
      LastColumnCounts(h, r[..|r| - 1], i);
    }
  }

  lemma {:induction false} NoOtherColumns(h: Host, r: Record, name: string)
    requires forall j :: 0 <= j < |r| ==> h.lower(Trim(h.space, r[j].0)) != name
    ensures name !in Folded(h, r)
    decreases |r|
  {
    if r != [] {
      NoOtherColumns(h, r[..|r| - 1], name);
    }
  }

  predicate Given(row: map<string, string>, name: string) {
    name in row && row[name] != ""
  }

  predicate AddressReads(row: map<string, string>) {
    Given(row, "mac_address") && |HexDigits(row["mac_address"])| == 12
  }

  predicate VlanReads(c: Codec, row: map<string, string>) {
    Given(row, "assigned_vlan_id") ==>
      var n := c.host.number(row["assigned_vlan_id"]);
      n.Some? && 1 <= n.value <= 4094
  }

  predicate DateReads(c: Codec, row: map<string, string>) {
    Given(row, "expiry_date") ==> c.moment(row["expiry_date"]).Some?
  }

  function Optional(row: map<string, string>, name: string): Option<string> {
    if Given(row, name) then Some(row[name]) else None
  }

  /** A record is taken exactly when its address, its VLAN and its date all read, the last two also when left out. */
  lemma ValidatedExactly(c: Codec, row: map<string, string>)
    ensures Validated(c, row).Some? <==> AddressReads(row) && VlanReads(c, row) && DateReads(c, row)
    ensures Validated(c, row).Some? ==>
              var item := Validated(c, row).value;
              && Some(item.mac) == Normalise(row["mac_address"])
              && item.name == Optional(row, "name") && item.description == Optional(row, "description")
              && item.kind == Optional(row, "device_type")
              && (if Given(row, "assigned_vlan_id") then item.vlan == c.host.number(row["assigned_vlan_id"]) else item.vlan == None)
              && (if Given(row, "expiry_date") then item.expiry == c.moment(row["expiry_date"]) else item.expiry == None)
  {
  }

  /** Row numbers count the header as 1 and blank records too. */
  lemma {:induction false} ErrorRows(readings: seq<Reading>, n: nat, row: nat)
    requires n <= |readings|
    ensures BadRow(row) in ErrorsOf(readings, n) <==> 2 <= row < n + 2 && readings[row - 2].Refused?
    decreases n
  {
    if n > 0 {
      ErrorRows(readings, n - 1, row);
    }
  }

  lemma {:induction false} ItemsAreAccepted(readings: seq<Reading>, n: nat, item: Item)
    requires n <= |readings|
    ensures item in ItemsOf(readings, n) <==> exists i :: 0 <= i < n && readings[i] == Accepted(item)
    decreases n
  {
    if n > 0 {
      ItemsAreAccepted(readings, n - 1, item);
    }
  }

  // ---------------------------------------------------------------------------
  // The preview of any file
  // ---------------------------------------------------------------------------

  /** A line feed ends a line, and a carriage return before it belongs to the line end. */
  lemma LineEnds(line: string, tail: string)
    requires '\n' !in line && (line != "" ==> line[|line| - 1] != '\r')
    ensures Lines(line + "\n" + tail, "") == [line] + Lines(tail, "")
    ensures Lines(line + "\r\n" + tail, "") == [line] + Lines(tail, "")
  {
    LinesOfRow(line, tail, "");
    assert "" + line == line && line + "\n" + tail == line + ['\n'] + tail;
    LinesOfRow(line + "\r", tail, "");
    assert "" + (line + "\r") == line + "\r";
    assert line + "\r\n" + tail == (line + "\r") + ['\n'] + tail;
    assert (line + "\r")[..|line|] == line;
  }

  /** A column is found under its header in any letter case and with any white space around it; the first of its name counts. */
  lemma ColumnFound(h: Host, line: string, cells: seq<string>, k: nat)
    requires k < |Fields(line, "", false)|
    requires var names := Fields(line, "", false);
             forall j :: 0 <= j < k ==> h.lower(Trim(h.space, names[j])) != h.lower(Trim(h.space, names[k]))
    ensures var name := h.lower(Trim(h.space, Fields(line, "", false)[k]));
            Value(h, Headers(h, line), cells, name) == if k < |cells| then Trim(h.space, cells[k]) else ""
  {
    FirstIndex(Headers(h, line), k);
  }

  lemma {:induction false} FirstIndex(headers: seq<string>, k: nat)
    requires k < |headers| && forall j :: 0 <= j < k ==> headers[j] != headers[k]
    ensures IndexOf(headers, headers[k]) == Some(k)
    decreases |headers|
  {
    if k > 0 {
      FirstIndex(headers[1..], k - 1);
    }
  }

  /** What is wrong with a row of the preview: no address, one that does not read, or a VLAN that does not. */
  lemma RowErrors(h: Host, rowIdx: nat, values: map<string, string>)
    ensures var row := Checked(h, rowIdx, values);
            && row.rowIdx == rowIdx
            && (row.error == Some(MacEmpty) <==> "mac_address" !in values)
            && ("mac_address" in values ==>
                  var raw := values["mac_address"];
                  && (row.error == Some(MacInvalid(raw)) <==> |HexDigits(raw)| != 12)
                  && row.values == (if |HexDigits(raw)| == 12 then values["mac_address" := Pairs(HexDigits(raw))] else values)
                  && (row.error == None <==>
                        && |HexDigits(raw)| == 12
                        && ("assigned_vlan_id" in values ==>
                              var n := h.number(values["assigned_vlan_id"]);
                              n.Some? && 1 <= n.value <= 4094)))
            && (row.error.Some? && row.error.value.VlanInvalid? ==>
                  "assigned_vlan_id" in values && row.error.value.raw == values["assigned_vlan_id"])
  {
  }

  /** The preview is empty exactly when every line is white space. */
  lemma EmptyExactly(h: Host, text: string)
    ensures PreviewOf(h, text).Empty? <==> forall line :: line in Lines(text, "") ==> Trim(h.space, line) == ""
  {
    NoLineLeft(h.space, Lines(text, ""));
  }

  lemma {:induction false} NoLineLeft(space: char -> bool, lines: seq<string>)
    ensures NonBlank(space, lines) == [] <==> forall line :: line in lines ==> Trim(space, line) == ""
    decreases |lines|
  {
    if lines != [] {
      NoLineLeft(space, lines[1..]);
      assert forall line :: line in lines <==> line == lines[0] || line in lines[1..];
    }
  }
}
