/** The hand-written splitter of one CSV row, and the writer whose rows it undoes. */
module CsvRow {
  const COMMA := ','
  const QUOTE := '"'

  /** The fields of what is left of a row, the first of them begun as `cur`. */
  function Fields(rest: string, cur: string, inQuotes: bool): (fields: seq<string>)
    ensures |fields| >= 1
    decreases |rest|
  {
    if rest == "" then [cur]
    else if inQuotes then
      if rest[0] == QUOTE && |rest| > 1 && rest[1] == QUOTE then Fields(rest[2..], cur + [QUOTE], true)
      else if rest[0] == QUOTE then Fields(rest[1..], cur, false)
      else Fields(rest[1..], cur + [rest[0]], true)
    else if rest[0] == COMMA then [cur] + Fields(rest[1..], "", false)
    else if rest[0] == QUOTE then Fields(rest[1..], cur, true)
    else Fields(rest[1..], cur + [rest[0]], false)
  }

  function TrimLeft(space: char -> bool, s: string): string {
    if s != "" && space(s[0]) then TrimLeft(space, s[1..]) else s
  }

  function TrimRight(space: char -> bool, s: string): string {
    if s != "" && space(s[|s| - 1]) then TrimRight(space, s[..|s| - 1]) else s
  }

  function Trim(space: char -> bool, s: string): string {
    TrimRight(space, TrimLeft(space, s))
  }

  function TrimAll(space: char -> bool, fields: seq<string>): seq<string> {
    seq(|fields|, i requires 0 <= i < |fields| => Trim(space, fields[i]))
  }

  method SplitRow(space: char -> bool, row: string) returns (fields: seq<string>)
    ensures fields == TrimAll(space, Fields(row, "", false))
  {
    var out: seq<string>, cur, inQuotes := [], "", false;
    var i := 0;
    while i < |row|
      invariant 0 <= i <= |row|
      invariant out + Fields(row[i..], cur, inQuotes) == Fields(row, "", false)
    {
      var ch := row[i];
      assert row[i..][1..] == row[i + 1..];
      if inQuotes {
        if ch == QUOTE && i + 1 < |row| && row[i + 1] == QUOTE {
          assert row[i..][2..] == row[i + 2..];
          cur := cur + [QUOTE];
          i := i + 1;
        } else if ch == QUOTE {
          inQuotes := false;
        } else {
          cur := cur + [ch];
        }
      } else {
        if ch == COMMA {
          assert out + ([cur] + Fields(row[i + 1..], "", false)) == (out + [cur]) + Fields(row[i + 1..], "", false);
          out := out + [cur];
          cur := "";
        } else if ch == QUOTE {
          inQuotes := true;
        } else {
          cur := cur + [ch];
        }
      }
      i := i + 1;
    }
    out := out + [cur];
    return TrimAll(space, out);
  }

  // ---------------------------------------------------------------------------
  // The writer: section 2 of RFC 4180, with any choice of what else to quote
  // ---------------------------------------------------------------------------

  datatype Cell = Cell(text: string, quoted: bool)

  predicate IsPlain(text: string) {
    COMMA !in text && QUOTE !in text
  }

  predicate Legal(cells: seq<Cell>) {
    cells != [] && forall i :: 0 <= i < |cells| && !cells[i].quoted ==> IsPlain(cells[i].text)
  }

  function Escaped(text: string): string {
    if text == "" then ""
    else (if text[0] == QUOTE then [QUOTE, QUOTE] else [text[0]]) + Escaped(text[1..])
  }

  function PrintCell(c: Cell): string {
    if c.quoted then [QUOTE] + Escaped(c.text) + [QUOTE] else c.text
  }

  function PrintRow(cells: seq<Cell>): string
    requires cells != []
  {
    if |cells| == 1 then PrintCell(cells[0]) else PrintCell(cells[0]) + [COMMA] + PrintRow(cells[1..])
  }

  function Texts(cells: seq<Cell>): seq<string> {
    seq(|cells|, i requires 0 <= i < |cells| => cells[i].text)
  }

  lemma {:induction false} ReadEscaped(text: string, tail: string, cur: string)
    requires tail == "" || tail[0] == COMMA
    ensures Fields(Escaped(text) + [QUOTE] + tail, cur, true) == Fields(tail, cur + text, false)
    decreases |text|
  {
    var rest := Escaped(text) + [QUOTE] + tail;
    if text == "" {
      assert rest == [QUOTE] + tail && rest[1..] == tail && cur + text == cur;
    } else {
      var next := Escaped(text[1..]) + [QUOTE] + tail;
      ReadEscaped(text[1..], tail, cur + [text[0]]);
      assert cur + [text[0]] + text[1..] == cur + text;
      if text[0] == QUOTE {
        assert rest == [QUOTE, QUOTE] + next && rest[2..] == next;
      } else {
        assert rest == [text[0]] + next && rest[1..] == next;
      }
    }
  }

  lemma {:induction false} ReadPlain(text: string, tail: string, cur: string)
    requires IsPlain(text)
    ensures Fields(text + tail, cur, false) == Fields(tail, cur + text, false)
    decreases |text|
  {
    if text == "" {
      assert text + tail == tail && cur + text == cur;
    } else {
      assert (text + tail)[1..] == text[1..] + tail;
      ReadPlain(text[1..], tail, cur + [text[0]]);
      assert cur + [text[0]] + text[1..] == cur + text;
    }
  }

  lemma ReadCell(c: Cell, tail: string)
    requires !c.quoted ==> IsPlain(c.text)
    requires tail == "" || tail[0] == COMMA
    ensures Fields(PrintCell(c) + tail, "", false) == Fields(tail, c.text, false)
  {
    if c.quoted {
      var body := Escaped(c.text) + [QUOTE] + tail;
      assert PrintCell(c) + tail == [QUOTE] + body && ([QUOTE] + body)[1..] == body;
      ReadEscaped(c.text, tail, "");
      assert "" + c.text == c.text;
    } else {
      ReadPlain(c.text, tail, "");
      assert "" + c.text == c.text;
    }
  }

  /** Splitting undoes writing, for all texts and every legal choice of quotes. */
  lemma {:induction false} SplitOfPrint(cells: seq<Cell>)
    requires Legal(cells)
    ensures Fields(PrintRow(cells), "", false) == Texts(cells)
    decreases |cells|
  {
    if |cells| == 1 {
      ReadCell(cells[0], "");
      assert PrintCell(cells[0]) + "" == PrintCell(cells[0]);
    } else {
      var rest := PrintRow(cells[1..]);
      ReadCell(cells[0], [COMMA] + rest);
      assert PrintCell(cells[0]) + [COMMA] + rest == PrintCell(cells[0]) + ([COMMA] + rest);
      assert ([COMMA] + rest)[1..] == rest;
      SplitOfPrint(cells[1..]);
      assert Texts(cells) == [cells[0].text] + Texts(cells[1..]);
    }
  }

  function TotalLength(fields: seq<string>): nat {
    if fields == [] then 0 else |fields[0]| + TotalLength(fields[1..])
  }

  lemma {:induction false} QuotesAreDropped(rest: string, cur: string, inQuotes: bool)
    ensures TotalLength(Fields(rest, cur, inQuotes)) <= |cur| + |rest|
    ensures !inQuotes && QUOTE in rest ==> TotalLength(Fields(rest, cur, inQuotes)) < |cur| + |rest|
    decreases |rest|
  {
    if rest == "" {
      assert TotalLength([cur]) == |cur|;
    } else if inQuotes {
      if rest[0] == QUOTE && |rest| > 1 && rest[1] == QUOTE {
        QuotesAreDropped(rest[2..], cur + [QUOTE], true);
      } else if rest[0] == QUOTE {
        QuotesAreDropped(rest[1..], cur, false);
      } else {
        QuotesAreDropped(rest[1..], cur + [rest[0]], true);
      }
    } else if rest[0] == COMMA {
      QuotesAreDropped(rest[1..], "", false);
      assert ([cur] + Fields(rest[1..], "", false))[1..] == Fields(rest[1..], "", false);
    } else if rest[0] == QUOTE {
      QuotesAreDropped(rest[1..], cur, true);
    } else {
      QuotesAreDropped(rest[1..], cur + [rest[0]], false);
    }
  }

  lemma {:induction false} CommasSplit(rest: string, cur: string)
    ensures COMMA in rest && QUOTE !in rest ==> |Fields(rest, cur, false)| >= 2
    decreases |rest|
  {
    if rest != "" && rest[0] != COMMA && rest[0] != QUOTE {
      CommasSplit(rest[1..], cur + [rest[0]]);
    }
  }

  /** A text may stay unquoted exactly when it has neither comma nor quote. */
  lemma UnquotedExactly(text: string)
    ensures Fields(PrintCell(Cell(text, false)), "", false) == [text] <==> IsPlain(text)
  {
    QuotesAreDropped(text, "", false);
    CommasSplit(text, "");
    assert TotalLength([text]) == |text|;
    if IsPlain(text) {
      ReadCell(Cell(text, false), "");
      assert text + "" == text;
    }
  }

  lemma {:induction false} TrimLeftShape(space: char -> bool, s: string)
    ensures var t := TrimLeft(space, s); t != "" ==> !space(t[0])
    decreases |s|
  {
    if s != "" {
      TrimLeftShape(space, s[1..]);
    }
  }

  lemma {:induction false} TrimRightShape(space: char -> bool, s: string)
    ensures var t := TrimRight(space, s); t <= s && (t != "" ==> !space(t[|t| - 1]))
    decreases |s|
  {
    if s != "" {
      TrimRightShape(space, s[..|s| - 1]);
    }
  }

  lemma TrimTwice(space: char -> bool, s: string)
    ensures Trim(space, Trim(space, s)) == Trim(space, s)
  {
    TrimLeftShape(space, s);
    TrimRightShape(space, TrimLeft(space, s));
  }

  /** A split row, written again in any legal way, splits into the same fields. */
  lemma SplitPrintSplit(space: char -> bool, row: string, cells: seq<Cell>)
    requires Legal(cells) && Texts(cells) == TrimAll(space, Fields(row, "", false))
    ensures TrimAll(space, Fields(PrintRow(cells), "", false)) == TrimAll(space, Fields(row, "", false))
  {
    SplitOfPrint(cells);
    forall i | 0 <= i < |cells| ensures Trim(space, cells[i].text) == cells[i].text {
      assert Texts(cells)[i] == Trim(space, Fields(row, "", false)[i]);
      TrimTwice(space, Fields(row, "", false)[i]);
    }
  }
}
