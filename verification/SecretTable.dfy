/** A table column that holds secrets, as the maintenance scripts read and rewrite it. */
module SecretTable {
  import opened Wrappers

  datatype Row = Row(id: nat, val: Option<string>)

  /** `id` is the primary key. */
  predicate DistinctIds(rows: seq<Row>) {
    forall i, j :: 0 <= i < j < |rows| ==> rows[i].id != rows[j].id
  }

  predicate Empty(row: Row) {
    row.val.None? || row.val.value == ""
  }

  /** UPDATE ... SET column = text WHERE id = ... */
  function Updated(rows: seq<Row>, id: nat, text: string): (updated: seq<Row>)
    ensures |updated| == |rows|
    ensures forall i :: 0 <= i < |rows| ==> updated[i] == if rows[i].id == id then Row(id, Some(text)) else rows[i]
  {
    seq(|rows|, i requires 0 <= i < |rows| => if rows[i].id == id then Row(id, Some(text)) else rows[i])
  }

  class Column {
    var rows: seq<Row>

    constructor (rows: seq<Row>)
      ensures this.rows == rows
    {
      this.rows := rows;
    }

    method Update(id: nat, text: string)
      modifies this
      ensures rows == Updated(old(rows), id, text)
    {
      rows := Updated(rows, id, text);
    }
  }
}
