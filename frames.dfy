/**
 * The slice of a pandas DataFrame the dashboard uses. A table is a set of
 * column names and a sequence of rows; each row keeps its index label (the
 * row's `name`), because boolean masks keep the labels of the rows they let
 * through. Every cell is a string.
 */
module Frames {

  /** One record of a sheet: column name to cell text. */
  type Record = map<string, string>

  /** A DataFrame row: its index label and its cells. */
  datatype Entry = Entry(name: nat, cells: Record)

  datatype Table = Table(columns: set<string>, rows: seq<Entry>)

  /** A pandas result, or the `KeyError` raised by `df[key]` for a column the table lacks. */
  datatype Outcome<T> = Ok(value: T) | KeyError(key: string)

  /** Every row has a cell, possibly empty, in every column and in no other. */
  ghost predicate WellFormed(t: Table)
  {
    forall e :: e in t.rows ==> e.cells.Keys == t.columns
  }

  /** The element-wise test `df[column] == value` on one row; a missing cell (NaN) never equals a string. */
  predicate Hit(e: Entry, column: string, value: string)
  {
    column in e.cells && e.cells[column] == value
  }

  /** The boolean mask `rows[rows[column] == value]`: the hits, in order, unchanged. */
  function Where(rows: seq<Entry>, column: string, value: string): (r: seq<Entry>)
    ensures forall e :: e in r <==> e in rows && Hit(e, column, value)
  {
    if rows == [] then []
    else if Hit(rows[0], column, value) then [rows[0]] + Where(rows[1..], column, value)
    else Where(rows[1..], column, value)
  }

  /** `df[column].dropna()`: the column's cells in row order; a missing cell is NaN and dropped. */
  function ColumnValues(rows: seq<Entry>, column: string): (r: seq<string>)
    ensures forall x :: x in r <==> exists e :: e in rows && Hit(e, column, x)
  {
    if rows == [] then []
    else
      var rest := ColumnValues(rows[1..], column);
      var r := if column in rows[0].cells then [rows[0].cells[column]] + rest else rest;
      forall x ensures x in r <==> exists e :: e in rows && Hit(e, column, x) {
        if column in rows[0].cells && x == rows[0].cells[column] {
          assert Hit(rows[0], column, x);
        }
        if x in rest {
          var e :| e in rows[1..] && Hit(e, column, x);
          assert e in rows;
        }
        if e :| e in rows && Hit(e, column, x) {
          if e != rows[0] {
            assert e in rows[1..];
          }
        }
      }
      r
  }

  /** The column names used by any of the records. */
  function KeysOf(records: seq<Record>): set<string>
  {
    set r, k | r in records && k in r :: k
  }

  /** The cell of `record` in `column` after `fillna('')`. */
  function CellOrBlank(record: Record, column: string): string
  {
    if column in record then record[column] else ""
  }

  /**
   * `pd.DataFrame(records).fillna('')`: one column per key used by any record,
   * a default index 0, 1, 2, ..., and '' wherever a record lacks a column.
   */
  function FromRecords(records: seq<Record>): Table
  {
    var columns := KeysOf(records);
    Table(columns, seq(|records|, i requires 0 <= i < |records| =>
      Entry(i, map c | c in columns :: CellOrBlank(records[i], c))))
  }

  /**
   * The table built from records has every column in every row, labels its
   * rows 0, 1, 2, ..., keeps every cell a record has and fills the others
   * with '' (never a null marker).
   */
  lemma FromRecordsShape(records: seq<Record>)
    ensures WellFormed(FromRecords(records))
    ensures FromRecords(records).columns == KeysOf(records)
    ensures |FromRecords(records).rows| == |records|
    ensures forall i :: 0 <= i < |records| ==> FromRecords(records).rows[i].name == i
    ensures forall i, c :: 0 <= i < |records| && c in records[i] ==> FromRecords(records).rows[i].cells[c] == records[i][c]
    ensures forall i, c :: 0 <= i < |records| && c in KeysOf(records) && c !in records[i] ==>
      FromRecords(records).rows[i].cells[c] == ""
  {
    var t := FromRecords(records);
    forall i, c | 0 <= i < |records| && c in records[i] ensures t.rows[i].cells[c] == records[i][c] {
      assert records[i] in records;
    }
  }

  /**
   * When every record uses the same keys (as the records of one sheet do),
   * `fillna` has nothing to fill: each row is exactly its record.
   */
  lemma UniformRecordsKept(records: seq<Record>, keys: set<string>)
    requires forall i :: 0 <= i < |records| ==> records[i].Keys == keys
    ensures forall i :: 0 <= i < |records| ==> FromRecords(records).rows[i].cells == records[i]
    ensures records != [] ==> FromRecords(records).columns == keys
  {
    if records != [] {
      UniformKeys(records, keys);
      forall i | 0 <= i < |records| ensures FromRecords(records).rows[i].cells == records[i] {
        UniformRowKept(records, keys, i);
      }
    }
  }

  lemma UniformKeys(records: seq<Record>, keys: set<string>)
    requires records != []
    requires forall i :: 0 <= i < |records| ==> records[i].Keys == keys
    ensures KeysOf(records) == keys
  {
    assert records[0] in records;
    forall k | k in KeysOf(records) ensures k in keys {
      var r :| r in records && k in r;
      var i :| 0 <= i < |records| && records[i] == r;
    }
  }

  lemma UniformRowKept(records: seq<Record>, keys: set<string>, i: nat)
    requires i < |records|
    requires KeysOf(records) == keys
    requires records[i].Keys == keys
    ensures FromRecords(records).rows[i].cells == records[i]
  {
    var cells := FromRecords(records).rows[i].cells;
    assert cells == map c | c in keys :: CellOrBlank(records[i], c);
  }

  /** `s` is an order-preserving selection of elements of `t`. */
  ghost predicate Subsequence<T>(s: seq<T>, t: seq<T>)
    decreases |t|
  {
    if s == [] then true
    else if t == [] then false
    else (s[0] == t[0] && Subsequence(s[1..], t[1..])) || Subsequence(s, t[1..])
  }
}
