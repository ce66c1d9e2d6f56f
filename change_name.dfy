/**
  The state-name converter: in a loaded record set, every value of the column
  named `state` that is a full state name is replaced by its postal code, and
  the record set is then written out; without such a column nothing is
  converted and nothing is written.
 */
module ChangeName {
  import opened Wrappers
  import opened StateTable

  /** One value of the record set; `None` is a missing (empty) cell. */
  type Cell = Option<string>

  /** One record: a value per column, in column order. */
  type Row = seq<Cell>

  /** The one column the converter rewrites. The check is exact: `State` is not it. */
  const StateColumn: string := "state"

  /** What a run ends in: the record set handed to the writer, or no output at all. */
  datatype Outcome =
    | Written(columns: seq<string>, rows: seq<Row>)
    | ColumnMissing

  /** A record set as the reader produces it: unique column names, every row as wide as the header. */
  predicate WellFormed(columns: seq<string>, rows: seq<Row>) {
    && (forall i, j :: 0 <= i < j < |columns| ==> columns[i] != columns[j])
    && (forall r :: 0 <= r < |rows| ==> |rows[r]| == |columns|)
  }

  // ----- One value -----

  /**
    Lookup-or-default: a value that is a name in the table becomes its code,
    and anything else, a missing cell included, is kept as it was.
   */
  function Convert(cell: Cell): (r: Cell)
    ensures r == cell || (cell.Some? && cell.value in StateAbbreviations && r == Some(StateAbbreviations[cell.value]))
    ensures r.Some? <==> cell.Some?
  {
    match cell
    case Some(name) => if name in StateAbbreviations then Some(StateAbbreviations[name]) else cell
    case None => None
  }

  /** A value that is a name in the table is replaced by that name's code, which is a postal code. */
  lemma ConvertName(name: string)
    requires name in StateAbbreviations
    ensures Convert(Some(name)) == Some(StateAbbreviations[name])
    ensures IsPostalCode(Convert(Some(name)).value)
  {
    CodesArePostalCodes();
  }

  /** A value that is not a name in the table, and a missing cell, come out unchanged. */
  lemma ConvertOther(cell: Cell)
    requires cell.None? || cell.value !in StateAbbreviations
    ensures Convert(cell) == cell
  {
  }

  /** Converting a converted value changes nothing: no code is itself a name in the table. */
  lemma ConvertIdempotent(cell: Cell)
    ensures Convert(Convert(cell)) == Convert(cell)
  {
    NoCodeIsName();
  }

  /** Two different names never end up with the same code. */
  lemma ConvertInjective(a: string, b: string)
    requires a in StateAbbreviations && b in StateAbbreviations && a != b
    ensures Convert(Some(a)) != Convert(Some(b))
  {
    TableInjective();
  }

  /** Sample lookups: Alabama becomes AL, California becomes CA and Texas becomes TX. */
  lemma KnownNames()
    ensures Convert(Some("Alabama")) == Some("AL")
    ensures Convert(Some("California")) == Some("CA")
    ensures Convert(Some("Texas")) == Some("TX")
  {
    TableLookup(0);
    TableLookup(4);
    TableLookup(42);
  }

  /** A code is kept: TX is not a name in the table. */
  lemma CodeIsKept()
    ensures Convert(Some("TX")) == Some("TX")
  {
    TableLookup(42);
    NoCodeIsName();
  }

  /** The lookup does not fold case: `california` is kept. */
  lemma LowerCaseIsKept()
    ensures Convert(Some("california")) == Some("california")
  {
    TableKeys();
  }

  /** The lookup does not trim: ` Texas` is kept. */
  lemma PaddedIsKept()
    ensures Convert(Some(" Texas")) == Some(" Texas")
  {
    TableKeys();
  }

  /** A name outside the table is kept. */
  lemma UnknownIsKept()
    ensures Convert(Some("Unknown")) == Some("Unknown")
  {
    TableKeys();
  }

  // ----- The column -----

  /** The position of the column called `name`, if there is one. */
  function ColumnIndex(columns: seq<string>, name: string): (r: Option<nat>)
    ensures r.None? <==> name !in columns
    ensures r.Some? ==> r.value < |columns| && columns[r.value] == name
    ensures r.Some? ==> forall j :: 0 <= j < r.value ==> columns[j] != name
  {
    if columns == [] then None
    else if columns[0] == name then Some(0)
    else
      match ColumnIndex(columns[1..], name)
      case None => None
      case Some(k) => Some(k + 1)
  }

  /** The rows with the value in position `col` of each one converted. */
  function ConvertColumn(rows: seq<Row>, col: nat): (r: seq<Row>)
    requires forall i :: 0 <= i < |rows| ==> col < |rows[i]|
    ensures |r| == |rows|
    ensures forall i :: 0 <= i < |rows| ==> |r[i]| == |rows[i]| && r[i][col] == Convert(rows[i][col])
    ensures forall i, j :: 0 <= i < |rows| && 0 <= j < |rows[i]| && j != col ==> r[i][j] == rows[i][j]
  {
    if rows == [] then []
    else [rows[0][col := Convert(rows[0][col])]] + ConvertColumn(rows[1..], col)
  }

  /**
    The whole conversion: with a `state` column, every value in it is
    converted and the record set is written; without one, nothing is written.
   */
  function ConvertStateNames(columns: seq<string>, rows: seq<Row>): (out: Outcome)
    requires WellFormed(columns, rows)
    ensures out.ColumnMissing? <==> StateColumn !in columns
    ensures out.Written? ==> out.columns == columns && |out.rows| == |rows| && WellFormed(out.columns, out.rows)
    ensures out.Written? ==>
      forall i, j :: 0 <= i < |rows| && 0 <= j < |columns| ==>
        out.rows[i][j] == if columns[j] == StateColumn then Convert(rows[i][j]) else rows[i][j]
  {
    match ColumnIndex(columns, StateColumn)
    case None => ColumnMissing
    case Some(col) => Written(columns, ConvertColumn(rows, col))
  }

  /** Rewrites the value in position `col` of every row, in place. */
  method ConvertColumnInPlace(rows: array<Row>, col: nat)
    requires forall i :: 0 <= i < rows.Length ==> col < |rows[i]|
    modifies rows
    ensures rows[..] == ConvertColumn(old(rows[..]), col)
  {
    for i := 0 to rows.Length
      invariant forall k :: 0 <= k < i ==> rows[k] == old(rows[k])[col := Convert(old(rows[k])[col])]
      invariant forall k :: i <= k < rows.Length ==> rows[k] == old(rows[k])
    {
      rows[i] := rows[i][col := Convert(rows[i][col])];
    }
    ghost var converted := ConvertColumn(old(rows[..]), col);
    forall k | 0 <= k < rows.Length
      ensures rows[k] == converted[k]
    {
      assert |rows[k]| == |converted[k]|;
      forall j | 0 <= j < |rows[k]|
        ensures rows[k][j] == converted[k][j]
      {
      }
    }
  }

  /**
    Checks for the `state` column and, when it is there, converts it in place
    and hands the record set to the writer.
   */
  method ConvertStateNamesInPlace(columns: seq<string>, rows: array<Row>) returns (out: Outcome)
    requires WellFormed(columns, rows[..])
    modifies rows
    ensures out == ConvertStateNames(columns, old(rows[..]))
    ensures out.Written? ==> rows[..] == out.rows
    ensures out.ColumnMissing? ==> rows[..] == old(rows[..])
  {
    var index := ColumnIndex(columns, StateColumn);
    match index
    case None =>
      out := ColumnMissing;
    case Some(col) =>
      ConvertColumnInPlace(rows, col);
      out := Written(columns, rows[..]);
  }

  // ----- Properties of the whole conversion -----

  /** Converting a converted column again changes nothing. */
  lemma {:induction false} ConvertColumnIdempotent(rows: seq<Row>, col: nat)
    requires forall i :: 0 <= i < |rows| ==> col < |rows[i]|
    ensures ConvertColumn(ConvertColumn(rows, col), col) == ConvertColumn(rows, col)
  {
    if rows != [] {
      var once := ConvertColumn(rows, col);
      assert once[1..] == ConvertColumn(rows[1..], col);
      ConvertColumnIdempotent(rows[1..], col);
      ConvertIdempotent(rows[0][col]);
      assert once[0][col := Convert(once[0][col])] == once[0];
    }
  }

  /** Running the converter on its own output writes that output again. */
  lemma ConvertStateNamesIdempotent(columns: seq<string>, rows: seq<Row>)
    requires WellFormed(columns, rows)
    ensures ConvertStateNames(columns, rows).Written? ==>
      var out := ConvertStateNames(columns, rows);
      ConvertStateNames(out.columns, out.rows) == out
  {
    match ColumnIndex(columns, StateColumn)
    case None =>
    case Some(col) =>
      ConvertColumnIdempotent(rows, col);
  }

  /** A record set whose `state` column holds no name from the table is written unchanged. */
  lemma AlreadyConverted(columns: seq<string>, rows: seq<Row>)
    requires WellFormed(columns, rows) && StateColumn in columns
    requires forall i, j :: 0 <= i < |rows| && 0 <= j < |columns| && columns[j] == StateColumn ==>
               rows[i][j].None? || rows[i][j].value !in StateAbbreviations
    ensures ConvertStateNames(columns, rows) == Written(columns, rows)
  {
    var out := ConvertStateNames(columns, rows);
    forall i | 0 <= i < |rows|
      ensures out.rows[i] == rows[i]
    {
      forall j | 0 <= j < |columns|
        ensures out.rows[i][j] == rows[i][j]
      {
      }
    }
  }

  /** A header that spells the column `State`, and has no `state`, gives no output, whatever the rows hold. */
  lemma CapitalisedColumnIsMissing(columns: seq<string>, rows: seq<Row>)
    requires WellFormed(columns, rows) && "State" in columns && StateColumn !in columns
    ensures ConvertStateNames(columns, rows) == ColumnMissing
  {
  }

  /** Alabama becomes AL, while TX and an unknown name are kept; the other column is untouched. */
  lemma MixedRows()
    ensures ConvertStateNames(["state", "pop"],
                              [[Some("Alabama"), Some("5")], [Some("TX"), Some("10")], [Some("Unknown"), Some("3")]])
         == Written(["state", "pop"],
                    [[Some("AL"), Some("5")], [Some("TX"), Some("10")], [Some("Unknown"), Some("3")]])
  {
    KnownNames();
    CodeIsKept();
    UnknownIsKept();
    var columns := ["state", "pop"];
    var rows := [[Some("Alabama"), Some("5")], [Some("TX"), Some("10")], [Some("Unknown"), Some("3")]];
    var expected := [[Some("AL"), Some("5")], [Some("TX"), Some("10")], [Some("Unknown"), Some("3")]];
    assert columns[0] == StateColumn;
    var out := ConvertStateNames(columns, rows);
    forall i | 0 <= i < 3
      ensures out.rows[i] == expected[i]
    {
      assert out.rows[i][0] == expected[i][0];
      assert out.rows[i][1] == expected[i][1];
    }
  }
}
