/** A pandas DataFrame reduced to what the filters use: named columns and a
    sequence of rows, with boolean masks built from column comparisons. */
module Frames {
  import opened Wrappers
  import opened Cells

  type Row = map<string, Cell>

  /** A frame: its column labels and its rows in index order. */
  datatype Table = Table(columns: set<string>, rows: seq<Row>)

  /** The `KeyError` pandas raises when a column label is absent. */
  datatype Error = MissingColumn(name: string)

  /** A row's value in a column; a row without the column holds NaN there. */
  function Get(row: Row, column: string): Cell {
    if column in row then row[column] else Missing
  }

  /** A boolean mask: `df[column] == value`, or the `&` of two masks. */
  datatype Cond = ColumnIs(column: string, value: Cell) | Both(left: Cond, right: Cond)

  predicate Holds(row: Row, c: Cond) {
    match c
    case ColumnIs(column, value) => Matches(Get(row, column), value)
    case Both(a, b) => Holds(row, a) && Holds(row, b)
  }

  /** The column labels a mask reads. */
  function Mentions(c: Cond): set<string> {
    match c
    case ColumnIs(column, _) => {column}
    case Both(a, b) => Mentions(a) + Mentions(b)
  }

  /** The first label, in evaluation order, that the mask reads and the frame lacks. */
  function FirstAbsent(c: Cond, columns: set<string>): (r: Option<string>)
    ensures r.None? <==> Mentions(c) <= columns
    ensures r.Some? ==> r.value in Mentions(c) && r.value !in columns
    ensures c.Both? && !(Mentions(c.left) <= columns) ==> r.Some? && r.value in Mentions(c.left)
  {
    match c
    case ColumnIs(column, _) => if column in columns then None else Some(column)
    case Both(a, b) =>
      var fa := FirstAbsent(a, columns);
      if fa.Some? then fa else FirstAbsent(b, columns)
  }

  /** `df[mask]`: the rows the mask holds for, in their original order. */
  function Select(rows: seq<Row>, c: Cond): (r: seq<Row>)
    ensures |r| <= |rows|
    ensures forall x :: x in r <==> x in rows && Holds(x, c)
    ensures forall x :: multiset(r)[x] == if Holds(x, c) then multiset(rows)[x] else 0
  {
    if rows == [] then []
    else
      var rest := Select(rows[1..], c);
      assert rows == [rows[0]] + rows[1..];
      if Holds(rows[0], c) then [rows[0]] + rest else rest
  }

  /** Selection distributes over concatenation: kept rows stay in their original order. */
  lemma {:induction false} SelectConcat(a: seq<Row>, b: seq<Row>, c: Cond)
    ensures Select(a + b, c) == Select(a, c) + Select(b, c)
  {
    if a == [] {
      assert a + b == b;
    } else {
      assert (a + b)[1..] == a[1..] + b;
      SelectConcat(a[1..], b, c);
    }
  }

  /** Selecting twice with the same mask is selecting once. */
  lemma {:induction false} SelectIdempotent(rows: seq<Row>, c: Cond)
    ensures Select(Select(rows, c), c) == Select(rows, c)
  {
    if rows != [] {
      SelectIdempotent(rows[1..], c);
      if Holds(rows[0], c) {
        assert ([rows[0]] + Select(rows[1..], c))[1..] == Select(rows[1..], c);
      }
    }
  }

  /** `series = df[column]`: one cell per row. */
  function Column(rows: seq<Row>, column: string): (r: seq<Cell>)
    ensures |r| == |rows|
    ensures forall i :: 0 <= i < |rows| ==> r[i] == Get(rows[i], column)
  {
    seq(|rows|, i requires 0 <= i < |rows| => Get(rows[i], column))
  }

  /** The cells of a column of the selected rows are exactly the column's cells
      in the rows that pass the mask. */
  lemma ColumnOfSelect(rows: seq<Row>, c: Cond, column: string)
    ensures forall v :: v in Column(Select(rows, c), column) <==>
              exists row :: row in rows && Holds(row, c) && Get(row, column) == v
  {
    forall v
      ensures v in Column(Select(rows, c), column) <==>
              exists row :: row in rows && Holds(row, c) && Get(row, column) == v
    {
      if v in Column(Select(rows, c), column) {
        SelectedCellHasRow(rows, c, column, v);
      }
      if exists row :: row in rows && Holds(row, c) && Get(row, column) == v {
        var row :| row in rows && Holds(row, c) && Get(row, column) == v;
        PassingRowHasCell(rows, c, column, row);
      }
    }
  }

  lemma SelectedCellHasRow(rows: seq<Row>, c: Cond, column: string, v: Cell)
    requires v in Column(Select(rows, c), column)
    ensures exists row :: row in rows && Holds(row, c) && Get(row, column) == v
  {
    var sel := Select(rows, c);
    var col := Column(sel, column);
    var i :| 0 <= i < |col| && col[i] == v;
    assert sel[i] in sel;
    assert sel[i] in rows && Holds(sel[i], c) && Get(sel[i], column) == v;
  }

  lemma PassingRowHasCell(rows: seq<Row>, c: Cond, column: string, row: Row)
    requires row in rows && Holds(row, c)
    ensures Get(row, column) in Column(Select(rows, c), column)
  {
    var sel := Select(rows, c);
    assert row in sel;
    var i :| 0 <= i < |sel| && sel[i] == row;
    assert Column(sel, column)[i] == Get(row, column);
  }

  /** `df[mask]` on a whole frame: a `KeyError` for the first absent label the
      mask reads, otherwise the selected rows under the same columns. */
  function Where(t: Table, c: Cond): (r: Result<Table, Error>)
    ensures r.Failure? <==> !(Mentions(c) <= t.columns)
    ensures r.Failure? ==> r.error.name in Mentions(c) && r.error.name !in t.columns
    ensures r.Success? ==> r.value.columns == t.columns && r.value.rows == Select(t.rows, c)
  {
    match FirstAbsent(c, t.columns)
    case Some(column) => Failure(MissingColumn(column))
    case None => Success(Table(t.columns, Select(t.rows, c)))
  }

  /** Cutting the rows into two runs cuts the column the same way. */
  lemma ColumnConcat(a: seq<Row>, b: seq<Row>, column: string)
    ensures Column(a + b, column) == Column(a, column) + Column(b, column)
  {
  }

  /** The position of the first occurrence of `x` in `s`. */
  function FirstIndex<T(==)>(s: seq<T>, x: T): (i: nat)
    requires x in s
    ensures i < |s| && s[i] == x && x !in s[..i]
  {
    if s[0] == x then 0
    else
      var j := FirstIndex(s[1..], x);
      assert s[..j + 1] == [s[0]] + s[1..][..j];
      j + 1
  }

  /** An index holding `x` with no earlier `x` is the first index of `x`. */
  lemma FirstIndexUnique<T>(s: seq<T>, x: T, i: nat)
    requires i < |s| && s[i] == x && x !in s[..i]
    ensures FirstIndex(s, x) == i
  {
  }

  /** Appending a value leaves the first index of every earlier value alone. */
  lemma FirstIndexSnoc<T>(init: seq<T>, last: T)
    ensures forall x :: x in init ==> FirstIndex(init + [last], x) == FirstIndex(init, x)
  {
    forall x | x in init
      ensures FirstIndex(init + [last], x) == FirstIndex(init, x)
    {
      var k := FirstIndex(init, x);
      assert (init + [last])[..k] == init[..k];
      FirstIndexUnique(init + [last], x, k);
    }
  }

  /** `Series.unique()`: each distinct value once, in order of first appearance. */
  function Unique(s: seq<Cell>): (r: seq<Cell>)
    ensures forall x :: x in r <==> x in s
    ensures forall i, j :: 0 <= i < j < |r| ==> r[i] != r[j]
    ensures forall i, j :: 0 <= i < j < |r| ==> FirstIndex(s, r[i]) < FirstIndex(s, r[j])
  {
    if s == [] then []
    else
      var init := s[..|s| - 1];
      var last := s[|s| - 1];
      var u := Unique(init);
      assert s == init + [last];
      FirstIndexSnoc(init, last);
      if last in init then u
      else
        FirstIndexUnique(s, last, |s| - 1);
        u + [last]
  }
}
