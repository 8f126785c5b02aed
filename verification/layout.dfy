/** Subplot grid arithmetic: `count_rows`. */
module Layout {
  import opened Wrappers

  /** The `ZeroDivisionError` of Python's `//`. */
  datatype ArithmeticError = ZeroDivision

  /** Python's `a // b`: the quotient rounded toward negative infinity. */
  function FloorDiv(a: int, b: int): (q: int)
    requires b != 0
    ensures b > 0 ==> b * q <= a < b * q + b
    ensures b < 0 ==> b * q + b < a <= b * q
  {
    if b > 0 then a / b else (-a) / (-b)
  }

  const DefaultColumns: int := 2

  /** The number of subplot rows needed to lay out `nGroups` panels `nCols` to a row. */
  function CountRows(nGroups: int, nCols: int): (r: Result<int, ArithmeticError>)
    ensures r.Failure? <==> nCols == 0
    ensures nGroups >= 0 && nCols > 0 ==>
              r.Success? && r.value >= 0 && r.value * nCols >= nGroups && (r.value - 1) * nCols < nGroups
  {
    if nCols == 0 then Failure(ZeroDivision)
    else Success(FloorDiv(nGroups + nCols - 1, nCols))
  }

  /** The row count is the least one that holds every panel: the ceiling of `nGroups / nCols`. */
  lemma CountRowsIsLeast(nGroups: int, nCols: int, k: int)
    requires nGroups >= 0 && nCols > 0
    requires k * nCols >= nGroups
    ensures CountRows(nGroups, nCols).value <= k
  {
  }

  /** With the default of two columns, `n` panels need `(n + 1) / 2` rows. */
  lemma CountRowsDefault(nGroups: int)
    requires nGroups >= 0
    ensures CountRows(nGroups, DefaultColumns) == Success((nGroups + 1) / 2)
  {
  }
}
