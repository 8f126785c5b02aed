/** The values a DataFrame cell or a title dictionary entry can hold. */
module Cells {

  /** Text, a number, or a missing value (NaN). */
  datatype Cell = Text(text: string) | Number(x: real) | Missing

  /** pandas element-wise `==`: NaN equals nothing, text never equals a number. */
  predicate Matches(a: Cell, b: Cell) {
    a == b && !a.Missing?
  }
}
