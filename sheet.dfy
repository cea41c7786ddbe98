/** The two spreadsheet columns the route planner reads. */
module Sheet {

  /** One spreadsheet cell: a text value, or a missing value (NaN). */
  datatype Cell = Missing | Text(s: string)

  /** A sheet row, reduced to its address and institute cells. */
  datatype Row = Row(address: Cell, institute: Cell)

  /** The text `str()` gives a cell: a missing value prints as "nan". */
  function CellText(c: Cell): string {
    match c
    case Missing => "nan"
    case Text(s) => s
  }
}
