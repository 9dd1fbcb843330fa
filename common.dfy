/** Shared vocabulary of the spreadsheet core: positions, the printable size,
    optional values and the structural failures a mutation can raise. */
module Common {

  datatype Option<+T> = None | Some(value: T)

  /** Zero-based (row, column) address of a cell. */
  datatype Position = Position(row: int, col: int)

  /** Address-space bounds. The position codec lives outside this model; the
      bounds below are the usual 16384 x 16384 sheet, and no proof depends on
      their values. */
  const MaxRows: int := 16384
  const MaxCols: int := 16384

  predicate IsValid(p: Position) {
    0 <= p.row < MaxRows && 0 <= p.col < MaxCols
  }

  /** Printable size of a sheet: number of rows and columns. */
  datatype Size = Size(rows: int, cols: int)

  /** The exceptions the sheet and the cell raise, as values. */
  datatype SheetError = InvalidPosition | FormulaSyntax | CircularDependency

  /** Outcome of an operation that either completes or raises a SheetError. */
  datatype Outcome = Pass | Fail(error: SheetError)

  /** Result of an operation that returns a value or raises a SheetError. */
  datatype Result<+T> = Success(value: T) | Failure(error: SheetError)
}
