/**
 * The simulator dump as it reaches the convertor: a table whose cells are
 * text, numbers or blank (pandas' NaN), with the "Output" and "Nominal"
 * columns named.
 */
module Table {
  import opened Wrappers

  /** One cell value. `Blank` is the NaN pandas reads for an empty CSV cell. */
  datatype Cell = Blank | Text(s: string) | Number(x: real)

  /**
   * One row of the dump: its first-column cell (`iloc[row, 0]`), its
   * "Output" cell (`None` when null) and its "Nominal" cell.
   */
  datatype Row = Row(lead: Cell, output: Option<string>, nominal: Cell)

  /** Python truthiness of a cell value: NaN is truthy, "" and 0 are not. */
  predicate Truthy(c: Cell)
  {
    match c
    case Blank => true
    case Text(s) => s != []
    case Number(x) => x != 0.0
  }
}
