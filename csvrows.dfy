/**
 * What both importers share: a row as `csv.DictReader` yields it, and the
 * blank-to-`None` normaliser they apply to its text columns.
 */
module CsvRows {
  import opened Wrappers
  import opened Text

  /**
   * A row of `csv.DictReader`: column name to value. A row shorter than the
   * header gives `None` for the columns it lacks.
   */
  type CsvRow = map<string, Option<string>>

  /** The exception raised when `.strip()` is called on a missing value. */
  datatype Abort = StripOnNone(column: string)

  /** How an import run ends: every row read, or `sys.exit(1)` at the row that raised. */
  datatype ImportOutcome = Completed | Aborted(at: nat)

  /** `row.get(col)`. */
  function Get(row: CsvRow, col: string): Option<string> {
    if col in row then row[col] else None
  }

  /** The column is present but holds `None`, so `row.get(col, "").strip()` raises. */
  predicate HoldsNone(row: CsvRow, col: string) {
    col in row && row[col].None?
  }

  /** A value with its blanks turned into `None`: the result the normaliser promises. */
  function Normalised(v: Option<string>): Option<string> {
    if v.Some? && !IsBlank(v.value) then v else None
  }

  /**
   * `row.get(col) if row.get(col, "").strip() else None`: the raw, unstripped
   * value when it is not blank, `None` when it is blank or the column is
   * missing; raises when the column holds `None`.
   */
  function TextField(row: CsvRow, col: string): (r: Result<Option<string>, Abort>)
    ensures r.Err? <==> HoldsNone(row, col)
    ensures r.Ok? ==> r.value == Normalised(Get(row, col))
    ensures r.Ok? && r.value.Some? ==> !IsBlank(r.value.value)
  {
    if col !in row then Ok(None)
    else match row[col]
      case None => Err(StripOnNone(col))
      case Some(v) => if IsBlank(v) then Ok(None) else Ok(Some(v))
  }
}
