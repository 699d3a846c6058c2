/** The values a scraped cell can hold once it has been typed, and the errors of the pipeline. */
module Cells {
  import opened Wrappers
  import opened Dicts

  /** What `clean_and_process_data` stores: an `int`, a `float` or the cleaned `str`. */
  datatype Value = Int(i: int) | Float(x: real) | Text(s: string)

  /** A DataFrame cell: None is pandas' NaN. */
  type Cell = Option<Value>

  /** A row as the scraper passes it on: a `dict` keyed by column name. */
  type Row<V> = Dict<string, V>

  /** A scraped row as read from the table: every cell is text. */
  type RawRow = Row<string>

  /** A row after cleaning: every cell is typed. */
  type TypedRow = Row<Value>

  /** The exceptions the pipeline lets escape. */
  datatype Error =
    | EmptyBatch                  // IndexError from `table_data[0]`
    | MissingKey(key: string)     // KeyError from a dict or DataFrame lookup
    | BadPercentage(cell: string) // ValueError from `float()` on a cell with a `%`
    | NotNumeric(column: string)  // TypeError from `sum()`, or pandas refusing to average
    | BadDate(date: Value)        // ValueError or TypeError from `strptime`
    | DuplicateColumns            // pandas refusing a merge whose suffixes collide
}
