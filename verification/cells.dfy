/** The values a table cell takes in the cleaning pipeline, and the errors
    that abort it. */
module Cells {

  import opened Decimals
  import opened Calendar

  /** A cell as the source's data frame holds it: missing (`NaN`), text as
      read from the input file, the float the amount becomes, or the
      timestamp the date becomes. */
  datatype Cell =
    | Missing
    | Text(text: string)
    | Number(amount: Decimal)
    | Timestamp(date: Date)

  /** Why a cleaning run aborts: a column the pipeline names is absent
      (pandas' `KeyError`), an amount is not a number or a date string is
      malformed or not a calendar date (`ValueError`), or the date
      converter is handed something that is not text (`AttributeError` on
      `split`). */
  datatype Error =
    | UnknownColumn(name: string)
    | AmountNotNumeric(text: string)
    | DateMalformed(text: string)
    | DateNotText(cell: Cell)
}
