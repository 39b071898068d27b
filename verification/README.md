# Credit-application cleaning, modelled in Dafny

The repository cleans a table of credit applications. It is a `;`-separated
file with one row per application and an index column. The function
`pregunta_01` in `homework/pregunta_01.py` runs these steps in order:

1. Drop repeated rows, keeping the first.
2. Drop rows with a missing cell.
3. Normalize five categorical text columns with `normalizar_texto`:
   lower case, with `_` and `-` turned into spaces.
4. Turn the credit amount into a number with `convertir_monto`.
5. Turn the benefit date into a timestamp with `convertir_fecha`.
6. Drop repeated rows once more.

This project models those steps as pure Dafny functions over an immutable
frame and proves what each step guarantees.

| file | module | contents |
|---|---|---|
| `wrappers.dfy` | `Wrappers` | `Option` and `Result` |
| `seqs.dfy` | `Seqs` | order-preserving subsequences |
| `strings.dfy` | `StringOps` | Python's `str.split`, `str.strip`, `str.replace` and `str.lower` on `seq<char>` |
| `digits.dfy` | `Digits` | decimal digit strings and their values |
| `decimals.dfy` | `Decimals` | exact decimals, which stand for the result of `float(text)` |
| `calendar.dfy` | `Calendar` | Gregorian dates |
| `cells.dfy` | `Cells` | a cell (missing, text, number or timestamp) and the errors that abort the run |
| `textnorm.dfy` | `TextNorm` | `normalizar_texto` |
| `money.dfy` | `Money` | `convertir_monto` |
| `dates.dfy` | `DateParse` | `convertir_fecha` |
| `frames.dfy` | `Frames` | the frame; `drop_duplicates(keep='first')`, `dropna()`, `limpiar_columnas_texto` and `Series.apply` on one column |
| `cleaning.dfy` | `Cleaning` | the body of `pregunta_01` between reading and writing |

## How the model reads the code

A frame is a list of column names and a sequence of rows. Each row has an
index label and one cell per column. The model expresses pandas behaviour
as follows:

- `NaN` is the cell `Missing`.
- An exception that escapes a step is an `Err` holding an `Error`:
  - `KeyError` on an absent column is `UnknownColumn`.
  - `ValueError` from `float` is `AmountNotNumeric`.
  - A failed unpacking, or a failed `pd.to_datetime`, is `DateMalformed`.
  - `AttributeError` from `split` on a non-text cell is `DateNotText`.
- `Series.apply` stops at the first cell whose conversion raises.

The run is defined once, in `Cleaning.CleanWith`, for any amount
converter and any date converter. `Cleaning.Clean` instantiates it with
`convertir_monto` and `convertir_fecha`.

A number is an exact decimal. Every amount that `convertir_monto`
produces is in canonical form, with no trailing fractional zero, so two
converted amounts are equal cells exactly when they are the same number
(`Decimals.CanonicalUnique`), and the second `drop_duplicates` compares
them by their exact decimal value. `Number` cells already present in the
input frame are not required to be canonical; see "## Left out". pandas
compares the binary doubles `float` rounds them
to, so amounts that differ only beyond a double's precision (`0.1` and
`0.10000000000000000001`, or `9007199254740992` and `9007199254740993`)
are one value there and two values here.

Where the code and what a reader might expect of it part ways, the model
follows the code:

- One might expect only trailing zero cents to be removed. The code deletes
  every `.00`, anywhere in the text, in one left-to-right pass. Examples:
  - `1.005` reads as 15 (`Money.InnerCentsDeleted`).
  - `7.0,0` reads as 7, because the comma goes first (`Money.CommaFormsCents`).
  - `.0.000` keeps a `.00` that the deletion itself forms (`Money.CentsSinglePass`).
- One might expect a credit amount to come out non-negative. The code
  hands the text to `float`, so `-5` is accepted with its sign
  (`Money.NegativeAmount`).
- One might expect a cleaning run to be idempotent, but running it again
  fails in both readings:
  - On the frame it returns, the dates are timestamps with no `split`
    (`Cleaning.CleanNotIdempotent`).
  - On the written file read back, each date is the text `yyyy-mm-dd`,
    which splits into a single `/`-field and cannot be unpacked into three
    (`DateParse.IsoTextRejected`).

## Model

| member | source | states |
|---|---|---|
| TextNorm.NormalizeText | homework/pregunta_01.py:10 | the text keeps its length, holds no upper-case letter, `_` or `-`, and each character is a space when it was `_` or `-` and its lower-case form otherwise |
| TextNorm.NormalizeIdempotent | homework/pregunta_01.py:10 | normalizing twice gives what normalizing once gives |
| TextNorm.NormalizeFixedPoints | homework/pregunta_01.py:10 | a text is left unchanged exactly when it is already lower case without `_` or `-` |
| TextNorm.NormalizeIdentifies | homework/pregunta_01.py:10 | two texts normalize to the same text exactly when they differ only in letter case and in which of space, `_` and `-` appears |
| TextNorm.CaseVariantsCollapse | homework/pregunta_01.py:10 | `Hombre` and `HOMBRE` both become `hombre` |
| TextNorm.NormalizeCell | homework/pregunta_01.py:7-10 | a non-text cell comes back unchanged; a text cell comes back as the text cell of its normalized text, which has the same length |
| TextNorm.NormalizeCellIdempotent | homework/pregunta_01.py:7-10 | normalizing a cell twice is normalizing it once |
| StringOps.Split | homework/pregunta_01.py:27 | `split` yields at least one field and no field holds the separator |
| StringOps.JoinSplit | homework/pregunta_01.py:27 | joining the fields with the separator gives back the text |
| StringOps.SplitJoin | homework/pregunta_01.py:27 | splitting separator-free fields joined with the separator gives back the fields |
| StringOps.SplitThree | homework/pregunta_01.py:27-31 | three separator-free fields joined with `/` split into exactly those three fields |
| StringOps.LowerText | homework/pregunta_01.py:10 | `lower` keeps the length, lowers each character in place, and leaves no upper-case letter |
| StringOps.ReplaceChar | homework/pregunta_01.py:10 | replacing one character by another keeps the length, puts the new character at every position of the old one, leaves none of the old one when the two differ, and changes no other position |
| StringOps.DeleteChar | homework/pregunta_01.py:23 | `replace(c, '')` leaves no `c` and never lengthens the text |
| StringOps.DeleteCharSubsequence | homework/pregunta_01.py:23 | `replace(c, '')` leaves a subsequence of its input |
| StringOps.DeleteCharMembers | homework/pregunta_01.py:23 | after `replace(c, '')` a character occurs exactly when it occurred before and is not `c` |
| StringOps.DeleteAll | homework/pregunta_01.py:23 | `replace(pat, '')` never lengthens the text, and a text shorter than the pattern is left as it is |
| StringOps.DeleteAllTail | homework/pregunta_01.py:23 | text after the last possible occurrence, holding no character of the pattern, is left untouched |
| StringOps.DeleteAllShrinks | homework/pregunta_01.py:23 | `replace('.00', '')` removes at least one occurrence when one exists and changes nothing otherwise |
| StringOps.DeleteAllKeeps | homework/pregunta_01.py:23 | a character that does not occur in the pattern survives `replace` |
| StringOps.Strip | homework/pregunta_01.py:23 | `strip` cuts only whitespace, from either end, and leaves none at either end |
| StringOps.StripUnique | homework/pregunta_01.py:23 | any whitespace-only trimming that leaves no whitespace at either end is what `strip` gives |
| StringOps.StripPadded | homework/pregunta_01.py:23 | whitespace around a text makes no difference to `strip` |
| StringOps.StripSubsequence | homework/pregunta_01.py:23 | `strip` leaves a subsequence of its input |
| StringOps.StripMembers | homework/pregunta_01.py:23 | `strip` removes only whitespace and keeps every other character |
| Decimals.ParseDecimal | homework/pregunta_01.py:23 | `float` reads a canonical number and rejects the empty text |
| Decimals.FormatParseRoundTrip | homework/pregunta_01.py:23 | printing a number and reading it back gives the number |
| Decimals.CanonicalUnique | homework/pregunta_01.py:23 | two canonical numbers have the same value exactly when they are equal |
| Decimals.ParseSigned | homework/pregunta_01.py:23 | a leading `-` negates the number, and a leading `+` or no sign keeps it |
| Decimals.ParseDecimalRejects | homework/pregunta_01.py:23 | in the plain decimal reading, a character that is not a digit, a point or a leading sign makes the text unreadable |
| Money.CleanAmountText | homework/pregunta_01.py:23 | the cleaned text holds no `$` or `,`, starts and ends with no whitespace, and is no longer than the input |
| Money.CleanAmountKeeps | homework/pregunta_01.py:23 | every character other than whitespace, `$`, `,`, `.` and `0` survives the cleaning |
| Money.CleanAmountSubsequence | homework/pregunta_01.py:23 | the cleaned text is a subsequence of the input: characters are only deleted, never added or reordered |
| Money.CleanPadded | homework/pregunta_01.py:23 | whitespace, `$` and `,` before or after an amount make no difference to the cleaned text |
| Money.AmountPadded | homework/pregunta_01.py:20-23 | such padding changes neither whether the amount converts nor the number it gives |
| Money.PaddedThousands | homework/pregunta_01.py:23 | ` $1,234.00 ` reads as 1234 |
| Money.SpacedDollar | homework/pregunta_01.py:23 | `$ 500.50` reads as 500.5 |
| Money.ConvertAmount | homework/pregunta_01.py:20-23 | non-text passes through unchanged; text becomes a canonical number or fails with its own text; empty cleaned text fails |
| Money.AmountWhole | homework/pregunta_01.py:23 | digits with `$` and `,` read as the integer of the remaining digits |
| Money.AmountOnePoint | homework/pregunta_01.py:23 | with a point: fraction digits starting `00` lose the point and those two zeros and are read as part of the integer; any other fraction is read exactly |
| Money.ThousandsWithZeroCents | homework/pregunta_01.py:23 | `$1,234.00` reads as 1234 |
| Money.KeepsCents | homework/pregunta_01.py:23 | `$500.50` reads as 500.5 |
| Money.InnerCentsDeleted | homework/pregunta_01.py:23 | `1.005` reads as 15 |
| Money.CommaFormsCents | homework/pregunta_01.py:23 | `7.0,0` reads as 7 |
| Money.CentsSinglePass | homework/pregunta_01.py:23 | the deletion of `.00` is a single non-overlapping pass |
| Money.NegativeAmount | homework/pregunta_01.py:20-23 | `-5` converts to the number -5 |
| Money.EmptyAmount | homework/pregunta_01.py:23 | the empty text fails |
| Money.AmountRejectsForeignChar | homework/pregunta_01.py:23 | any printable ASCII character other than a digit, letter, `_`, `.`, sign, `$` or `,` makes the amount fail |
| Calendar.DaysInMonth | homework/pregunta_01.py:32 | February has 29 days in a leap year and 28 otherwise; April, June, September and November have 30; the other months have 31 |
| Calendar.LeapDay | homework/pregunta_01.py:32 | February 29th is a date exactly in leap years |
| DateParse.ReorderFields | homework/pregunta_01.py:27-32 | fields are reordered exactly when there are three, and the result holds no `/` |
| DateParse.ReorderBranches | homework/pregunta_01.py:28-31 | the first field is read as the year exactly when it is longer than two characters |
| DateParse.ReorderedText | homework/pregunta_01.py:27-29 | whenever fields are reordered, the text was three fields joined with `/` |
| DateParse.ParseIsoDate | homework/pregunta_01.py:32 | a `Y-M-D` text is accepted exactly when it has a four-digit year and a one- or two-digit month and day naming a day that exists and a timestamp can hold, and then gives that day |
| DateParse.ConvertDate | homework/pregunta_01.py:26-32 | success needs text and gives a representable timestamp; non-text fails with `DateNotText`; text that is not three `/`-fields fails with `DateMalformed` |
| DateParse.IsoRoundTrip | homework/pregunta_01.py:32 | a representable date written as `yyyy-mm-dd` reads back as itself |
| DateParse.DayFirstRoundTrip | homework/pregunta_01.py:26-32 | a representable date written `dd/mm/yyyy` converts to itself |
| DateParse.YearFirstRoundTrip | homework/pregunta_01.py:26-32 | a representable date written `yyyy/mm/dd` converts to itself |
| DateParse.DayFirstFields | homework/pregunta_01.py:26-32 | a `day/month/year` text of digit fields converts to the day it names when that day exists and a timestamp can hold it, and aborts with `DateMalformed` otherwise |
| DateParse.YearFirstFields | homework/pregunta_01.py:26-32 | the same for a `year/month/day` text |
| DateParse.NonexistentDays | homework/pregunta_01.py:26-32 | `31/04/2020` and `2021/02/29` abort the run |
| DateParse.LayoutsAgree | homework/pregunta_01.py:27-32 | the same fields written day first or year first convert to the same result |
| DateParse.MarchFifth | homework/pregunta_01.py:27-32 | `05/03/2020` and `2020/03/05` both convert to 5 March 2020 |
| DateParse.IsoTextRejected | homework/pregunta_01.py:27-31 | a date written back as `yyyy-mm-dd` no longer converts |
| Frames.DropDuplicates | homework/pregunta_01.py:45 | no two kept rows hold the same cells, and the kept rows hold exactly the cell contents of the input |
| Frames.DropDuplicatesIsKeepFirst | homework/pregunta_01.py:45 | the pass keeps exactly the rows that no earlier row repeats |
| Frames.DropDuplicatesScan | homework/pregunta_01.py:45 | the loop with a set of rows already seen computes the same rows |
| Frames.DropDuplicatesSubsequence | homework/pregunta_01.py:45 | the kept rows are input rows in input order |
| Frames.DropDuplicatesKeepsFirst | homework/pregunta_01.py:45 | the first row with given cells is kept, index label included, and is the only kept row with those cells |
| Frames.DropDuplicatesMembers | homework/pregunta_01.py:45 | every kept row is an input row |
| Frames.UniqueRowsKept | homework/pregunta_01.py:59 | rows that are already distinct are all kept |
| Frames.DropDuplicatesIdempotent | homework/pregunta_01.py:59 | dropping repeated rows twice is dropping them once |
| Frames.DropMissing | homework/pregunta_01.py:46 | a row is kept exactly when it is an input row without a missing cell |
| Frames.DropMissingSubsequence | homework/pregunta_01.py:46 | the kept rows are input rows in input order |
| Frames.CompleteRowsKept | homework/pregunta_01.py:46 | rows without missing cells are all kept |
| Frames.DropMissingIdempotent | homework/pregunta_01.py:46 | dropping incomplete rows twice is dropping them once |
| Frames.CompleteSurvivesDrops | homework/pregunta_01.py:45-46 | the cells of every complete input row are still held by a row after both row drops |
| Frames.IndicesSubsequence | homework/pregunta_01.py:45-46 | deleting rows keeps the order of the remaining index labels |
| Frames.ColumnIndex | homework/pregunta_01.py:16 | a column is found exactly when it exists, at its first position |
| Frames.TryMapColumn | homework/pregunta_01.py:16 | `apply` succeeds exactly when every cell converts; on success each row gets its converted cell in that column and nothing else changes; on failure the error is that of the first failing row |
| Frames.NormalizeColumns | homework/pregunta_01.py:13-17 | succeeds exactly when every listed column exists; otherwise the error names a missing listed column; keeps columns, row count and index labels; a cell ends up normalized exactly when its column is listed |
| Frames.ConvertColumn | homework/pregunta_01.py:53 | an absent column fails; otherwise succeeds exactly when every cell of the column converts; on success converts that column and keeps all else |
| Cleaning.DropRepeatedAndMissing | homework/pregunta_01.py:45-46 | the rows left are distinct, complete input rows whose index labels keep their input order, and the cells of every complete input row are among them |
| Cleaning.ColumnSteps | homework/pregunta_01.py:49-56 | on success the frame keeps its columns and row count |
| Cleaning.ColumnStepsIndices | homework/pregunta_01.py:49-56 | the column steps keep every index label |
| Cleaning.ColumnStepsCells | homework/pregunta_01.py:49-56 | each result cell is its input cell after its own column's step |
| Cleaning.ColumnStepsSucceed | homework/pregunta_01.py:49-56 | the column steps succeed exactly when all selected columns exist and every amount and date converts |
| Cleaning.ColumnStepsErrors | homework/pregunta_01.py:49-56 | a failure is an absent selected column or the error of an amount or date that does not convert |
| Cleaning.CleanWith | homework/pregunta_01.py:44-59 | on success the columns are kept, no two output rows hold the same cells, and every complete input row is represented by an output row holding its cells after their columns' steps |
| Cleaning.StepsRowValues | homework/pregunta_01.py:49-56 | the column steps turn each row's cells into those cells after their columns' steps |
| Cleaning.KeptAfterSteps | homework/pregunta_01.py:49-59 | the stepped cells of every complete input row reach the output of the last `drop_duplicates` |
| Cleaning.Clean | homework/pregunta_01.py:40-64 | on success with `convertir_monto` and `convertir_fecha`, the columns are kept and every output row satisfies `RowClean`: each of its cells satisfies `CellClean` for its column |
| Cleaning.CleanRowsOrigin | homework/pregunta_01.py:44-59 | every output row is a complete input row, with its index label, each cell after its column's step, and its amount and date converted |
| Cleaning.CleanKeepsIndexOrder | homework/pregunta_01.py:44-59 | the output index labels are input labels in input order |
| Cleaning.CleanWithSucceeds | homework/pregunta_01.py:44-59 | the run succeeds exactly when all selected columns exist and every amount and date of the rows that survive the row drops converts |
| Cleaning.CleanWithErrors | homework/pregunta_01.py:44-59 | a failure is an absent selected column or the error of a surviving amount or date |
| Cleaning.StepCellClean | homework/pregunta_01.py:49-56 | a converted cell is never missing; dates are representable timestamps; amounts are no longer text; text columns hold normalized text |
| Cleaning.CleanWithOutputClean | homework/pregunta_01.py:40-64 | every output row of a successful run is clean in that sense |
| Cleaning.CleanNotIdempotent | homework/pregunta_01.py:40-64 | running the cleaning on its own non-empty output fails on a date that is not text |
| Cleaning.VariantRowsMerge | homework/pregunta_01.py:49-50 | rows that differ only in the spelling of normalized text come out of the column steps with the same cells |
| Cleaning.VariantsShareOutputRow | homework/pregunta_01.py:49-59 | complete input rows that differ only in that spelling get the same cleaned cells, and one output row holds them |
| Cleaning.OutputHasNoVariants | homework/pregunta_01.py:59 | no two output rows come from rows that differ only in that spelling |

## Left out

- Reading and writing files is not modelled, and neither is the entry
  point (homework/pregunta_01.py:35-37, 42, 62, 66-67). The model starts
  from the frame `read_csv` produced and ends with the frame that would be
  written.
- `read_csv` type inference is not modelled. A cell is text, a number, a
  timestamp or missing. A column that pandas reads as numbers is a column
  of `Number` cells, which `convertir_monto` passes through.
- `df.copy()` (homework/pregunta_01.py:14) has no counterpart: frames are
  values.
- Money.ConvertAmount: reads only plain decimal notation (an optional
  sign, digits, at most one point). `float` also accepts exponents, `_`
  between digits, `inf`, `nan` and non-ASCII digits. For those forms the
  model fails where Python returns a number. It also keeps the exact
  decimal value instead of rounding it to a binary double, so the last
  `drop_duplicates` keeps two rows whose amounts differ only beyond a
  double's precision where pandas keeps one.
- Money.CleanAmountText: its own contract states what the cleaning
  removes; what it keeps is stated apart, by `Money.CleanAmountKeeps`,
  `Money.CleanAmountSubsequence` and `Money.CleanPadded`, so that every
  use of the function does not carry those facts.
- DateParse.ParseIsoDate: reads only a four-digit year and a one- or
  two-digit month and day. `pd.to_datetime` is more permissive; the other
  texts it accepts are reported as `DateMalformed`. A timestamp is its
  calendar day, at midnight.
- TextNorm.NormalizeText: maps case only for ASCII letters. `str.lower`
  also lowers non-ASCII letters such as `Í`.
- StringOps.Strip: treats as whitespace only the characters of the
  Latin-1 range that `str.isspace` accepts.
- Number cells of the input frame: a frame may hold a `Number` that is
  not canonical, such as `Decimal(30, 1)` for 3.0. The first
  `drop_duplicates` compares cells structurally, so it keeps both
  `Decimal(30, 1)` and `Decimal(3, 0)` where pandas, comparing 3.0 with
  3, keeps one. Apart from the rounding noted above, two input numbers
  are compared as pandas compares them only when both are written
  canonically.
- The pandas column dtypes after `apply` (float64, datetime64) are not
  modelled. Cells keep the value each conversion returned.
