/** The cleaning run `pregunta_01` between reading the input file and
    writing the output: drop repeated rows, drop rows with missing cells,
    normalize the categorical text columns, convert the amount and date
    columns, and drop repeated rows once more. */
module Cleaning {

  import opened Wrappers
  import opened Seqs
  import opened Cells
  import opened TextNorm
  import opened Money
  import opened DateParse
  import opened Frames

  /** The categorical columns the run normalizes. */
  const TextColumns: seq<string> :=
    ["sexo", "tipo_de_emprendimiento", "idea_negocio", "barrio", "l\U{ED}nea_credito"]
  const AmountColumn: string := "monto_del_credito"
  const DateColumn: string := "fecha_de_beneficio"

  /** The first two steps: drop repeated rows keeping the first, then drop
      rows with a missing cell. */
  function DropRepeatedAndMissing(f: Frame): (r: Frame)
    requires WellFormed(f)
    ensures WellFormed(r) && r.columns == f.columns
    ensures forall i :: 0 <= i < |r.rows| ==> Complete(r.rows[i]) && r.rows[i] in f.rows
    ensures UniqueValues(r.rows)
    ensures IsSubsequence(Indices(r.rows), Indices(f.rows))
    ensures forall k :: 0 <= k < |f.rows| && Complete(f.rows[k]) ==> f.rows[k].values in ValueSet(r.rows)
  {
    var unique := DropDuplicates(f.rows);
    var rows := DropMissing(unique);
    CompleteSurvivesDrops(f.rows);
    DropDuplicatesSubsequence(f.rows);
    DropMissingSubsequence(unique);
    SubsequenceTransitive(rows, unique, f.rows);
    SubsequenceMembers(rows, f.rows);
    IndicesSubsequence(rows, f.rows);
    assert forall i :: 0 <= i < |rows| ==> rows[i] in rows;
    // a subsequence of rows with distinct cells has distinct cells
    SubsequenceUnique(rows, unique);
    Frame(f.columns, rows)
  }

  /** Every column the run selects. */
  const Required: seq<string> := TextColumns + [AmountColumn, DateColumn]

  predicate RequiredPresent(columns: seq<string>) {
    forall n :: n in Required ==> n in columns
  }

  lemma ColumnsDistinct()
    ensures AmountColumn !in TextColumns && DateColumn !in TextColumns && AmountColumn != DateColumn
    ensures forall n :: n in Required <==> n in TextColumns || n == AmountColumn || n == DateColumn
  {
  }

  /** A cell converter that may abort the run. */
  type Converter = Cell -> Result<Cell, Error>

  /** What `limpiar_columnas_texto` and the two `apply` calls of
      `pregunta_01` make of a cell, by the name of its column, for the
      given amount and date converters. */
  function StepCell(name: string, c: Cell, amount: Converter, date: Converter): Cell {
    if name in TextColumns then NormalizeCell(c)
    else if name == AmountColumn then (match amount(c) case Ok(v) => v case Err(_) => c)
    else if name == DateColumn then (match date(c) case Ok(v) => v case Err(_) => c)
    else c
  }

  /** Every amount and every date of the frame converts. */
  predicate StepsConvert(f: Frame, amount: Converter, date: Converter)
    requires WellFormed(f)
  {
    forall i, j :: 0 <= i < |f.rows| && 0 <= j < |f.columns| ==>
      (f.columns[j] == AmountColumn ==> amount(f.rows[i].values[j]).Ok?)
      && (f.columns[j] == DateColumn ==> date(f.rows[i].values[j]).Ok?)
  }

  /** The only ways the column steps abort: a selected column is absent,
      or a cell of the amount or the date column does not convert. */
  predicate StepError(f: Frame, e: Error, amount: Converter, date: Converter)
    requires WellFormed(f)
  {
    (e.UnknownColumn? && e.name in Required && e.name !in f.columns)
    || (exists i, j :: 0 <= i < |f.rows| && 0 <= j < |f.columns| && f.columns[j] == AmountColumn
          && amount(f.rows[i].values[j]) == Err(e))
    || (exists i, j :: 0 <= i < |f.rows| && 0 <= j < |f.columns| && f.columns[j] == DateColumn
          && date(f.rows[i].values[j]) == Err(e))
  }

  /** The column steps of `pregunta_01` (`limpiar_columnas_texto`, then the
      two `apply` calls): normalize the text columns, then convert the amount
      column, then the date column. */
  function ColumnSteps(f: Frame, amount: Converter, date: Converter): (r: Result<Frame, Error>)
    requires WellFormed(f)
    ensures r.Ok? ==> r.value.columns == f.columns && |r.value.rows| == |f.rows| && WellFormed(r.value)
  {
    match NormalizeColumns(f, TextColumns)
    case Err(e) => Err(e)
    case Ok(g) =>
      match ConvertColumn(g, AmountColumn, amount)
      case Err(e) => Err(e)
      case Ok(h) => ConvertColumn(h, DateColumn, date)
  }

  /** The column steps keep the index labels. */
  lemma ColumnStepsIndices(f: Frame, amount: Converter, date: Converter)
    requires WellFormed(f) && ColumnSteps(f, amount, date).Ok?
    ensures var r := ColumnSteps(f, amount, date).value;
      forall i :: 0 <= i < |f.rows| ==> r.rows[i].index == f.rows[i].index
  {
    var g := NormalizeColumns(f, TextColumns).value;
    var h := ConvertColumn(g, AmountColumn, amount).value;
    var r := ConvertColumn(h, DateColumn, date).value;
    ColumnsDistinct();
    assert forall i :: 0 <= i < |f.rows| ==> r.rows[i].index == h.rows[i].index;
    assert forall i :: 0 <= i < |f.rows| ==> h.rows[i].index == g.rows[i].index;
  }

  /** Each cell of the result is its input cell as its column's step
      leaves it. */
  lemma ColumnStepsCells(f: Frame, amount: Converter, date: Converter)
    requires WellFormed(f) && ColumnSteps(f, amount, date).Ok?
    ensures var r := ColumnSteps(f, amount, date).value;
      forall i, j :: 0 <= i < |f.rows| && 0 <= j < |f.columns| ==>
        r.rows[i].values[j] == StepCell(f.columns[j], f.rows[i].values[j], amount, date)
  {
    var g := NormalizeColumns(f, TextColumns).value;
    var h := ConvertColumn(g, AmountColumn, amount).value;
    var r := ConvertColumn(h, DateColumn, date).value;
    ColumnsDistinct();
    forall i, j | 0 <= i < |f.rows| && 0 <= j < |f.columns|
      ensures r.rows[i].values[j] == StepCell(f.columns[j], f.rows[i].values[j], amount, date)
    {
      var name := f.columns[j];
      var c := f.rows[i].values[j];
      var cg := g.rows[i].values[j];
      var ch := h.rows[i].values[j];
      assert cg == if name in TextColumns then NormalizeCell(c) else c;
      assert ch == if name == AmountColumn then amount(cg).value else cg;
      assert r.rows[i].values[j] == if name == DateColumn then date(ch).value else ch;
    }
  }

  /** The column steps succeed exactly when every selected column is
      present and every amount and every date converts. */
  lemma ColumnStepsSucceed(f: Frame, amount: Converter, date: Converter)
    requires WellFormed(f)
    ensures ColumnSteps(f, amount, date).Ok? <==> RequiredPresent(f.columns) && StepsConvert(f, amount, date)
  {
    if ColumnSteps(f, amount, date).Ok? {
      SuccessNeedsColumns(f, amount, date);
      SuccessNeedsConversions(f, amount, date);
    }
    if RequiredPresent(f.columns) && StepsConvert(f, amount, date) {
      ConversionsSuffice(f, amount, date);
    }
  }

  /** Normalizing the text columns leaves the amount and date cells as
      they are. */
  lemma NormalizeKeepsConverted(f: Frame, g: Frame)
    requires WellFormed(f) && NormalizeColumns(f, TextColumns) == Ok(g)
    ensures g.columns == f.columns && |g.rows| == |f.rows| && WellFormed(g)
    ensures forall i, j :: (0 <= i < |f.rows| && 0 <= j < |f.columns|
      && (f.columns[j] == AmountColumn || f.columns[j] == DateColumn)) ==> g.rows[i].values[j] == f.rows[i].values[j]
  {
    ColumnsDistinct();
  }

  /** Converting the amounts leaves the date cells as they are. */
  lemma AmountKeepsDates(g: Frame, amount: Converter, h: Frame)
    requires WellFormed(g) && ConvertColumn(g, AmountColumn, amount) == Ok(h)
    ensures h.columns == g.columns && |h.rows| == |g.rows| && WellFormed(h)
    ensures forall i, j :: 0 <= i < |g.rows| && 0 <= j < |g.columns| && g.columns[j] == DateColumn ==>
      h.rows[i].values[j] == g.rows[i].values[j]
  {
    ColumnsDistinct();
  }

  lemma SuccessNeedsColumns(f: Frame, amount: Converter, date: Converter)
    requires WellFormed(f) && ColumnSteps(f, amount, date).Ok?
    ensures RequiredPresent(f.columns)
  {
    ColumnsDistinct();
    var g := NormalizeColumns(f, TextColumns).value;
    var h := ConvertColumn(g, AmountColumn, amount).value;
    assert AmountColumn in f.columns && DateColumn in f.columns;
  }

  lemma SuccessNeedsConversions(f: Frame, amount: Converter, date: Converter)
    requires WellFormed(f) && ColumnSteps(f, amount, date).Ok?
    ensures StepsConvert(f, amount, date)
  {
    var g := NormalizeColumns(f, TextColumns).value;
    NormalizeKeepsConverted(f, g);
    var h := ConvertColumn(g, AmountColumn, amount).value;
    AmountKeepsDates(g, amount, h);
    assert ConvertColumn(h, DateColumn, date).Ok?;
    forall i, j | 0 <= i < |f.rows| && 0 <= j < |f.columns|
      ensures f.columns[j] == AmountColumn ==> amount(f.rows[i].values[j]).Ok?
      ensures f.columns[j] == DateColumn ==> date(f.rows[i].values[j]).Ok?
    {
      if f.columns[j] == AmountColumn {
        assert g.rows[i].values[j] == f.rows[i].values[j];
      }
      if f.columns[j] == DateColumn {
        assert h.rows[i].values[j] == f.rows[i].values[j];
      }
    }
  }

  lemma ConversionsSuffice(f: Frame, amount: Converter, date: Converter)
    requires WellFormed(f) && RequiredPresent(f.columns) && StepsConvert(f, amount, date)
    ensures ColumnSteps(f, amount, date).Ok?
  {
    ColumnsDistinct();
    assert NormalizeColumns(f, TextColumns).Ok?;
    var g := NormalizeColumns(f, TextColumns).value;
    NormalizeKeepsConverted(f, g);
    AmountsConvert(f, g, amount, date);
    var h := ConvertColumn(g, AmountColumn, amount).value;
    AmountKeepsDates(g, amount, h);
    DatesConvert(f, h, amount, date);
  }

  lemma AmountsConvert(f: Frame, g: Frame, amount: Converter, date: Converter)
    requires WellFormed(f) && WellFormed(g) && AmountColumn in g.columns && StepsConvert(f, amount, date)
    requires g.columns == f.columns && |g.rows| == |f.rows|
    requires forall i, j :: (0 <= i < |f.rows| && 0 <= j < |f.columns|
      && (f.columns[j] == AmountColumn || f.columns[j] == DateColumn)) ==> g.rows[i].values[j] == f.rows[i].values[j]
    ensures ConvertColumn(g, AmountColumn, amount).Ok?
  {
    forall i, j | 0 <= i < |g.rows| && 0 <= j < |g.columns| && g.columns[j] == AmountColumn
      ensures amount(g.rows[i].values[j]).Ok?
    {
      assert g.rows[i].values[j] == f.rows[i].values[j];
    }
  }

  lemma DatesConvert(f: Frame, h: Frame, amount: Converter, date: Converter)
    requires WellFormed(f) && WellFormed(h) && DateColumn in h.columns && StepsConvert(f, amount, date)
    requires h.columns == f.columns && |h.rows| == |f.rows|
    requires forall i, j :: 0 <= i < |f.rows| && 0 <= j < |f.columns| && f.columns[j] == DateColumn ==>
      h.rows[i].values[j] == f.rows[i].values[j]
    ensures ConvertColumn(h, DateColumn, date).Ok?
  {
    forall i, j | 0 <= i < |h.rows| && 0 <= j < |h.columns| && h.columns[j] == DateColumn
      ensures date(h.rows[i].values[j]).Ok?
    {
      assert h.rows[i].values[j] == f.rows[i].values[j];
    }
  }

  /** The column steps abort only for an absent column or a cell that
      does not convert. */
  lemma ColumnStepsErrors(f: Frame, amount: Converter, date: Converter)
    requires WellFormed(f) && ColumnSteps(f, amount, date).Err?
    ensures StepError(f, ColumnSteps(f, amount, date).error, amount, date)
  {
    var gr := NormalizeColumns(f, TextColumns);
    if gr.Err? {
      assert ColumnSteps(f, amount, date) == gr;
      ColumnsDistinct();
      assert gr.error.name in TextColumns;
    } else {
      var g := gr.value;
      NormalizeKeepsConverted(f, g);
      var hr := ConvertColumn(g, AmountColumn, amount);
      if hr.Err? {
        assert ColumnSteps(f, amount, date) == hr;
        AmountError(f, g, amount, date, hr.error);
      } else {
        var h := hr.value;
        AmountKeepsDates(g, amount, h);
        assert ColumnSteps(f, amount, date) == ConvertColumn(h, DateColumn, date);
        DateError(f, h, amount, date, ConvertColumn(h, DateColumn, date).error);
      }
    }
  }

  lemma AmountError(f: Frame, g: Frame, amount: Converter, date: Converter, e: Error)
    requires WellFormed(f) && WellFormed(g) && ConvertColumn(g, AmountColumn, amount) == Err(e)
    requires g.columns == f.columns && |g.rows| == |f.rows|
    requires forall i, j :: (0 <= i < |f.rows| && 0 <= j < |f.columns|
      && (f.columns[j] == AmountColumn || f.columns[j] == DateColumn)) ==> g.rows[i].values[j] == f.rows[i].values[j]
    ensures StepError(f, e, amount, date)
  {
    ColumnsDistinct();
    if AmountColumn in g.columns {
      var i, j :| 0 <= i < |g.rows| && 0 <= j < |g.columns| && g.columns[j] == AmountColumn
        && amount(g.rows[i].values[j]) == Err(e);
      assert g.rows[i].values[j] == f.rows[i].values[j];
    }
  }

  lemma DateError(f: Frame, h: Frame, amount: Converter, date: Converter, e: Error)
    requires WellFormed(f) && WellFormed(h) && ConvertColumn(h, DateColumn, date) == Err(e)
    requires h.columns == f.columns && |h.rows| == |f.rows|
    requires forall i, j :: 0 <= i < |f.rows| && 0 <= j < |f.columns| && f.columns[j] == DateColumn ==>
      h.rows[i].values[j] == f.rows[i].values[j]
    ensures StepError(f, e, amount, date)
  {
    ColumnsDistinct();
    if DateColumn in h.columns {
      var i, j :| 0 <= i < |h.rows| && 0 <= j < |h.columns| && h.columns[j] == DateColumn
        && date(h.rows[i].values[j]) == Err(e);
      assert h.rows[i].values[j] == f.rows[i].values[j];
    }
  }

  // ---------------------------------------------------------------------
  // The whole run
  // ---------------------------------------------------------------------

  /** The cells the column steps make of a row's cells. */
  function StepValues(columns: seq<string>, values: seq<Cell>, amount: Converter, date: Converter): seq<Cell>
    requires |values| == |columns|
  {
    seq(|columns|, j requires 0 <= j < |columns| => StepCell(columns[j], values[j], amount, date))
  }

  /** `pregunta_01` from the first `drop_duplicates` to the last, on the
      frame `read_csv` produced, for the given amount and date converters:
      drop repeated rows, drop rows with missing cells, run the column
      steps, and drop repeated rows again. Every complete input row is
      represented in the output by a row holding its cleaned cells. */
  function CleanWith(f: Frame, amount: Converter, date: Converter): (r: Result<Frame, Error>)
    requires WellFormed(f)
    ensures r.Ok? ==> r.value.columns == f.columns && WellFormed(r.value) && UniqueValues(r.value.rows)
    ensures r.Ok? ==> forall k :: 0 <= k < |f.rows| && Complete(f.rows[k]) ==>
      StepValues(f.columns, f.rows[k].values, amount, date) in ValueSet(r.value.rows)
  {
    var d := DropRepeatedAndMissing(f);
    match ColumnSteps(d, amount, date)
    case Err(e) => Err(e)
    case Ok(g) =>
      DropDuplicatesWellFormed(g);
      KeptAfterSteps(f, amount, date, g);
      Ok(Frame(g.columns, DropDuplicates(g.rows)))
  }

  /** The column steps turn each row's cells into its step values. */
  lemma StepsRowValues(d: Frame, amount: Converter, date: Converter, g: Frame, m: nat)
    requires WellFormed(d) && ColumnSteps(d, amount, date) == Ok(g) && m < |d.rows|
    ensures g.rows[m].values == StepValues(d.columns, d.rows[m].values, amount, date)
  {
    ColumnStepsCells(d, amount, date);
    StepValuesOfCells(d.columns, d.rows[m].values, g.rows[m].values, amount, date);
  }

  lemma StepValuesOfCells(columns: seq<string>, input: seq<Cell>, output: seq<Cell>, amount: Converter, date: Converter)
    requires |input| == |columns| && |output| == |columns|
    requires forall j :: 0 <= j < |columns| ==> output[j] == StepCell(columns[j], input[j], amount, date)
    ensures output == StepValues(columns, input, amount, date)
  {
  }

  /** The cleaned cells of every complete input row reach the last
      `drop_duplicates`, which keeps every distinct row of cells. */
  lemma KeptAfterSteps(f: Frame, amount: Converter, date: Converter, g: Frame)
    requires WellFormed(f) && ColumnSteps(DropRepeatedAndMissing(f), amount, date) == Ok(g)
    ensures forall k :: 0 <= k < |f.rows| && Complete(f.rows[k]) ==>
      StepValues(f.columns, f.rows[k].values, amount, date) in ValueSet(DropDuplicates(g.rows))
  {
    var d := DropRepeatedAndMissing(f);
    forall k | 0 <= k < |f.rows| && Complete(f.rows[k])
      ensures StepValues(f.columns, f.rows[k].values, amount, date) in ValueSet(DropDuplicates(g.rows))
    {
      var m := RowWithValues(d.rows, f.rows[k].values);
      StepsRowValues(d, amount, date, g, m);
      assert g.rows[m].values in ValueSet(g.rows);
    }
  }

  /** The run with `convertir_monto` and `convertir_fecha`: on success the
      columns are kept and every output row is clean. */
  function Clean(f: Frame): (r: Result<Frame, Error>)
    requires WellFormed(f)
    ensures r.Ok? ==> r.value.columns == f.columns
    ensures r.Ok? ==> forall i :: 0 <= i < |r.value.rows| ==> RowClean(f.columns, r.value.rows[i])
  {
    CleanWithOutputClean(f);
    CleanWith(f, ConvertAmount, ConvertDate)
  }

  /** An output row is an input row, with the same index label, whose
      cells went through their columns' steps. */
  predicate CleanedFrom(columns: seq<string>, input: Row, output: Row, amount: Converter, date: Converter)
    requires |input.values| == |columns|
  {
    output.index == input.index && |output.values| == |columns|
    && forall j :: 0 <= j < |columns| ==>
      (columns[j] == AmountColumn ==> amount(input.values[j]).Ok?)
      && (columns[j] == DateColumn ==> date(input.values[j]).Ok?)
      && output.values[j] == StepCell(columns[j], input.values[j], amount, date)
  }

  /** The column steps turn each row into a row cleaned from it. */
  lemma StepsCleanRow(d: Frame, m: nat, amount: Converter, date: Converter)
    requires WellFormed(d) && ColumnSteps(d, amount, date).Ok? && m < |d.rows|
    ensures CleanedFrom(d.columns, d.rows[m], ColumnSteps(d, amount, date).value.rows[m], amount, date)
  {
    ColumnStepsIndices(d, amount, date);
    ColumnStepsCells(d, amount, date);
    SuccessNeedsConversions(d, amount, date);
  }

  /** The row is cleaned from some complete row of the frame. */
  predicate FromCompleteRow(f: Frame, row: Row, amount: Converter, date: Converter)
    requires WellFormed(f)
  {
    exists k :: 0 <= k < |f.rows| && Complete(f.rows[k]) && CleanedFrom(f.columns, f.rows[k], row, amount, date)
  }

  /** Every row after the column steps comes from a complete input
      row. */
  lemma StepRowsOrigin(f: Frame, amount: Converter, date: Converter, g: Frame)
    requires WellFormed(f) && ColumnSteps(DropRepeatedAndMissing(f), amount, date) == Ok(g)
    ensures forall m :: 0 <= m < |g.rows| ==> FromCompleteRow(f, g.rows[m], amount, date)
  {
    var d := DropRepeatedAndMissing(f);
    forall m | 0 <= m < |g.rows|
      ensures FromCompleteRow(f, g.rows[m], amount, date)
    {
      StepsCleanRow(d, m, amount, date);
      OriginRow(f, d.rows[m], g.rows[m], amount, date);
    }
  }

  lemma OriginRow(f: Frame, input: Row, output: Row, amount: Converter, date: Converter)
    requires WellFormed(f) && input in f.rows && Complete(input)
    requires CleanedFrom(f.columns, input, output, amount, date)
    ensures FromCompleteRow(f, output, amount, date)
  {
    var k :| 0 <= k < |f.rows| && f.rows[k] == input;
  }

  /** Every output row comes from a complete input row. */
  lemma CleanRowsOrigin(f: Frame, amount: Converter, date: Converter)
    requires WellFormed(f) && CleanWith(f, amount, date).Ok?
    ensures var out := CleanWith(f, amount, date).value.rows;
      forall i :: 0 <= i < |out| ==> FromCompleteRow(f, out[i], amount, date)
  {
    var g := ColumnSteps(DropRepeatedAndMissing(f), amount, date).value;
    var out := DropDuplicates(g.rows);
    assert CleanWith(f, amount, date).value.rows == out;
    StepRowsOrigin(f, amount, date, g);
    DropDuplicatesMembers(g.rows);
  }

  /** The column steps keep the index labels. */
  lemma StepsKeepIndices(d: Frame, amount: Converter, date: Converter, g: Frame)
    requires WellFormed(d) && ColumnSteps(d, amount, date) == Ok(g)
    ensures Indices(g.rows) == Indices(d.rows)
  {
    ColumnStepsIndices(d, amount, date);
    SameIndices(g.rows, d.rows);
  }

  /** The index labels of the output are those of the input with some
      deleted and none reordered. */
  lemma CleanKeepsIndexOrder(f: Frame, amount: Converter, date: Converter)
    requires WellFormed(f) && CleanWith(f, amount, date).Ok?
    ensures IsSubsequence(Indices(CleanWith(f, amount, date).value.rows), Indices(f.rows))
  {
    var d := DropRepeatedAndMissing(f);
    var g := ColumnSteps(d, amount, date).value;
    var out := DropDuplicates(g.rows);
    assert CleanWith(f, amount, date).value.rows == out;
    DropDuplicatesSubsequence(g.rows);
    StepsKeepIndices(d, amount, date, g);
    IndicesSubsequence(out, g.rows);
    SubsequenceTransitive(Indices(out), Indices(d.rows), Indices(f.rows));
  }

  /** The column steps succeed exactly when every selected column is
      present and every amount and date that survives the row-dropping
      steps converts. */
  lemma CleanWithSucceeds(f: Frame, amount: Converter, date: Converter)
    requires WellFormed(f)
    ensures CleanWith(f, amount, date).Ok? <==>
      RequiredPresent(f.columns) && StepsConvert(DropRepeatedAndMissing(f), amount, date)
  {
    ColumnStepsSucceed(DropRepeatedAndMissing(f), amount, date);
  }

  /** The run aborts only for an absent column or for an amount or date
      of a surviving row that does not convert. */
  lemma CleanWithErrors(f: Frame, amount: Converter, date: Converter)
    requires WellFormed(f) && CleanWith(f, amount, date).Err?
    ensures StepError(DropRepeatedAndMissing(f), CleanWith(f, amount, date).error, amount, date)
  {
    ColumnStepsErrors(DropRepeatedAndMissing(f), amount, date);
  }

  // ---------------------------------------------------------------------
  // What the output looks like
  // ---------------------------------------------------------------------

  /** A cell of the output: never missing, a timestamp in the date column,
      no longer text in the amount column, and normalized text in the
      text columns. */
  predicate CellClean(name: string, c: Cell) {
    c != Missing
    && (name == DateColumn ==> c.Timestamp? && Representable(c.date))
    && (name == AmountColumn ==> !c.Text?)
    && (name in TextColumns && c.Text? ==> IsNormalized(c.text))
  }

  predicate RowClean(columns: seq<string>, row: Row) {
    |row.values| == |columns| && forall j :: 0 <= j < |columns| ==> CellClean(columns[j], row.values[j])
  }

  lemma StepCellClean(name: string, c: Cell)
    requires c != Missing
    requires name == AmountColumn ==> ConvertAmount(c).Ok?
    requires name == DateColumn ==> ConvertDate(c).Ok?
    ensures CellClean(name, StepCell(name, c, ConvertAmount, ConvertDate))
  {
    ColumnsDistinct();
  }

  lemma CleanedRowClean(f: Frame, row: Row)
    requires WellFormed(f) && FromCompleteRow(f, row, ConvertAmount, ConvertDate)
    ensures RowClean(f.columns, row)
  {
    var k :| 0 <= k < |f.rows| && Complete(f.rows[k]) && CleanedFrom(f.columns, f.rows[k], row, ConvertAmount, ConvertDate);
    forall j | 0 <= j < |f.columns|
      ensures CellClean(f.columns[j], row.values[j])
    {
      assert f.rows[k].values[j] in f.rows[k].values;
      StepCellClean(f.columns[j], f.rows[k].values[j]);
    }
  }

  /** Every row of a successful run's output is clean. */
  lemma CleanWithOutputClean(f: Frame)
    requires WellFormed(f)
    ensures var r := CleanWith(f, ConvertAmount, ConvertDate);
      r.Ok? ==> forall i :: 0 <= i < |r.value.rows| ==> RowClean(f.columns, r.value.rows[i])
  {
    if CleanWith(f, ConvertAmount, ConvertDate).Err? {
      return;
    }
    var out := CleanWith(f, ConvertAmount, ConvertDate).value.rows;
    CleanRowsOrigin(f, ConvertAmount, ConvertDate);
    forall i | 0 <= i < |out|
      ensures RowClean(f.columns, out[i])
    {
      CleanedRowClean(f, out[i]);
    }
  }

  // ---------------------------------------------------------------------
  // Running the cleaning twice
  // ---------------------------------------------------------------------

  /** The row-dropping steps leave a frame of distinct complete rows as it
      is. */
  lemma DropsKeepCleanRows(g: Frame)
    requires WellFormed(g) && UniqueValues(g.rows)
    requires forall i :: 0 <= i < |g.rows| ==> Complete(g.rows[i])
    ensures DropRepeatedAndMissing(g) == g
  {
    UniqueRowsKept(g.rows, {});
    CompleteRowsKept(g.rows);
  }

  /** A clean row has no missing cell. */
  lemma CleanRowComplete(columns: seq<string>, row: Row)
    requires RowClean(columns, row)
    ensures Complete(row)
  {
  }

  /** What a successful run promises about its output, gathered. */
  predicate CleanOutput(g: Frame) {
    WellFormed(g) && RequiredPresent(g.columns) && UniqueValues(g.rows)
    && forall i :: 0 <= i < |g.rows| ==> RowClean(g.columns, g.rows[i])
  }

  lemma CleanGivesCleanOutput(f: Frame, g: Frame)
    requires WellFormed(f) && Clean(f) == Ok(g)
    ensures CleanOutput(g)
  {
    CleanWithSucceeds(f, ConvertAmount, ConvertDate);
  }

  /** The run on a clean output with a row: the row-dropping steps keep
      it, and its first date does not convert. */
  lemma RerunFails(g: Frame)
    requires CleanOutput(g) && |g.rows| > 0
    ensures DropRepeatedAndMissing(g) == g
    ensures Clean(g).Err?
  {
    forall i | 0 <= i < |g.rows|
      ensures Complete(g.rows[i])
    {
      CleanRowComplete(g.columns, g.rows[i]);
    }
    DropsKeepCleanRows(g);
    ColumnsDistinct();
    assert DateColumn in g.columns;
    var j :| 0 <= j < |g.columns| && g.columns[j] == DateColumn;
    assert CellClean(g.columns[j], g.rows[0].values[j]);
    assert !StepsConvert(g, ConvertAmount, ConvertDate);
    CleanWithSucceeds(g, ConvertAmount, ConvertDate);
  }

  /** On a clean output no amount fails and no column is absent, so the
      error is a date that is not text. */
  lemma RerunError(g: Frame, e: Error)
    requires CleanOutput(g) && StepError(g, e, ConvertAmount, ConvertDate)
    ensures e.DateNotText?
  {
    ColumnsDistinct();
  }

  /** Cleaning an output of the run again aborts as soon as it has a row:
      its dates are timestamps already, and a timestamp has no `split`.
      The run is therefore not idempotent. */
  lemma CleanNotIdempotent(f: Frame, g: Frame)
    requires WellFormed(f) && Clean(f) == Ok(g) && |g.rows| > 0
    ensures Clean(g).Err? && Clean(g).error.DateNotText?
  {
    CleanGivesCleanOutput(f, g);
    RerunFails(g);
    CleanWithErrors(g, ConvertAmount, ConvertDate);
    RerunError(g, Clean(g).error);
  }

  // ---------------------------------------------------------------------
  // Rows that differ only in spelling
  // ---------------------------------------------------------------------

  /** Two cells of a column that the run cannot tell apart: texts of a
      text column that differ only in case, `_`, `-` and spaces, or equal
      cells. */
  predicate VariantCells(name: string, x: Cell, y: Cell) {
    if name in TextColumns && x.Text? && y.Text? then Variants(x.text, y.text) else x == y
  }

  predicate VariantRows(columns: seq<string>, a: Row, b: Row) {
    |a.values| == |columns| && |b.values| == |columns|
    && forall j :: 0 <= j < |columns| ==> VariantCells(columns[j], a.values[j], b.values[j])
  }

  /** Variant rows come out of the column steps with the same cells. */
  lemma VariantRowsMerge(columns: seq<string>, a: Row, b: Row, amount: Converter, date: Converter)
    requires VariantRows(columns, a, b)
    ensures forall j :: 0 <= j < |columns| ==>
      StepCell(columns[j], a.values[j], amount, date) == StepCell(columns[j], b.values[j], amount, date)
  {
    forall j | 0 <= j < |columns|
      ensures StepCell(columns[j], a.values[j], amount, date) == StepCell(columns[j], b.values[j], amount, date)
    {
      var x, y := a.values[j], b.values[j];
      if columns[j] in TextColumns && x.Text? && y.Text? {
        NormalizeIdentifies(x.text, y.text);
      }
    }
  }

  /** Complete input rows that differ only in spelling share one output
      row, the only one holding their cleaned cells. */
  lemma VariantsShareOutputRow(f: Frame, amount: Converter, date: Converter, k1: nat, k2: nat)
    requires WellFormed(f) && CleanWith(f, amount, date).Ok?
    requires k1 < |f.rows| && k2 < |f.rows| && Complete(f.rows[k1]) && Complete(f.rows[k2])
    requires VariantRows(f.columns, f.rows[k1], f.rows[k2])
    ensures StepValues(f.columns, f.rows[k1].values, amount, date)
         == StepValues(f.columns, f.rows[k2].values, amount, date)
    ensures StepValues(f.columns, f.rows[k1].values, amount, date) in ValueSet(CleanWith(f, amount, date).value.rows)
  {
    VariantRowsMerge(f.columns, f.rows[k1], f.rows[k2], amount, date);
  }

  /** Two output rows never come from variant rows: the second
      `drop_duplicates` keeps one row of each group of variants. */
  lemma OutputHasNoVariants(f: Frame, amount: Converter, date: Converter, i: nat, j: nat, a: Row, b: Row)
    requires WellFormed(f) && CleanWith(f, amount, date).Ok?
    requires i < j < |CleanWith(f, amount, date).value.rows|
    requires |a.values| == |f.columns| && |b.values| == |f.columns|
    requires CleanedFrom(f.columns, a, CleanWith(f, amount, date).value.rows[i], amount, date)
    requires CleanedFrom(f.columns, b, CleanWith(f, amount, date).value.rows[j], amount, date)
    ensures !VariantRows(f.columns, a, b)
  {
    if VariantRows(f.columns, a, b) {
      VariantRowsMerge(f.columns, a, b, amount, date);
    }
  }
}

