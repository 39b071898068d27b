/** The slice of a pandas data frame the cleaning pipeline uses: named
    columns, rows carrying an index label, and the row-dropping and
    column-mapping operations `drop_duplicates`, `dropna` and
    `df[col].apply`. */
module Frames {

  import opened Wrappers
  import opened Seqs
  import opened Cells
  import opened TextNorm

  /** A row: the label `read_csv(..., index_col=0)` takes from the first
      field, and one cell per column. */
  datatype Row = Row(index: int, values: seq<Cell>)

  datatype Frame = Frame(columns: seq<string>, rows: seq<Row>)

  /** Column names are distinct (`read_csv` renames repeated headers) and
      every row has one cell per column. */
  predicate WellFormed(f: Frame) {
    (forall i, j :: 0 <= i < j < |f.columns| ==> f.columns[i] != f.columns[j])
    && forall i :: 0 <= i < |f.rows| ==> |f.rows[i].values| == |f.columns|
  }

  /** The index labels in row order. */
  function Indices(rows: seq<Row>): seq<int> {
    seq(|rows|, i requires 0 <= i < |rows| => rows[i].index)
  }

  /** The cell contents of the rows, as a set. */
  function ValueSet(rows: seq<Row>): set<seq<Cell>> {
    set i | 0 <= i < |rows| :: rows[i].values
  }

  /** The position of a row holding the given cells. */
  lemma RowWithValues(rows: seq<Row>, v: seq<Cell>) returns (m: nat)
    requires v in ValueSet(rows)
    ensures m < |rows| && rows[m].values == v
  {
    m :| 0 <= m < |rows| && rows[m].values == v;
  }

  /** No two rows hold the same cells. */
  predicate UniqueValues(rows: seq<Row>) {
    forall i, j :: 0 <= i < j < |rows| ==> rows[i].values != rows[j].values
  }

  // ---------------------------------------------------------------------
  // drop_duplicates(keep='first')
  // ---------------------------------------------------------------------

  /** One left-to-right pass that keeps a row when its cells have not been
      seen yet. The index label takes no part in the comparison. */
  function DropDuplicatesAfter(rows: seq<Row>, seen: set<seq<Cell>>): (r: seq<Row>)
    ensures forall i :: 0 <= i < |r| ==> r[i].values !in seen
    ensures UniqueValues(r)
    ensures ValueSet(r) == ValueSet(rows) - seen
  {
    if |rows| == 0 then []
    else
      var rest := DropDuplicatesAfter(rows[1..], seen + {rows[0].values});
      assert rows == [rows[0]] + rows[1..];
      ValueSetCons(rows[0], rows[1..]);
      ValueSetCons(rows[0], rest);
      if rows[0].values in seen then DropDuplicatesAfter(rows[1..], seen) else [rows[0]] + rest
  }

  lemma ValueSetCons(x: Row, rows: seq<Row>)
    ensures ValueSet([x] + rows) == {x.values} + ValueSet(rows)
  {
    var xs := [x] + rows;
    assert xs[0] == x;
    assert x.values in ValueSet(xs);
    assert forall v :: v in ValueSet(rows) ==> v in ValueSet(xs) by {
      forall v | v in ValueSet(rows)
        ensures v in ValueSet(xs)
      {
        var i :| 0 <= i < |rows| && rows[i].values == v;
        assert xs[i + 1] == rows[i];
      }
    }
    assert forall v :: v in ValueSet(xs) ==> v == x.values || v in ValueSet(rows) by {
      forall v | v in ValueSet(xs)
        ensures v == x.values || v in ValueSet(rows)
      {
        var i :| 0 <= i < |xs| && xs[i].values == v;
        if i > 0 {
          assert rows[i - 1].values == v;
        }
      }
    }
  }

  function DropDuplicates(rows: seq<Row>): (r: seq<Row>)
    ensures UniqueValues(r)
    ensures ValueSet(r) == ValueSet(rows)
  {
    DropDuplicatesAfter(rows, {})
  }

  lemma ValueSetSnoc(rows: seq<Row>, x: Row)
    ensures ValueSet(rows + [x]) == ValueSet(rows) + {x.values}
  {
    var xs := rows + [x];
    assert xs[|rows|] == x;
    assert forall i :: 0 <= i < |rows| ==> xs[i] == rows[i];
    assert forall v :: v in ValueSet(xs) ==> v == x.values || v in ValueSet(rows) by {
      forall v | v in ValueSet(xs)
        ensures v == x.values || v in ValueSet(rows)
      {
        var i :| 0 <= i < |xs| && xs[i].values == v;
        if i < |rows| {
          assert rows[i].values == v;
        }
      }
    }
  }

  /** The reference reading of `keep='first'`, built from the last row
      backwards: a row survives exactly when no earlier row holds the same
      cells. */
  function KeepFirst(rows: seq<Row>): seq<Row> {
    if |rows| == 0 then []
    else
      var init := rows[..|rows| - 1];
      var last := rows[|rows| - 1];
      KeepFirst(init) + (if last.values in ValueSet(init) then [] else [last])
  }

  lemma {:induction false} DropDuplicatesAfterSnoc(rows: seq<Row>, x: Row, seen: set<seq<Cell>>)
    ensures DropDuplicatesAfter(rows + [x], seen) ==
      DropDuplicatesAfter(rows, seen) + (if x.values in seen + ValueSet(rows) then [] else [x])
    decreases |rows|
  {
    if |rows| == 0 {
      assert rows + [x] == [x];
      assert ValueSet(rows) == {};
    } else {
      var xs := rows + [x];
      assert xs[0] == rows[0];
      assert xs[1..] == rows[1..] + [x];
      ValueSetCons(rows[0], rows[1..]);
      assert rows == [rows[0]] + rows[1..];
      if rows[0].values in seen {
        DropDuplicatesAfterSnoc(rows[1..], x, seen);
      } else {
        DropDuplicatesAfterSnoc(rows[1..], x, seen + {rows[0].values});
      }
    }
  }

  /** The forward pass with a set of seen rows keeps exactly the rows the
      reference keeps. */
  lemma {:induction false} DropDuplicatesIsKeepFirst(rows: seq<Row>)
    ensures DropDuplicates(rows) == KeepFirst(rows)
    decreases |rows|
  {
    if |rows| > 0 {
      var init := rows[..|rows| - 1];
      var last := rows[|rows| - 1];
      assert rows == init + [last];
      DropDuplicatesIsKeepFirst(init);
      DropDuplicatesAfterSnoc(init, last, {});
    }
  }

  /** No earlier row holds the same cells as row `m`. */
  predicate FirstOccurrence(rows: seq<Row>, m: nat)
    requires m < |rows|
  {
    forall k :: 0 <= k < m ==> rows[k].values != rows[m].values
  }

  lemma {:induction false} KeepFirstKeepsFirst(rows: seq<Row>, m: nat)
    requires m < |rows| && FirstOccurrence(rows, m)
    ensures rows[m] in KeepFirst(rows)
    decreases |rows|
  {
    var init := rows[..|rows| - 1];
    if m < |rows| - 1 {
      assert init[m] == rows[m];
      assert FirstOccurrence(init, m) by {
        assert forall k :: 0 <= k < m ==> init[k] == rows[k];
      }
      KeepFirstKeepsFirst(init, m);
    }
  }

  /** The row that carries a value into the result is the first row with
      that value, index label included. */
  lemma DropDuplicatesKeepsFirst(rows: seq<Row>, m: nat)
    requires m < |rows| && FirstOccurrence(rows, m)
    ensures rows[m] in DropDuplicates(rows)
    ensures forall i :: 0 <= i < |DropDuplicates(rows)| && DropDuplicates(rows)[i].values == rows[m].values ==>
      DropDuplicates(rows)[i] == rows[m]
  {
    DropDuplicatesIsKeepFirst(rows);
    KeepFirstKeepsFirst(rows, m);
  }

  /** The same pass as an imperative scan that keeps a set of the cell
      rows seen so far. */
  method DropDuplicatesScan(rows: seq<Row>) returns (r: seq<Row>)
    ensures r == DropDuplicates(rows)
  {
    var seen: set<seq<Cell>> := {};
    r := [];
    var i := 0;
    while i < |rows|
      invariant 0 <= i <= |rows|
      invariant r == KeepFirst(rows[..i])
      invariant seen == ValueSet(rows[..i])
    {
      assert rows[..i + 1] == rows[..i] + [rows[i]];
      assert rows[..i + 1][..i] == rows[..i];
      ValueSetSnoc(rows[..i], rows[i]);
      if rows[i].values !in seen {
        r := r + [rows[i]];
      }
      seen := seen + {rows[i].values};
      i := i + 1;
    }
    assert rows[..i] == rows;
    DropDuplicatesIsKeepFirst(rows);
  }

  /** Dropping duplicates only deletes rows, and keeps the order of the
      rest. */
  lemma {:induction false} DropDuplicatesAfterSubsequence(rows: seq<Row>, seen: set<seq<Cell>>)
    ensures IsSubsequence(DropDuplicatesAfter(rows, seen), rows)
    decreases |rows|
  {
    if |rows| > 0 {
      var r := DropDuplicatesAfter(rows, seen);
      if rows[0].values in seen {
        DropDuplicatesAfterSubsequence(rows[1..], seen);
      } else {
        DropDuplicatesAfterSubsequence(rows[1..], seen + {rows[0].values});
        assert r[0] == rows[0] && r[1..] == DropDuplicatesAfter(rows[1..], seen + {rows[0].values});
      }
    }
  }

  lemma DropDuplicatesSubsequence(rows: seq<Row>)
    ensures IsSubsequence(DropDuplicates(rows), rows)
  {
    DropDuplicatesAfterSubsequence(rows, {});
  }

  lemma {:induction false} UniqueRowsKept(rows: seq<Row>, seen: set<seq<Cell>>)
    requires UniqueValues(rows) && ValueSet(rows) !! seen
    ensures DropDuplicatesAfter(rows, seen) == rows
    decreases |rows|
  {
    if |rows| > 0 {
      assert rows[0].values in ValueSet(rows);
      ValueSetCons(rows[0], rows[1..]);
      assert rows == [rows[0]] + rows[1..];
      assert rows[0].values !in ValueSet(rows[1..]) by {
        assert forall i :: 0 <= i < |rows[1..]| ==> rows[1..][i].values == rows[i + 1].values;
      }
      assert UniqueValues(rows[1..]) by {
        assert forall i :: 0 <= i < |rows[1..]| ==> rows[1..][i] == rows[i + 1];
      }
      UniqueRowsKept(rows[1..], seen + {rows[0].values});
    }
  }

  /** Every row kept is a row of the input. */
  lemma DropDuplicatesMembers(rows: seq<Row>)
    ensures forall i :: 0 <= i < |DropDuplicates(rows)| ==>
      exists m :: 0 <= m < |rows| && rows[m] == DropDuplicates(rows)[i]
  {
    var r := DropDuplicates(rows);
    DropDuplicatesSubsequence(rows);
    SubsequenceMembers(r, rows);
    assert forall i :: 0 <= i < |r| ==> r[i] in rows;
  }

  /** Dropping repeated rows of a well-formed frame leaves it
      well-formed. */
  lemma DropDuplicatesWellFormed(f: Frame)
    requires WellFormed(f)
    ensures WellFormed(Frame(f.columns, DropDuplicates(f.rows)))
  {
    var rows := DropDuplicates(f.rows);
    DropDuplicatesMembers(f.rows);
    assert forall i :: 0 <= i < |rows| ==> |rows[i].values| == |f.columns|;
  }

  /** Dropping duplicates a second time changes nothing. */
  lemma DropDuplicatesIdempotent(rows: seq<Row>)
    ensures DropDuplicates(DropDuplicates(rows)) == DropDuplicates(rows)
  {
    UniqueRowsKept(DropDuplicates(rows), {});
  }

  // ---------------------------------------------------------------------
  // dropna()
  // ---------------------------------------------------------------------

  /** A row without missing cells. */
  predicate Complete(row: Row) {
    Missing !in row.values
  }

  /** `dropna()` with its defaults: a row is dropped when any of its cells
      is missing. */
  function DropMissing(rows: seq<Row>): (r: seq<Row>)
    ensures forall x :: x in r <==> x in rows && Complete(x)
  {
    if |rows| == 0 then []
    else
      assert forall x :: x in rows <==> x == rows[0] || x in rows[1..];
      (if Complete(rows[0]) then [rows[0]] else []) + DropMissing(rows[1..])
  }

  /** The cells of every complete row survive dropping repeated rows and
      then incomplete ones: the repeat that goes is complete too, and its
      first occurrence stays. */
  lemma CompleteSurvivesDrops(rows: seq<Row>)
    ensures forall k :: 0 <= k < |rows| && Complete(rows[k]) ==>
      rows[k].values in ValueSet(DropMissing(DropDuplicates(rows)))
  {
    var unique := DropDuplicates(rows);
    var kept := DropMissing(unique);
    forall k | 0 <= k < |rows| && Complete(rows[k])
      ensures rows[k].values in ValueSet(kept)
    {
      assert rows[k].values in ValueSet(rows);
      var m :| 0 <= m < |unique| && unique[m].values == rows[k].values;
      assert unique[m] in unique;
      var n :| 0 <= n < |kept| && kept[n] == unique[m];
    }
  }

  /** Dropping missing rows distributes over concatenation. */
  lemma {:induction false} DropMissingAppend(a: seq<Row>, b: seq<Row>)
    ensures DropMissing(a + b) == DropMissing(a) + DropMissing(b)
    decreases |a|
  {
    if |a| == 0 {
      assert a + b == b;
    } else {
      assert (a + b)[0] == a[0] && (a + b)[1..] == a[1..] + b;
      DropMissingAppend(a[1..], b);
    }
  }

  lemma {:induction false} DropMissingSubsequence(rows: seq<Row>)
    ensures IsSubsequence(DropMissing(rows), rows)
    decreases |rows|
  {
    if |rows| > 0 {
      var r := DropMissing(rows);
      DropMissingSubsequence(rows[1..]);
      if Complete(rows[0]) {
        assert r[0] == rows[0] && r[1..] == DropMissing(rows[1..]);
      } else {
        assert r == DropMissing(rows[1..]);
      }
    }
  }

  /** Rows without missing cells are all kept. */
  lemma {:induction false} CompleteRowsKept(rows: seq<Row>)
    requires forall i :: 0 <= i < |rows| ==> Complete(rows[i])
    ensures DropMissing(rows) == rows
    decreases |rows|
  {
    if |rows| > 0 {
      CompleteRowsKept(rows[1..]);
    }
  }

  lemma DropMissingIdempotent(rows: seq<Row>)
    ensures DropMissing(DropMissing(rows)) == DropMissing(rows)
  {
    var r := DropMissing(rows);
    assert forall i :: 0 <= i < |r| ==> r[i] in r;
    CompleteRowsKept(r);
  }

  // ---------------------------------------------------------------------
  // df[column] and df[column].apply(f)
  // ---------------------------------------------------------------------

  /** The position of the column `df[name]` selects, or `None` where
      pandas raises `KeyError`. */
  function ColumnIndex(columns: seq<string>, name: string): (r: Option<nat>)
    ensures r.None? <==> name !in columns
    ensures r.Some? ==> r.value < |columns| && columns[r.value] == name
    ensures r.Some? ==> forall j :: 0 <= j < r.value ==> columns[j] != name
  {
    if |columns| == 0 then None
    else if columns[0] == name then Some(0)
    else
      assert forall x :: x in columns <==> x == columns[0] || x in columns[1..];
      match ColumnIndex(columns[1..], name)
      case None => None
      case Some(k) => Some(k + 1)
  }

  /** Every row has a cell at position `k`. */
  predicate HasColumn(rows: seq<Row>, k: nat) {
    forall i :: 0 <= i < |rows| ==> k < |rows[i].values|
  }

  /** `df[column].apply(conv)` for a converter that may raise: the cells
      are converted in row order and the first failure aborts with its
      error; otherwise every cell of the column is replaced by its
      conversion and everything else is kept. */
  function TryMapColumn(rows: seq<Row>, k: nat, conv: Cell -> Result<Cell, Error>): (r: Result<seq<Row>, Error>)
    requires HasColumn(rows, k)
    ensures r.Ok? <==> forall i :: 0 <= i < |rows| ==> conv(rows[i].values[k]).Ok?
    ensures r.Ok? ==> |r.value| == |rows| && forall i :: 0 <= i < |rows| ==>
      r.value[i] == Row(rows[i].index, rows[i].values[k := conv(rows[i].values[k]).value])
    ensures r.Err? ==> exists i :: (0 <= i < |rows| && conv(rows[i].values[k]) == Err(r.error)
      && forall j :: 0 <= j < i ==> conv(rows[j].values[k]).Ok?)
  {
    if |rows| == 0 then Ok([])
    else
      match conv(rows[0].values[k])
      case Err(e) => Err(e)
      case Ok(c) =>
        match TryMapColumn(rows[1..], k, conv)
        case Err(e) =>
          ghost var i :| 0 <= i < |rows[1..]| && conv(rows[1..][i].values[k]) == Err(e)
            && forall j :: 0 <= j < i ==> conv(rows[1..][j].values[k]).Ok?;
          assert conv(rows[i + 1].values[k]) == Err(e);
          Err(e)
        case Ok(rest) =>
          var r := [Row(rows[0].index, rows[0].values[k := c])] + rest;
          assert forall i :: 0 < i < |rows| ==> r[i] == rest[i - 1] && rows[i] == rows[1..][i - 1];
          Ok(r)
  }

  /** `df[column].apply(normalizar_texto)`: normalizing never fails. */
  function NormalizeColumnAt(rows: seq<Row>, k: nat): (r: seq<Row>)
    requires HasColumn(rows, k)
    ensures |r| == |rows| && HasColumn(r, k)
    ensures forall i :: 0 <= i < |rows| ==>
      r[i] == Row(rows[i].index, rows[i].values[k := NormalizeCell(rows[i].values[k])])
  {
    seq(|rows|, i requires 0 <= i < |rows| => Row(rows[i].index, rows[i].values[k := NormalizeCell(rows[i].values[k])]))
  }

  /** `limpiar_columnas_texto`: each named column in turn is selected and
      normalized, and a name that is not a column aborts with `KeyError`.
      In the result a cell is normalized exactly when its column is one of
      the names. */
  function NormalizeColumns(f: Frame, names: seq<string>): (r: Result<Frame, Error>)
    requires WellFormed(f)
    ensures r.Ok? <==> forall n :: n in names ==> n in f.columns
    ensures r.Err? ==> r.error.UnknownColumn? && r.error.name in names && r.error.name !in f.columns
    ensures r.Ok? ==> r.value.columns == f.columns && |r.value.rows| == |f.rows| && WellFormed(r.value)
    ensures r.Ok? ==> forall i :: 0 <= i < |f.rows| ==> r.value.rows[i].index == f.rows[i].index
    ensures r.Ok? ==> forall i, j :: 0 <= i < |f.rows| && 0 <= j < |f.columns| ==>
      r.value.rows[i].values[j] ==
        if f.columns[j] in names then NormalizeCell(f.rows[i].values[j]) else f.rows[i].values[j]
    decreases |names|
  {
    if |names| == 0 then Ok(f)
    else
      assert forall n :: n in names <==> n == names[0] || n in names[1..];
      match ColumnIndex(f.columns, names[0])
      case None => Err(UnknownColumn(names[0]))
      case Some(k) =>
        var g := Frame(f.columns, NormalizeColumnAt(f.rows, k));
        assert WellFormed(g);
        var r := NormalizeColumns(g, names[1..]);
        if r.Ok? then NormalizeNextColumn(f, names, k, r.value); r else r
  }

  /** Normalizing column `k` for the first name and then the columns of
      the other names normalizes the columns of all the names, once each:
      normalizing twice changes nothing. */
  lemma NormalizeNextColumn(f: Frame, names: seq<string>, k: nat, r: Frame)
    requires WellFormed(f) && |names| > 0 && k < |f.columns| && f.columns[k] == names[0]
    requires var g := NormalizeColumnAt(f.rows, k);
      |r.rows| == |g| && forall i, j :: 0 <= i < |f.rows| && 0 <= j < |f.columns| ==>
        |r.rows[i].values| == |f.columns| &&
        r.rows[i].values[j] == if f.columns[j] in names[1..] then NormalizeCell(g[i].values[j]) else g[i].values[j]
    ensures forall i, j :: 0 <= i < |f.rows| && 0 <= j < |f.columns| ==>
      r.rows[i].values[j] ==
        if f.columns[j] in names then NormalizeCell(f.rows[i].values[j]) else f.rows[i].values[j]
  {
    assert forall n :: n in names <==> n == names[0] || n in names[1..];
    forall i, j | 0 <= i < |f.rows| && 0 <= j < |f.columns|
      ensures r.rows[i].values[j] ==
        if f.columns[j] in names then NormalizeCell(f.rows[i].values[j]) else f.rows[i].values[j]
    {
      NormalizeCellIdempotent(f.rows[i].values[j]);
      assert f.columns[j] == names[0] <==> j == k;
    }
  }

  /** `df[name] = df[name].apply(conv)` on a whole frame. */
  function ConvertColumn(f: Frame, name: string, conv: Cell -> Result<Cell, Error>): (r: Result<Frame, Error>)
    requires WellFormed(f)
    ensures name !in f.columns ==> r == Err(UnknownColumn(name))
    ensures name in f.columns ==> (r.Ok? <==> forall i, j :: 0 <= i < |f.rows| && 0 <= j < |f.columns| && f.columns[j] == name ==> conv(f.rows[i].values[j]).Ok?)
    ensures name in f.columns && r.Err? ==> exists i, j :: 0 <= i < |f.rows| && 0 <= j < |f.columns| && f.columns[j] == name && conv(f.rows[i].values[j]) == Err(r.error)
    ensures r.Ok? ==> r.value.columns == f.columns && |r.value.rows| == |f.rows| && WellFormed(r.value)
    ensures r.Ok? ==> forall i, j :: 0 <= i < |f.rows| && 0 <= j < |f.columns| ==>
      r.value.rows[i].index == f.rows[i].index &&
      r.value.rows[i].values[j] ==
        if f.columns[j] == name then conv(f.rows[i].values[j]).value else f.rows[i].values[j]
  {
    match ColumnIndex(f.columns, name)
    case None => Err(UnknownColumn(name))
    case Some(k) =>
      assert forall j :: 0 <= j < |f.columns| ==> (f.columns[j] == name <==> j == k);
      match TryMapColumn(f.rows, k, conv)
      case Err(e) => Err(e)
      case Ok(rows) => Ok(Frame(f.columns, rows))
  }

  lemma SameIndices(a: seq<Row>, b: seq<Row>)
    requires |a| == |b| && forall i :: 0 <= i < |a| ==> a[i].index == b[i].index
    ensures Indices(a) == Indices(b)
  {
  }

  /** Deleting rows deletes their index labels and keeps the order of the
      others. */
  lemma {:induction false} IndicesSubsequence(a: seq<Row>, b: seq<Row>)
    requires IsSubsequence(a, b)
    ensures IsSubsequence(Indices(a), Indices(b))
    decreases |b|
  {
    if |a| > 0 {
      assert Indices(b)[1..] == Indices(b[1..]);
      if a[0] == b[0] && IsSubsequence(a[1..], b[1..]) {
        IndicesSubsequence(a[1..], b[1..]);
        assert Indices(a)[1..] == Indices(a[1..]);
      } else {
        IndicesSubsequence(a, b[1..]);
      }
    }
  }

  /** Rows taken in order from rows with distinct cells have distinct
      cells. */
  lemma {:induction false} SubsequenceUnique(a: seq<Row>, b: seq<Row>)
    requires IsSubsequence(a, b) && UniqueValues(b)
    ensures UniqueValues(a)
    decreases |b|
  {
    if |a| > 0 {
      assert UniqueValues(b[1..]) by {
        assert forall i :: 0 <= i < |b[1..]| ==> b[1..][i] == b[i + 1];
      }
      if a[0] == b[0] && IsSubsequence(a[1..], b[1..]) {
        SubsequenceUnique(a[1..], b[1..]);
        SubsequenceMembers(a[1..], b[1..]);
        forall j | 0 < j < |a|
          ensures a[0].values != a[j].values
        {
          assert a[j] == a[1..][j - 1];
          assert a[j] in b[1..];
          var k :| 0 <= k < |b[1..]| && b[1..][k] == a[j];
          assert b[k + 1] == a[j];
        }
        forall i, j | 0 < i < j < |a|
          ensures a[i].values != a[j].values
        {
          assert a[i] == a[1..][i - 1] && a[j] == a[1..][j - 1];
        }
      } else {
        SubsequenceUnique(a, b[1..]);
      }
    }
  }
}
