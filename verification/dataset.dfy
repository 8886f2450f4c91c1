/** The data-cleaning stage of ml/data/make_dataset.py: projection onto the
    24-column listing schema, the missing-value policy, and price parsing.

    A pandas DataFrame is modelled column-major: a table has a row count and a
    sequence of named columns; every column holds one nullable cell per row and a
    dtype tag saying whether pandas stores it as `object` (strings) or as a
    numeric dtype (`float64`/`int64`).
 */
module Dataset {
  import opened Wrappers
  import opened Text

  /** A non-null cell value. */
  datatype Cell = Str(s: string) | Num(x: real)

  /** The pandas dtype family of a column, as `select_dtypes` sees it. */
  datatype DType = Object | Numeric

  datatype Column = Column(name: string, dtype: DType, cells: seq<Option<Cell>>)

  datatype Table = Table(nrows: nat, columns: seq<Column>)

  /** `df[cols]` with absent labels raises KeyError naming the absent labels. */
  datatype SchemaError = MissingColumns(names: seq<string>)

  /** A column has one cell per row, and a numeric column holds only numbers. */
  predicate ValidColumn(c: Column, n: nat) {
    && |c.cells| == n
    && (c.dtype == Numeric ==> forall i :: 0 <= i < n ==> c.cells[i].None? || c.cells[i].value.Num?)
  }

  predicate Valid(t: Table) {
    forall j :: 0 <= j < |t.columns| ==> ValidColumn(t.columns[j], t.nrows)
  }

  predicate DistinctNames(cols: seq<Column>) {
    forall i, j :: 0 <= i < j < |cols| ==> cols[i].name != cols[j].name
  }

  predicate NoNulls(c: Column) {
    forall i :: 0 <= i < |c.cells| ==> c.cells[i].Some?
  }

  function Names(cols: seq<Column>): (ns: seq<string>)
    ensures |ns| == |cols|
    ensures forall j :: 0 <= j < |cols| ==> ns[j] == cols[j].name
  {
    if |cols| == 0 then [] else [cols[0].name] + Names(cols[1..])
  }

  /** Position of the first column with the given name, or |cols| when absent. */
  function ColumnIndex(cols: seq<Column>, name: string): (k: nat)
    ensures k <= |cols|
    ensures k < |cols| ==> cols[k].name == name
    ensures forall j :: 0 <= j < k ==> cols[j].name != name
    ensures k < |cols| <==> name in Names(cols)
  {
    if |cols| == 0 then 0
    else if cols[0].name == name then 0
    else 1 + ColumnIndex(cols[1..], name)
  }

  /** The column that `df[name]` returns. */
  function Lookup(cols: seq<Column>, name: string): (c: Column)
    requires name in Names(cols)
    ensures c in cols && c.name == name
  {
    cols[ColumnIndex(cols, name)]
  }

  // ---------------------------------------------------------------------------
  // select_columns
  // ---------------------------------------------------------------------------

  /** The 24 columns the pipeline keeps, in the order the source lists them. */
  const RequiredColumns: seq<string> := [
    "id", "listing_url", "price", "property_type", "room_type", "bathrooms_text",
    "bedrooms", "beds", "accommodates", "latitude", "longitude",
    "neighbourhood_group_cleansed", "neighbourhood_cleansed", "neighborhood_overview",
    "description", "amenities", "host_about", "review_scores_rating",
    "review_scores_cleanliness", "review_scores_checkin", "review_scores_communication",
    "review_scores_location", "review_scores_value", "number_of_reviews"
  ]

  /** The requested names the table lacks, in request order. */
  function MissingNames(cols: seq<Column>, names: seq<string>): (m: seq<string>)
    ensures forall x :: x in m <==> x in names && x !in Names(cols)
  {
    if |names| == 0 then []
    else (if names[0] in Names(cols) then [] else [names[0]]) + MissingNames(cols, names[1..])
  }

  /** `df[names]` when every name is present: the named columns, in request order. */
  function Project(cols: seq<Column>, names: seq<string>): (r: seq<Column>)
    requires forall x :: x in names ==> x in Names(cols)
    ensures Names(r) == names
    ensures forall j :: 0 <= j < |names| ==> r[j] == Lookup(cols, names[j])
  {
    seq(|names|, j requires 0 <= j < |names| => Lookup(cols, names[j]))
  }

  /** select_columns: exactly the 24 required columns in listed order, or a
      KeyError naming every required column the input lacks. */
  function SelectColumns(t: Table): (r: Result<Table, SchemaError>)
    ensures r.Ok? <==> forall x :: x in RequiredColumns ==> x in Names(t.columns)
    ensures r.Err? ==> forall x :: x in r.error.names <==> x in RequiredColumns && x !in Names(t.columns)
    ensures r.Ok? ==> r.value.nrows == t.nrows && Names(r.value.columns) == RequiredColumns
    ensures r.Ok? ==> forall j :: 0 <= j < |RequiredColumns| ==>
                        r.value.columns[j] in t.columns && r.value.columns[j].name == RequiredColumns[j]
    ensures r.Ok? && Valid(t) ==> Valid(r.value)
  {
    var missing := MissingNames(t.columns, RequiredColumns);
    if |missing| > 0 then
      assert missing[0] in missing;
      Err(MissingColumns(missing))
    else
      assert missing == [];
      Ok(Table(t.nrows, Project(t.columns, RequiredColumns)))
  }

  lemma RequiredColumnsDistinct()
    ensures forall i, j :: 0 <= i < j < |RequiredColumns| ==> RequiredColumns[i] != RequiredColumns[j]
  {
  }

  /** The selected table has distinct column names. */
  lemma SelectedDistinct(t: Table)
    requires SelectColumns(t).Ok?
    ensures DistinctNames(SelectColumns(t).value.columns)
  {
    var cols := SelectColumns(t).value.columns;
    RequiredColumnsDistinct();
    forall i, j | 0 <= i < j < |cols| ensures cols[i].name != cols[j].name {
      assert cols[i].name == Names(cols)[i] == RequiredColumns[i];
      assert cols[j].name == Names(cols)[j] == RequiredColumns[j];
    }
  }

  // ---------------------------------------------------------------------------
  // handle_missing_values
  // ---------------------------------------------------------------------------

  /** `Series.count()`: the number of non-null cells. */
  function NonNullCount(cells: seq<Option<Cell>>): (k: nat)
    ensures k <= |cells|
  {
    if |cells| == 0 then 0 else (if cells[0].Some? then 1 else 0) + NonNullCount(cells[1..])
  }

  /** `dropna(thresh=0.5 * nrows, axis=1)` keeps a column iff its non-null count
      reaches half the row count. */
  predicate Keeps(c: Column, n: nat) {
    2 * NonNullCount(c.cells) >= n
  }

  /** The number of numeric cells. */
  function NumCount(cells: seq<Option<Cell>>): (k: nat)
    ensures k <= NonNullCount(cells)
  {
    if |cells| == 0 then 0 else (if cells[0].Some? && cells[0].value.Num? then 1 else 0) + NumCount(cells[1..])
  }

  /** The sum of the numeric cells. */
  function NumSum(cells: seq<Option<Cell>>): real
  {
    if |cells| == 0 then 0.0 else (if cells[0].Some? && cells[0].value.Num? then cells[0].value.x else 0.0) + NumSum(cells[1..])
  }

  /** `Series.mean()`, which skips nulls; NaN (None) when nothing is left. */
  function Mean(cells: seq<Option<Cell>>): (m: Option<real>)
    ensures m.None? <==> NumCount(cells) == 0
    ensures m.Some? ==> m.value * NumCount(cells) as real == NumSum(cells)
  {
    var k := NumCount(cells);
    if k == 0 then None else Some(NumSum(cells) / k as real)
  }

  /** `fillna(v)` on a single cell. */
  function FillNull(v: Option<Cell>, fill: Cell): (r: Option<Cell>)
    ensures r.Some?
    ensures v.Some? ==> r == v
  {
    if v.None? then Some(fill) else v
  }

  function FillCells(cells: seq<Option<Cell>>, fill: Cell): (r: seq<Option<Cell>>)
    ensures |r| == |cells|
    ensures forall i :: 0 <= i < |cells| ==> r[i] == FillNull(cells[i], fill)
  {
    seq(|cells|, i requires 0 <= i < |cells| => FillNull(cells[i], fill))
  }

  /** The fill step for one surviving column: object columns get '', numeric
      columns get their mean (a NaN mean fills nothing). */
  function FillColumn(c: Column): (r: Column)
    ensures r.name == c.name && r.dtype == c.dtype && |r.cells| == |c.cells|
  {
    match c.dtype
    case Object => c.(cells := FillCells(c.cells, Str("")))
    case Numeric =>
      match Mean(c.cells)
      case None => c
      case Some(m) => c.(cells := FillCells(c.cells, Num(m)))
  }

  /** The columns `dropna` keeps, in their original order. */
  function KeptColumns(cols: seq<Column>, n: nat): (r: seq<Column>)
    ensures |r| <= |cols|
    ensures forall c :: c in r <==> c in cols && Keeps(c, n)
  {
    if |cols| == 0 then []
    else (if Keeps(cols[0], n) then [cols[0]] else []) + KeptColumns(cols[1..], n)
  }

  /** Which columns `dropna` keeps, one flag per column. */
  function KeptFlags(cols: seq<Column>, n: nat): (f: seq<bool>)
    ensures |f| == |cols|
    ensures forall j :: 0 <= j < |cols| ==> (f[j] <==> Keeps(cols[j], n))
  {
    seq(|cols|, j requires 0 <= j < |cols| => Keeps(cols[j], n))
  }

  /** The positions from `i` on whose flag is set. */
  function FlagPositions(f: seq<bool>, i: nat): (ps: seq<nat>)
    requires i <= |f|
    ensures forall k :: 0 <= k < |ps| ==> i <= ps[k] < |f|
    decreases |f| - i
  {
    if i == |f| then []
    else if f[i] then [i] + FlagPositions(f, i + 1)
    else FlagPositions(f, i + 1)
  }

  /** Every position from `i` on carries a set flag. */
  lemma {:induction false} FlagPositionsFlagged(f: seq<bool>, i: nat)
    requires i <= |f|
    ensures forall k :: 0 <= k < |FlagPositions(f, i)| ==> f[FlagPositions(f, i)[k]]
    decreases |f| - i
  {
    if i < |f| {
      FlagPositionsFlagged(f, i + 1);
      var rest := FlagPositions(f, i + 1);
      var ps := FlagPositions(f, i);
      if f[i] {
        assert ps == [i] + rest;
        forall k | 1 <= k < |ps| ensures f[ps[k]] {
          assert ps[k] == rest[k - 1];
        }
      } else {
        assert ps == rest;
      }
    }
  }

  /** The positions from `i` on are strictly increasing, so each is listed once. */
  lemma {:induction false} FlagPositionsIncreasing(f: seq<bool>, i: nat)
    requires i <= |f|
    ensures forall k, m :: 0 <= k < m < |FlagPositions(f, i)| ==> FlagPositions(f, i)[k] < FlagPositions(f, i)[m]
    decreases |f| - i
  {
    if i < |f| {
      FlagPositionsIncreasing(f, i + 1);
      var rest := FlagPositions(f, i + 1);
      var ps := FlagPositions(f, i);
      if f[i] {
        assert ps == [i] + rest;
        forall k, m | 0 <= k < m < |ps| ensures ps[k] < ps[m] {
          assert ps[m] == rest[m - 1];
          if k > 0 {
            assert ps[k] == rest[k - 1];
          }
        }
      } else {
        assert ps == rest;
      }
    }
  }

  /** Every set flag from `i` on is among the positions. */
  lemma {:induction false} FlagPositionsComplete(f: seq<bool>, i: nat, j: nat)
    requires i <= j < |f| && f[j]
    ensures j in FlagPositions(f, i)
    decreases |f| - i
  {
    var ps := FlagPositions(f, i);
    if i < j {
      FlagPositionsComplete(f, i + 1, j);
      var rest := FlagPositions(f, i + 1);
      var k :| 0 <= k < |rest| && rest[k] == j;
      if f[i] {
        assert ps == [i] + rest;
        assert ps[k + 1] == j;
      } else {
        assert ps == rest;
      }
    } else {
      assert ps == [i] + FlagPositions(f, i + 1);
      assert ps[0] == j;
    }
  }

  /** The positions of the columns `dropna` keeps, in input order. */
  function KeptPositions(cols: seq<Column>, n: nat): (ps: seq<nat>)
    ensures forall k :: 0 <= k < |ps| ==> ps[k] < |cols|
  {
    FlagPositions(KeptFlags(cols, n), 0)
  }

  /** The kept positions are exactly the columns `dropna` keeps, each once,
      in increasing order. */
  lemma KeptPositionsSound(cols: seq<Column>, n: nat)
    ensures var ps := KeptPositions(cols, n);
            (forall k :: 0 <= k < |ps| ==> Keeps(cols[ps[k]], n))
            && (forall k, m :: 0 <= k < m < |ps| ==> ps[k] < ps[m])
            && (forall j :: 0 <= j < |cols| && Keeps(cols[j], n) ==> j in ps)
  {
    var f := KeptFlags(cols, n);
    FlagPositionsFlagged(f, 0);
    FlagPositionsIncreasing(f, 0);
    forall j | 0 <= j < |cols| && Keeps(cols[j], n) ensures j in KeptPositions(cols, n) {
      FlagPositionsComplete(f, 0, j);
    }
  }

  /** One step of `dropna` over the columns from `i` on. */
  lemma KeptColumnsStep(cols: seq<Column>, n: nat, i: nat)
    requires i < |cols|
    ensures Keeps(cols[i], n) ==> KeptColumns(cols[i..], n) == [cols[i]] + KeptColumns(cols[i + 1..], n)
    ensures !Keeps(cols[i], n) ==> KeptColumns(cols[i..], n) == KeptColumns(cols[i + 1..], n)
  {
    assert cols[i..][1..] == cols[i + 1..];
    assert [] + KeptColumns(cols[i + 1..], n) == KeptColumns(cols[i + 1..], n);
  }

  /** Picking `cols[i]` before a picked run extends the run by one. */
  lemma PickedCons<T>(cols: seq<T>, i: nat, tail: seq<T>, rest: seq<nat>)
    requires i < |cols| && |tail| == |rest|
    requires forall k :: 0 <= k < |rest| ==> rest[k] < |cols| && tail[k] == cols[rest[k]]
    ensures forall k :: 0 <= k < |rest| + 1 ==> ([i] + rest)[k] < |cols| && ([cols[i]] + tail)[k] == cols[([i] + rest)[k]]
  {
    forall k | 1 <= k < |rest| + 1
      ensures ([i] + rest)[k] < |cols| && ([cols[i]] + tail)[k] == cols[([i] + rest)[k]]
    {
      assert ([i] + rest)[k] == rest[k - 1];
      assert ([cols[i]] + tail)[k] == tail[k - 1];
    }
  }

  /** `dropna` keeps the kept columns once each, in their input order: the
      k-th surviving column of `cols[i..]` is the column at the k-th set flag
      from `i` on. */
  lemma {:induction false} KeptColumnsFrom(cols: seq<Column>, n: nat, i: nat)
    requires i <= |cols|
    ensures var ps := FlagPositions(KeptFlags(cols, n), i);
            var r := KeptColumns(cols[i..], n);
            |r| == |ps| && forall k :: 0 <= k < |ps| ==> r[k] == cols[ps[k]]
    decreases |cols| - i
  {
    if i < |cols| {
      var f := KeptFlags(cols, n);
      KeptColumnsFrom(cols, n, i + 1);
      KeptColumnsStep(cols, n, i);
      var rest := FlagPositions(f, i + 1);
      var tail := KeptColumns(cols[i + 1..], n);
      var r := KeptColumns(cols[i..], n);
      var ps := FlagPositions(f, i);
      if f[i] {
        assert r == [cols[i]] + tail;
        assert ps == [i] + rest;
        PickedCons(cols, i, tail, rest);
      } else {
        assert r == tail;
        assert ps == rest;
      }
    }
  }

  /** The k-th column `dropna` keeps is the input column at the k-th kept
      position. */
  lemma KeptColumnsAt(cols: seq<Column>, n: nat)
    ensures var ps := KeptPositions(cols, n);
            var r := KeptColumns(cols, n);
            |r| == |ps| && forall k :: 0 <= k < |ps| ==> r[k] == cols[ps[k]]
  {
    KeptColumnsFrom(cols, n, 0);
    assert cols[0..] == cols;
  }

  function FillAll(cols: seq<Column>): (r: seq<Column>)
    ensures |r| == |cols|
    ensures forall j :: 0 <= j < |cols| ==> r[j] == FillColumn(cols[j])
    ensures Names(r) == Names(cols)
  {
    seq(|cols|, j requires 0 <= j < |cols| => FillColumn(cols[j]))
  }

  /** handle_missing_values: drops sparse columns, fills the rest; never drops a row. */
  function HandleMissingValues(t: Table): (r: Table)
    ensures r.nrows == t.nrows
    ensures |r.columns| <= |t.columns|
    ensures forall name :: name in Names(r.columns) ==> name in Names(t.columns)
  {
    var kept := KeptColumns(t.columns, t.nrows);
    NamesOfSubset(kept, t.columns);
    Table(t.nrows, FillAll(kept))
  }

  /** handle_missing_values keeps the surviving columns in their input order,
      once each, each one filled: the k-th output column is the filled input
      column at the k-th kept position. */
  lemma HandleMissingValuesOrder(t: Table)
    ensures var ps := KeptPositions(t.columns, t.nrows);
            var r := HandleMissingValues(t);
            |r.columns| == |ps| && forall k :: 0 <= k < |ps| ==> r.columns[k] == FillColumn(t.columns[ps[k]])
  {
    KeptColumnsAt(t.columns, t.nrows);
  }

  lemma NamesOfSubset(sub: seq<Column>, cols: seq<Column>)
    requires forall c :: c in sub ==> c in cols
    ensures forall name :: name in Names(sub) ==> name in Names(cols)
  {
    forall name | name in Names(sub) ensures name in Names(cols) {
      var k :| 0 <= k < |sub| && Names(sub)[k] == name;
      assert sub[k] in sub;
      var j :| 0 <= j < |cols| && cols[j] == sub[k];
      assert Names(cols)[j] == name;
    }
  }

  /** k copies of x added together. */
  function Times(k: nat, x: real): real
  {
    if k == 0 then 0.0 else x + Times(k - 1, x)
  }

  lemma {:induction false} TimesIsProduct(k: nat, x: real)
    ensures Times(k, x) == k as real * x
  {
    if k > 0 {
      TimesIsProduct(k - 1, x);
      assert (k - 1) as real * x + x == k as real * x;
    }
  }

  /** The numeric cells sum to at least count copies of lo when every value is at least lo. */
  lemma {:induction false} NumSumLower(cells: seq<Option<Cell>>, lo: real)
    requires forall i :: 0 <= i < |cells| && cells[i].Some? && cells[i].value.Num? ==> lo <= cells[i].value.x
    ensures Times(NumCount(cells), lo) <= NumSum(cells)
  {
    if |cells| > 0 {
      var rest := cells[1..];
      assert forall i :: 0 <= i < |rest| ==> rest[i] == cells[i + 1];
      NumSumLower(rest, lo);
    }
  }

  /** The numeric cells sum to at most count copies of hi when every value is at most hi. */
  lemma {:induction false} NumSumUpper(cells: seq<Option<Cell>>, hi: real)
    requires forall i :: 0 <= i < |cells| && cells[i].Some? && cells[i].value.Num? ==> cells[i].value.x <= hi
    ensures NumSum(cells) <= Times(NumCount(cells), hi)
  {
    if |cells| > 0 {
      var rest := cells[1..];
      assert forall i :: 0 <= i < |rest| ==> rest[i] == cells[i + 1];
      NumSumUpper(rest, hi);
    }
  }

  lemma DivBetween(s: real, k: real, lo: real, hi: real)
    requires k > 0.0
    requires k * lo <= s <= k * hi
    ensures lo <= s / k <= hi
  {
    var m := s / k;
    assert m * k == s;
    assert (m - lo) * k == s - lo * k;
    assert (hi - m) * k == hi * k - s;
  }

  /** The mean used to fill a numeric column lies between the smallest and the
      largest non-null value of that column. */
  lemma MeanWithinRange(cells: seq<Option<Cell>>, lo: real, hi: real)
    requires forall i :: 0 <= i < |cells| && cells[i].Some? && cells[i].value.Num? ==> lo <= cells[i].value.x <= hi
    requires Mean(cells).Some?
    ensures lo <= Mean(cells).value <= hi
  {
    var k := NumCount(cells);
    NumSumLower(cells, lo);
    NumSumUpper(cells, hi);
    TimesIsProduct(k, lo);
    TimesIsProduct(k, hi);
    DivBetween(NumSum(cells), k as real, lo, hi);
  }

  /** In a numeric column every non-null cell is a number. */
  lemma {:induction false} NumericCounts(cells: seq<Option<Cell>>)
    requires forall i :: 0 <= i < |cells| ==> cells[i].None? || cells[i].value.Num?
    ensures NumCount(cells) == NonNullCount(cells)
  {
    if |cells| > 0 {
      NumericCounts(cells[1..]);
    }
  }

  lemma {:induction false} NoNullCount(cells: seq<Option<Cell>>)
    requires forall i :: 0 <= i < |cells| ==> cells[i].Some?
    ensures NonNullCount(cells) == |cells|
  {
    if |cells| > 0 {
      NoNullCount(cells[1..]);
    }
  }

  /** The keep/drop rule: a column survives iff its non-null count is at least
      half the row count. */
  lemma KeepRule(t: Table, j: nat)
    requires DistinctNames(t.columns) && j < |t.columns|
    ensures t.columns[j].name in Names(HandleMissingValues(t).columns) <==> Keeps(t.columns[j], t.nrows)
    ensures Keeps(t.columns[j], t.nrows) ==>
              Lookup(HandleMissingValues(t).columns, t.columns[j].name) == FillColumn(t.columns[j])
  {
    var c := t.columns[j];
    var kept := KeptColumns(t.columns, t.nrows);
    var r := HandleMissingValues(t).columns;
    assert r == FillAll(kept);
    if Keeps(c, t.nrows) {
      assert c in kept;
      var k :| 0 <= k < |kept| && kept[k] == c;
      assert Names(r)[k] == c.name;
      var i := ColumnIndex(r, c.name);
      assert kept[i] in t.columns;
      assert kept[i].name == r[i].name == c.name;
    } else {
      forall k | 0 <= k < |r| ensures Names(r)[k] != c.name {
        assert kept[k] in kept;
        assert kept[k] in t.columns && Keeps(kept[k], t.nrows);
      }
    }
  }

  /** Surviving string columns: nulls become '', other cells are unchanged. */
  lemma ObjectFill(c: Column)
    requires c.dtype == Object
    ensures NoNulls(FillColumn(c))
    ensures forall i :: 0 <= i < |c.cells| ==>
              FillColumn(c).cells[i] == (if c.cells[i].None? then Some(Str("")) else c.cells[i])
  {
  }

  /** Surviving numeric columns: nulls become the mean of the non-null values,
      other cells are unchanged; a kept numeric column of a non-empty table
      always has a mean. */
  lemma NumericFill(c: Column, n: nat)
    requires c.dtype == Numeric && ValidColumn(c, n) && Keeps(c, n) && n >= 1
    ensures Mean(c.cells).Some?
    ensures Mean(c.cells).value == NumSum(c.cells) / NonNullCount(c.cells) as real
    ensures NoNulls(FillColumn(c))
    ensures forall i :: 0 <= i < n ==>
              FillColumn(c).cells[i] == (if c.cells[i].None? then Some(Num(Mean(c.cells).value)) else c.cells[i])
  {
    NumericCounts(c.cells);
  }

  /** On a table without nulls, handle_missing_values keeps every column and
      fills nothing. */
  lemma NoNullsIdentity(t: Table)
    requires Valid(t)
    requires forall j :: 0 <= j < |t.columns| ==> NoNulls(t.columns[j])
    ensures HandleMissingValues(t) == t
  {
    assert KeptColumns(t.columns, t.nrows) == t.columns by {
      KeepAll(t.columns, t.nrows);
    }
    forall j | 0 <= j < |t.columns| ensures FillColumn(t.columns[j]) == t.columns[j] {
      var c := t.columns[j];
      assert ValidColumn(c, t.nrows);
      match c.dtype
      case Object =>
        assert FillCells(c.cells, Str("")) == c.cells;
      case Numeric =>
        if Mean(c.cells).Some? {
          assert FillCells(c.cells, Num(Mean(c.cells).value)) == c.cells;
        }
    }
  }

  lemma {:induction false} KeepAll(cols: seq<Column>, n: nat)
    requires forall j :: 0 <= j < |cols| ==> NoNulls(cols[j]) && |cols[j].cells| == n
    ensures KeptColumns(cols, n) == cols
  {
    if |cols| > 0 {
      NoNullCount(cols[0].cells);
      KeepAll(cols[1..], n);
      assert [cols[0]] + cols[1..] == cols;
    }
  }

  // ---------------------------------------------------------------------------
  // clean_price_column
  // ---------------------------------------------------------------------------

  /** `replace('', np.nan)`: an empty string becomes null. */
  function EmptyToNull(v: Option<Cell>): (r: Option<Cell>)
    ensures r.None? <==> v.None? || v == Some(Str(""))
    ensures r.Some? ==> r == v
  {
    if v == Some(Str("")) then None else v
  }

  /** `replace({'\$': '', ',': ''}, regex=True)`: strings lose every '$' and ','. */
  function StripSymbols(v: Option<Cell>): (r: Option<Cell>)
    ensures r.None? <==> v.None?
    ensures v.Some? && v.value.Num? ==> r == v
    ensures v.Some? && v.value.Str? ==>
              && r.value.Str?
              && '$' !in r.value.s && ',' !in r.value.s
              && (forall x :: x in r.value.s <==> x in v.value.s && x != '$' && x != ',')
              && |r.value.s| + multiset(v.value.s)['$'] + multiset(v.value.s)[','] == |v.value.s|
              && (forall x :: x != '$' && x != ',' ==> multiset(r.value.s)[x] == multiset(v.value.s)[x])
  {
    match v
    case Some(Str(s)) =>
      var t := RemoveChar(s, '$');
      RemoveCharCount(s, '$');
      RemoveCharCount(t, ',');
      Some(Str(RemoveChar(t, ',')))
    case _ => v
  }

  /** Stripping works piece by piece, so the kept characters stay in order. */
  lemma StripSymbolsConcat(a: string, b: string)
    ensures StripSymbols(Some(Str(a + b))) ==
            Some(Str(StripSymbols(Some(Str(a))).value.s + StripSymbols(Some(Str(b))).value.s))
  {
    RemoveCharConcat(a, b, '$');
    RemoveCharConcat(RemoveChar(a, '$'), RemoveChar(b, '$'), ',');
  }

  /** One character is dropped iff it is `$` or `,`. */
  lemma StripSymbolsSingle(x: char)
    ensures StripSymbols(Some(Str([x]))) == Some(Str(if x == '$' || x == ',' then "" else [x]))
  {
    RemoveCharSingle(x, '$');
    if x != '$' {
      RemoveCharSingle(x, ',');
    }
  }

  /** `pd.to_numeric(errors='coerce')`: strings parse or become null; numbers and
      nulls stay. */
  function ToNumeric(v: Option<Cell>): (r: Option<Cell>)
    ensures r.None? || r.value.Num?
    ensures v.None? || v.value.Num? ==> r == v
    ensures v.Some? && v.value.Str? ==>
              (r.Some? <==> ParseDecimal(v.value.s).Some?)
              && (r.Some? ==> r.value.x == ParseDecimal(v.value.s).value)
  {
    match v
    case Some(Str(s)) =>
      (match ParseDecimal(s)
       case Some(x) => Some(Num(x))
       case None => None)
    case _ => v
  }

  /** The three price stages applied to one cell, in source order. */
  function PriceCell(v: Option<Cell>): (r: Option<Cell>)
    ensures r.None? || r.value.Num?
    ensures v.None? ==> r.None?
    ensures v.Some? && v.value.Num? ==> r == v
    ensures v.Some? && v.value.Str? ==>
              r == (match ParseDecimal(RemoveChar(RemoveChar(v.value.s, '$'), ','))
                    case Some(x) => Some(Num(x))
                    case None => None)
  {
    ToNumeric(StripSymbols(EmptyToNull(v)))
  }

  /** clean_price_column: rewrites the price cells when a price column exists;
      every other column, and a table without price, is left untouched. */
  function CleanPriceColumn(t: Table): (r: Table)
    ensures r.nrows == t.nrows && Names(r.columns) == Names(t.columns)
    ensures "price" !in Names(t.columns) ==> r == t
    ensures forall j :: 0 <= j < |t.columns| && t.columns[j].name != "price" ==> r.columns[j] == t.columns[j]
    ensures forall j :: 0 <= j < |t.columns| && t.columns[j].name == "price" && j == ColumnIndex(t.columns, "price") ==>
              r.columns[j].dtype == t.columns[j].dtype && |r.columns[j].cells| == |t.columns[j].cells|
              && forall i :: 0 <= i < |t.columns[j].cells| ==> r.columns[j].cells[i] == PriceCell(t.columns[j].cells[i])
  {
    var k := ColumnIndex(t.columns, "price");
    if k == |t.columns| then t
    else
      var c := t.columns[k];
      var cells := seq(|c.cells|, i requires 0 <= i < |c.cells| => PriceCell(c.cells[i]));
      var r := Table(t.nrows, t.columns[k := c.(cells := cells)]);
      assert forall j :: 0 <= j < |t.columns| ==> Names(r.columns)[j] == Names(t.columns)[j];
      r
  }

  /** "$1,234.50" cleans to 1234.5. */
  lemma PriceExample()
    ensures PriceCell(Some(Str("$1,234.50"))) == Some(Num(1234.5))
  {
    var s := "$1,234.50";
    assert s[1..] == "1,234.50";
    assert '$' !in "1,234.50";
    assert RemoveChar(s, '$') == "1,234.50";
    StripCommaExample();
    ParseExample();
  }

  lemma ParseExample()
    ensures ParseDecimal("1234.50") == Some(1234.5)
  {
    var p := "1234.50";
    assert DotIndex(p) == 4;
    assert p[..4] == "1234" && p[5..] == "50";
    DigitsExample();
    assert Pow10(2) == 100;
    assert ParseUnsigned(p) == Some(1234.0 + 50.0 / 100.0);
  }

  lemma DigitsExample()
    ensures DigitsValue("1234") == 1234 && DigitsValue("50") == 50
  {
    assert "1234"[..3] == "123" && "123"[..2] == "12" && "12"[..1] == "1";
    assert "50"[..1] == "5";
  }

  lemma StripCommaExample()
    ensures RemoveChar("1,234.50", ',') == "1234.50"
  {
    assert ',' !in "234.50";
    DropSecond('1', ',', "234.50");
    assert "1,234.50" == ['1'] + ([','] + "234.50");
    assert "1234.50" == ['1'] + "234.50";
  }

  /** Removing c from `x c u`, where only the middle character is c. */
  lemma DropSecond(x: char, c: char, u: string)
    requires x != c && c !in u
    ensures RemoveChar([x] + ([c] + u), c) == [x] + u
  {
    var s := [x] + ([c] + u);
    assert s[1..] == [c] + u;
    assert ([c] + u)[1..] == u;
  }

  /** An empty or unparsable price string ends up null. */
  lemma PriceUnparsable(s: string)
    requires ParseDecimal(RemoveChar(RemoveChar(s, '$'), ',')).None?
    ensures PriceCell(Some(Str(s))).None?
  {
  }

  lemma EmptyPriceIsNull()
    ensures PriceCell(Some(Str(""))).None?
  {
  }

  // ---------------------------------------------------------------------------
  // clean_data
  // ---------------------------------------------------------------------------

  /** The two stages that follow selection, in source order: fill, then price. */
  function CleanSelected(sel: Table): (r: Table)
    ensures r.nrows == sel.nrows
    ensures Names(r.columns) == Names(HandleMissingValues(sel).columns)
  {
    CleanPriceColumn(HandleMissingValues(sel))
  }

  /** clean_data: select, then handle missing values, then clean the price. */
  function CleanData(t: Table): (r: Result<Table, SchemaError>)
    ensures r.Err? <==> exists x :: x in RequiredColumns && x !in Names(t.columns)
    ensures r.Err? ==> r == Err(SelectColumns(t).error)
    ensures r.Ok? ==> r.value.nrows == t.nrows
    ensures r.Ok? ==> forall name :: name in Names(r.value.columns) ==> name in RequiredColumns
    ensures r.Ok? ==> SelectColumns(t).Ok? && r.value == CleanSelected(SelectColumns(t).value)
  {
    match SelectColumns(t)
    case Err(e) => Err(e)
    case Ok(selected) => Ok(CleanSelected(selected))
  }

  /** A selected table: distinct names, one of which is "price" at position p. */
  predicate PriceAt(sel: Table, p: nat) {
    DistinctNames(sel.columns) && p < |sel.columns| && sel.columns[p].name == "price"
  }

  /** Successful selection puts the price column at position 2 of a distinct-named table. */
  lemma SelectedPriceAt(t: Table)
    requires SelectColumns(t).Ok?
    ensures PriceAt(SelectColumns(t).value, 2)
  {
    SelectedDistinct(t);
    PriceIsThird();
    assert Names(SelectColumns(t).value.columns)[2] == "price";
  }

  lemma PriceIsThird()
    ensures RequiredColumns[2] == "price"
  {
  }

  /** The price column after both stages is the filled price column with every
      cell passed through the price stages. */
  lemma CleanedPrice(sel: Table, p: nat)
    requires PriceAt(sel, p) && Keeps(sel.columns[p], sel.nrows)
    ensures "price" in Names(CleanSelected(sel).columns)
    ensures var out := Lookup(CleanSelected(sel).columns, "price");
            var filled := FillColumn(sel.columns[p]);
            |out.cells| == |filled.cells|
            && forall i :: 0 <= i < |filled.cells| ==> out.cells[i] == PriceCell(filled.cells[i])
  {
    KeepRule(sel, p);
    var h := HandleMissingValues(sel);
    var k := ColumnIndex(h.columns, "price");
    assert h.columns[k] == FillColumn(sel.columns[p]);
    assert Names(CleanSelected(sel).columns)[k] == "price";
  }

  /** Because price cleaning runs after filling, a null or unparsable price in a
      string-typed price column ends up null: it is never mean-filled. */
  lemma MissingPriceStaysMissing(sel: Table, p: nat, i: nat)
    requires PriceAt(sel, p) && Keeps(sel.columns[p], sel.nrows)
    requires sel.columns[p].dtype == Object && i < |sel.columns[p].cells|
    requires var v := sel.columns[p].cells[i];
             v.None? || (v.value.Str? && ParseDecimal(RemoveChar(RemoveChar(v.value.s, '$'), ',')).None?)
    ensures "price" in Names(CleanSelected(sel).columns)
    ensures var out := Lookup(CleanSelected(sel).columns, "price");
            i < |out.cells| && out.cells[i].None?
  {
    var pc := sel.columns[p];
    CleanedPrice(sel, p);
    ObjectFill(pc);
    var filled := FillColumn(pc);
    if pc.cells[i].None? {
      assert filled.cells[i] == Some(Str(""));
      EmptyPriceIsNull();
    } else {
      assert filled.cells[i] == pc.cells[i];
    }
  }

  /** A numeric-typed price column, by contrast, is mean-filled before the price
      stages, which leave numbers alone. */
  lemma NumericPriceIsFilled(sel: Table, p: nat, i: nat)
    requires Valid(sel) && sel.nrows >= 1
    requires PriceAt(sel, p) && Keeps(sel.columns[p], sel.nrows)
    requires sel.columns[p].dtype == Numeric && i < |sel.columns[p].cells| && sel.columns[p].cells[i].None?
    ensures Mean(sel.columns[p].cells).Some?
    ensures "price" in Names(CleanSelected(sel).columns)
    ensures var out := Lookup(CleanSelected(sel).columns, "price");
            i < |out.cells| && out.cells[i] == Some(Num(Mean(sel.columns[p].cells).value))
  {
    var pc := sel.columns[p];
    assert ValidColumn(pc, sel.nrows);
    CleanedPrice(sel, p);
    NumericFill(pc, sel.nrows);
  }

  /** A price column that is mostly null is dropped, so price cleaning has nothing to do. */
  lemma SparsePriceDropped(sel: Table, p: nat)
    requires PriceAt(sel, p) && !Keeps(sel.columns[p], sel.nrows)
    ensures "price" !in Names(CleanSelected(sel).columns)
  {
    KeepRule(sel, p);
  }

  /** Cleaning is not idempotent: once a required column has been dropped as
      mostly null, cleaning the output again fails schema selection. */
  lemma CleanTwiceFailsAfterDrop(t: Table, j: nat)
    requires SelectColumns(t).Ok? && j < |RequiredColumns|
    requires !Keeps(SelectColumns(t).value.columns[j], t.nrows)
    ensures CleanData(CleanData(t).value).Err?
  {
    var sel := SelectColumns(t).value;
    SelectedDistinct(t);
    KeepRule(sel, j);
    var name := RequiredColumns[j];
    assert sel.columns[j].name == name;
    assert name !in Names(CleanData(t).value.columns);
  }

  /** After cleaning a non-empty valid table, every column except price is free of nulls. */
  lemma CleanedHasNoNulls(sel: Table)
    requires Valid(sel) && sel.nrows >= 1
    ensures forall j :: 0 <= j < |CleanSelected(sel).columns| && CleanSelected(sel).columns[j].name != "price" ==>
              NoNulls(CleanSelected(sel).columns[j])
  {
    var kept := KeptColumns(sel.columns, sel.nrows);
    var h := HandleMissingValues(sel);
    var out := CleanSelected(sel);
    forall j | 0 <= j < |out.columns| && out.columns[j].name != "price"
      ensures NoNulls(out.columns[j])
    {
      assert out.columns[j] == h.columns[j];
      var c := kept[j];
      assert c in kept;
      assert c in sel.columns && Keeps(c, sel.nrows);
      var k :| 0 <= k < |sel.columns| && sel.columns[k] == c;
      assert ValidColumn(c, sel.nrows);
      assert h.columns[j] == FillColumn(c);
      if c.dtype == Object {
        ObjectFill(c);
      } else {
        NumericFill(c, sel.nrows);
      }
    }
  }
}
