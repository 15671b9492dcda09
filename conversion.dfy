/**
 * What converting a forward-only result set into data-module instances
 * means, stated as functions over values: one cell, the first k columns of
 * a row, a whole row, and the sequence of rows a cursor yields.
 */
module RowConversion {
  import opened Wrappers
  import opened DataModules

  /** One row of a result set: a cell per column, `None` for SQL NULL. */
  type Row<R> = seq<Option<R>>

  /**
   * A forward-only cursor, seen as what it yields: its column count, the
   * rows it delivers in order, and whether the call to `next()` after the
   * last of them throws instead of reporting the end.
   */
  datatype ResultSet<R> = ResultSet(columnCount: nat, rows: seq<Row<R>>, failsAfterRows: bool)

  /**
   * Everything conversion consults: the module's layout and base offsets,
   * and the converter's attribute encoders by name. An encoder is the type
   * coercion followed by the attribute's own `convertValue`; it yields
   * `None` when either of them fails.
   */
  datatype Schema<!R, F> = Schema(
    columns: map<int, Column>,
    qualityInner: map<string, int>,
    quantityInner: map<string, int>,
    qualityAttributes: map<string, R -> Option<int>>,
    quantityAttributes: map<string, R -> Option<F>>)

  /** Why a conversion stopped. Every one of them aborts the whole conversion. */
  datatype Failure =
    | CursorFailure                 // the cursor raised a SQL exception
    | UnknownColumn(column: int)    // no layout entry for a column position
    | UnknownAttribute(name: string) // the converter has no attribute of that name
    | Unconvertible(column: int)    // coercion or encoding of the cell failed
    | UnknownBase(name: string)     // the module has no base offset for the attribute

  /** The committed instances so far and, once one occurred, the failure. */
  datatype Progress<F> = Progress(committed: seq<Instance<F>>, failure: Option<Failure>)

  /** The instances a whole conversion commits and what it returns or raises. */
  datatype Outcome<F> = Outcome(committed: seq<Instance<F>>, result: Result<nat, Failure>)

  // ---------------------------------------------------------------------
  // Cells

  /** Cell j is present and encodes successfully as a quality feature. */
  ghost predicate QualityCell<R, F>(s: Schema<R, F>, row: Row<R>, j: int) {
    && 0 <= j < |row| && row[j].Some?
    && j in s.columns && s.columns[j].isQuality
    && s.columns[j].name in s.qualityAttributes
    && s.qualityAttributes[s.columns[j].name](row[j].value).Some?
    && s.columns[j].name in s.qualityInner
  }

  /** Cell j is present and encodes successfully as a quantity feature. */
  ghost predicate QuantityCell<R, F>(s: Schema<R, F>, row: Row<R>, j: int) {
    && 0 <= j < |row| && row[j].Some?
    && j in s.columns && !s.columns[j].isQuality
    && s.columns[j].name in s.quantityAttributes
    && s.quantityAttributes[s.columns[j].name](row[j].value).Some?
    && s.columns[j].name in s.quantityInner
  }

  /** Column j can be read, and it is NULL or encodes as one of the two kinds. */
  ghost predicate CellAccepted<R, F>(s: Schema<R, F>, row: Row<R>, j: int) {
    0 <= j < |row| && (row[j].None? || QualityCell(s, row, j) || QuantityCell(s, row, j))
  }

  /** Global quality index of column j: attribute base plus offset within the attribute. */
  ghost function QualityKey<R, F>(s: Schema<R, F>, j: int): int
    requires j in s.columns && s.columns[j].name in s.qualityInner
  {
    s.qualityInner[s.columns[j].name] + j - s.columns[j].firstColumn
  }

  /** Global quantity index of column j. */
  ghost function QuantityKey<R, F>(s: Schema<R, F>, j: int): int
    requires j in s.columns && s.columns[j].name in s.quantityInner
  {
    s.quantityInner[s.columns[j].name] + j - s.columns[j].firstColumn
  }

  ghost function QualityCode<R, F>(s: Schema<R, F>, row: Row<R>, j: int): int
    requires QualityCell(s, row, j)
  {
    s.qualityAttributes[s.columns[j].name](row[j].value).value
  }

  ghost function QuantityValue<R, F>(s: Schema<R, F>, row: Row<R>, j: int): F
    requires QuantityCell(s, row, j)
  {
    s.quantityAttributes[s.columns[j].name](row[j].value).value
  }

  /** The quality keys written by the first k columns. */
  ghost function QualityKeys<R, F>(s: Schema<R, F>, row: Row<R>, k: nat): set<int> {
    set j | 0 <= j < k && QualityCell(s, row, j) :: QualityKey(s, j)
  }

  /** The quantity keys written by the first k columns. */
  ghost function QuantityKeys<R, F>(s: Schema<R, F>, row: Row<R>, k: nat): set<int> {
    set j | 0 <= j < k && QuantityCell(s, row, j) :: QuantityKey(s, j)
  }

  /**
   * The effect of column `index` on the features gathered so far: a NULL
   * cell leaves them alone; otherwise the column is resolved, its attribute
   * looked up, the value encoded and put at its global index, a later put
   * at the same index replacing an earlier one. The checks come in the
   * order the converter makes them.
   */
  function CellStep<R, F>(s: Schema<R, F>, row: Row<R>, index: nat, acc: Instance<F>): Result<Instance<F>, Failure> {
    if index >= |row| then Err(CursorFailure)
    else match row[index]
      case None => Ok(acc)
      case Some(data) =>
        if index !in s.columns then Err(UnknownColumn(index))
        else
          var term := s.columns[index];
          if term.isQuality then
            if term.name !in s.qualityAttributes then Err(UnknownAttribute(term.name))
            else match s.qualityAttributes[term.name](data)
              case None => Err(Unconvertible(index))
              case Some(feature) =>
                if term.name !in s.qualityInner then Err(UnknownBase(term.name))
                else
                  var key := s.qualityInner[term.name] + index - term.firstColumn;
                  Ok(acc.(qualityFeatures := acc.qualityFeatures[key := feature]))
          else
            if term.name !in s.quantityAttributes then Err(UnknownAttribute(term.name))
            else match s.quantityAttributes[term.name](data)
              case None => Err(Unconvertible(index))
              case Some(feature) =>
                if term.name !in s.quantityInner then Err(UnknownBase(term.name))
                else
                  var key := s.quantityInner[term.name] + index - term.firstColumn;
                  Ok(acc.(quantityFeatures := acc.quantityFeatures[key := feature]))
  }

  // ---------------------------------------------------------------------
  // Rows

  /** Columns 0 .. k-1 of a row, processed from empty feature maps. */
  function EncodeColumns<R, F>(s: Schema<R, F>, row: Row<R>, k: nat): Result<Instance<F>, Failure> {
    if k == 0 then Ok(Instance(map[], map[]))
    else match EncodeColumns(s, row, k - 1)
      case Err(e) => Err(e)
      case Ok(acc) => CellStep(s, row, k - 1, acc)
  }

  /** The instance a row yields when the cursor reports `size` columns. */
  function EncodeRow<R, F>(s: Schema<R, F>, size: nat, row: Row<R>): Result<Instance<F>, Failure> {
    EncodeColumns(s, row, size)
  }

  /** Rows are encoded in order; the first row that fails ends the conversion. */
  function ConvertRows<R, F>(s: Schema<R, F>, size: nat, rows: seq<Row<R>>): Progress<F>
    decreases |rows|
  {
    if rows == [] then Progress([], None)
    else
      var p := ConvertRows(s, size, rows[..|rows| - 1]);
      if p.failure.Some? then p
      else match EncodeRow(s, size, rows[|rows| - 1])
        case Ok(instance) => Progress(p.committed + [instance], None)
        case Err(e) => Progress(p.committed, Some(e))
  }

  /**
   * A whole conversion: the instances committed (kept even when a failure
   * follows) and either the number of rows or the failure raised.
   */
  function Conversion<R, F>(s: Schema<R, F>, cursor: ResultSet<R>): Outcome<F> {
    var p := ConvertRows(s, cursor.columnCount, cursor.rows);
    Outcome(p.committed,
      if p.failure.Some? then Err(p.failure.value)
      else if cursor.failsAfterRows then Err(CursorFailure)
      else Ok(|cursor.rows|))
  }

  // ---------------------------------------------------------------------
  // Steps the imperative converter relies on

  /** Once a column fails, the rest of the row cannot undo it. */
  lemma {:induction false} ColumnFailureIsFinal<R, F>(s: Schema<R, F>, row: Row<R>, index: nat, k: nat, e: Failure)
    requires index < k
    requires EncodeColumns(s, row, index + 1) == Err(e)
    ensures EncodeColumns(s, row, k) == Err(e)
    decreases k
  {
    if k > index + 1 {
      ColumnFailureIsFinal(s, row, index, k - 1, e);
    }
  }

  /** Once a row fails, later rows are never looked at. */
  lemma {:induction false} RowFailureIsFinal<R, F>(s: Schema<R, F>, size: nat, rows: seq<Row<R>>, p: nat, m: nat)
    requires p <= m <= |rows|
    requires ConvertRows(s, size, rows[..p]).failure.Some?
    ensures ConvertRows(s, size, rows[..m]) == ConvertRows(s, size, rows[..p])
    decreases m
  {
    if m > p {
      RowFailureIsFinal(s, size, rows, p, m - 1);
      assert rows[..m][..m - 1] == rows[..m - 1];
    }
  }

  /** Extending a failure-free prefix by one row that encodes to `instance`. */
  lemma RowCommitted<R, F>(s: Schema<R, F>, size: nat, rows: seq<Row<R>>, p: nat, instance: Instance<F>)
    requires p < |rows|
    requires ConvertRows(s, size, rows[..p]).failure.None?
    requires EncodeRow(s, size, rows[p]) == Ok(instance)
    ensures ConvertRows(s, size, rows[..p + 1]) == Progress(ConvertRows(s, size, rows[..p]).committed + [instance], None)
  {
    assert rows[..p + 1][..p] == rows[..p];
  }

  /**
   * If column `index` of row `p` fails after a failure-free prefix, the
   * conversion commits exactly the rows before `p` and raises that failure.
   */
  lemma CellFailureEndsConversion<R, F>(s: Schema<R, F>, cursor: ResultSet<R>, p: nat, index: nat, acc: Instance<F>, e: Failure)
    requires p < |cursor.rows| && index < cursor.columnCount
    requires ConvertRows(s, cursor.columnCount, cursor.rows[..p]).failure.None?
    requires EncodeColumns(s, cursor.rows[p], index) == Ok(acc)
    requires CellStep(s, cursor.rows[p], index, acc) == Err(e)
    ensures Conversion(s, cursor) == Outcome(ConvertRows(s, cursor.columnCount, cursor.rows[..p]).committed, Err(e))
  {
    var size, rows := cursor.columnCount, cursor.rows;
    ColumnFailureIsFinal(s, rows[p], index, size, e);
    assert rows[..p + 1][..p] == rows[..p];
    RowFailureIsFinal(s, size, rows, p + 1, |rows|);
    assert rows[..|rows|] == rows;
  }
}
