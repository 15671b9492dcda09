/**
 * What the converter promises, proved about the conversion functions that
 * specify it.
 */
module ConversionProperties {
  import opened Wrappers
  import opened DataModules
  import opened RowConversion

  // ---------------------------------------------------------------------
  // One row

  /** A row prefix encodes exactly when every one of its columns is accepted. */
  lemma {:induction false} EncodeColumnsSucceedsIff<R, F>(s: Schema<R, F>, row: Row<R>, k: nat)
    ensures EncodeColumns(s, row, k).Ok? <==> forall j | 0 <= j < k :: CellAccepted(s, row, j)
  {
    if k > 0 {
      EncodeColumnsSucceedsIff(s, row, k - 1);
      if EncodeColumns(s, row, k - 1).Ok? {
        CellStepEffect(s, row, k - 1, EncodeColumns(s, row, k - 1).value);
      }
    }
  }

  /**
   * The keys of an encoded row prefix are exactly the global indices of its
   * non-NULL cells, each in the map of its own kind: a NULL cell adds no key,
   * and a quality cell never lands in the quantity map nor the other way round.
   */
  lemma {:induction false} EncodeColumnsKeys<R, F>(s: Schema<R, F>, row: Row<R>, k: nat)
    requires EncodeColumns(s, row, k).Ok?
    ensures EncodeColumns(s, row, k).value.qualityFeatures.Keys == QualityKeys(s, row, k)
    ensures EncodeColumns(s, row, k).value.quantityFeatures.Keys == QuantityKeys(s, row, k)
  {
    if k > 0 {
      var j := k - 1;
      EncodeColumnsKeys(s, row, j);
      if QualityCell(s, row, j) {
        assert QualityKeys(s, row, k) == QualityKeys(s, row, j) + {QualityKey(s, j)};
      } else {
        assert QualityKeys(s, row, k) == QualityKeys(s, row, j);
      }
      if QuantityCell(s, row, j) {
        assert QuantityKeys(s, row, k) == QuantityKeys(s, row, j) + {QuantityKey(s, j)};
      } else {
        assert QuantityKeys(s, row, k) == QuantityKeys(s, row, j);
      }
    }
  }

  /**
   * The value stored at a column's global index is that column's code,
   * provided no later column of the same kind writes the same index: when
   * two columns collide, the later one wins.
   */
  lemma {:induction false} LastWriteWins<R, F>(s: Schema<R, F>, row: Row<R>, k: nat, j: nat)
    requires EncodeColumns(s, row, k).Ok? && j < k
    ensures QualityCell(s, row, j) && (forall i | j < i < k && QualityCell(s, row, i) :: QualityKey(s, i) != QualityKey(s, j)) ==>
              QualityKey(s, j) in EncodeColumns(s, row, k).value.qualityFeatures &&
              EncodeColumns(s, row, k).value.qualityFeatures[QualityKey(s, j)] == QualityCode(s, row, j)
    ensures QuantityCell(s, row, j) && (forall i | j < i < k && QuantityCell(s, row, i) :: QuantityKey(s, i) != QuantityKey(s, j)) ==>
              QuantityKey(s, j) in EncodeColumns(s, row, k).value.quantityFeatures &&
              EncodeColumns(s, row, k).value.quantityFeatures[QuantityKey(s, j)] == QuantityValue(s, row, j)
  {
    var acc := EncodeColumns(s, row, k - 1).value;
    CellStepEffect(s, row, k - 1, acc);
    if j < k - 1 {
      LastWriteWins(s, row, k - 1, j);
    }
  }

  /** What one accepted cell does to the features gathered so far. */
  lemma CellStepEffect<R, F>(s: Schema<R, F>, row: Row<R>, j: nat, acc: Instance<F>)
    ensures CellStep(s, row, j, acc).Ok? <==> CellAccepted(s, row, j)
    ensures CellStep(s, row, j, acc).Ok? ==>
              CellStep(s, row, j, acc).value ==
                if QualityCell(s, row, j) then
                  acc.(qualityFeatures := acc.qualityFeatures[QualityKey(s, j) := QualityCode(s, row, j)])
                else if QuantityCell(s, row, j) then
                  acc.(quantityFeatures := acc.quantityFeatures[QuantityKey(s, j) := QuantityValue(s, row, j)])
                else acc
  {
  }

  /** A row whose cells are all NULL still yields an instance, with two empty maps. */
  lemma {:induction false} AllNullRowIsEmpty<R, F>(s: Schema<R, F>, size: nat, row: Row<R>)
    requires size <= |row|
    requires forall j | 0 <= j < size :: row[j].None?
    ensures EncodeRow(s, size, row) == Ok(Instance(map[], map[]))
  {
    EncodeColumnsSucceedsIff(s, row, size);
    EncodeColumnsKeys(s, row, size);
    assert QualityKeys(s, row, size) == {};
    assert QuantityKeys(s, row, size) == {};
  }

  /** No two quality columns, nor two quantity columns, share a global index. */
  ghost predicate KeysDistinct<R, F>(s: Schema<R, F>) {
    && (forall i, j | i in s.columns && j in s.columns && i != j
          && s.columns[i].isQuality && s.columns[j].isQuality
          && s.columns[i].name in s.qualityInner && s.columns[j].name in s.qualityInner
          :: QualityKey(s, i) != QualityKey(s, j))
    && (forall i, j | i in s.columns && j in s.columns && i != j
          && !s.columns[i].isQuality && !s.columns[j].isQuality
          && s.columns[i].name in s.quantityInner && s.columns[j].name in s.quantityInner
          :: QuantityKey(s, i) != QuantityKey(s, j))
  }

  /**
   * With a layout whose columns have distinct global indices, every
   * non-NULL cell of a converted row keeps its own code: nothing is
   * overwritten.
   */
  lemma EveryCellKept<R, F>(s: Schema<R, F>, size: nat, row: Row<R>)
    requires KeysDistinct(s)
    requires EncodeRow(s, size, row).Ok?
    ensures forall j | 0 <= j < size && QualityCell(s, row, j) ::
              QualityKey(s, j) in EncodeRow(s, size, row).value.qualityFeatures &&
              EncodeRow(s, size, row).value.qualityFeatures[QualityKey(s, j)] == QualityCode(s, row, j)
    ensures forall j | 0 <= j < size && QuantityCell(s, row, j) ::
              QuantityKey(s, j) in EncodeRow(s, size, row).value.quantityFeatures &&
              EncodeRow(s, size, row).value.quantityFeatures[QuantityKey(s, j)] == QuantityValue(s, row, j)
  {
    forall j | 0 <= j < size
      ensures QualityCell(s, row, j) ==>
        QualityKey(s, j) in EncodeColumns(s, row, size).value.qualityFeatures &&
        EncodeColumns(s, row, size).value.qualityFeatures[QualityKey(s, j)] == QualityCode(s, row, j)
      ensures QuantityCell(s, row, j) ==>
        QuantityKey(s, j) in EncodeColumns(s, row, size).value.quantityFeatures &&
        EncodeColumns(s, row, size).value.quantityFeatures[QuantityKey(s, j)] == QuantityValue(s, row, j)
    {
      LastWriteWins(s, row, size, j);
    }
  }

  /**
   * The layout each attribute is meant to have: the columns of an attribute
   * form one group starting at its first column and at most `width[name]`
   * wide, and the base ranges `[base, base + width)` of distinct attributes
   * of one kind do not overlap.
   */
  ghost predicate SlotRangesDisjoint<R, F>(s: Schema<R, F>, width: map<string, nat>) {
    && (forall j | j in s.columns ::
          s.columns[j].name in width
          && s.columns[j].firstColumn <= j < s.columns[j].firstColumn + width[s.columns[j].name])
    && (forall i, j | i in s.columns && j in s.columns && s.columns[i].name == s.columns[j].name ::
          s.columns[i].firstColumn == s.columns[j].firstColumn)
    && (forall a, b | a in s.qualityInner && b in s.qualityInner && a in width && b in width && a != b ::
          s.qualityInner[a] + width[a] <= s.qualityInner[b] || s.qualityInner[b] + width[b] <= s.qualityInner[a])
    && (forall a, b | a in s.quantityInner && b in s.quantityInner && a in width && b in width && a != b ::
          s.quantityInner[a] + width[a] <= s.quantityInner[b] || s.quantityInner[b] + width[b] <= s.quantityInner[a])
  }

  /** Contiguous, disjoint slot ranges give every column its own global index. */
  lemma SlotRangesGiveDistinctKeys<R, F>(s: Schema<R, F>, width: map<string, nat>)
    requires SlotRangesDisjoint(s, width)
    ensures KeysDistinct(s)
  {
  }

  // ---------------------------------------------------------------------
  // A whole cursor

  /**
   * Rows are committed in order and each from its own row only; committing
   * stops at the first row that fails, whose failure is the one reported.
   */
  lemma {:induction false} ConvertRowsCommitsPrefix<R, F>(s: Schema<R, F>, size: nat, rows: seq<Row<R>>)
    ensures |ConvertRows(s, size, rows).committed| <= |rows|
    ensures forall k | 0 <= k < |ConvertRows(s, size, rows).committed| ::
              EncodeRow(s, size, rows[k]) == Ok(ConvertRows(s, size, rows).committed[k])
    ensures ConvertRows(s, size, rows).failure.None? ==> |ConvertRows(s, size, rows).committed| == |rows|
    ensures ConvertRows(s, size, rows).failure.Some? ==>
              |ConvertRows(s, size, rows).committed| < |rows| &&
              EncodeRow(s, size, rows[|ConvertRows(s, size, rows).committed|]) == Err(ConvertRows(s, size, rows).failure.value)
    decreases |rows|
  {
    if rows != [] {
      var front := rows[..|rows| - 1];
      ConvertRowsCommitsPrefix(s, size, front);
      assert forall k | 0 <= k < |front| :: front[k] == rows[k];
    }
  }

  /**
   * A conversion returns a count exactly when the cursor ends normally and
   * every row encodes; the count is then the number of rows, one instance
   * was committed per row, and instance k is row k's.
   */
  lemma ConversionCountsRows<R, F>(s: Schema<R, F>, cursor: ResultSet<R>)
    ensures Conversion(s, cursor).result.Ok? <==>
              !cursor.failsAfterRows && forall k | 0 <= k < |cursor.rows| :: EncodeRow(s, cursor.columnCount, cursor.rows[k]).Ok?
    ensures Conversion(s, cursor).result.Ok? ==>
              Conversion(s, cursor).result.value == |cursor.rows| == |Conversion(s, cursor).committed| &&
              forall k | 0 <= k < |cursor.rows| ::
                Conversion(s, cursor).committed[k] == EncodeRow(s, cursor.columnCount, cursor.rows[k]).value
  {
    ConvertRowsCommitsPrefix(s, cursor.columnCount, cursor.rows);
  }

  /**
   * A failed conversion keeps what it committed: the instances of the rows
   * before the failing one (all rows when the cursor itself fails at the end).
   */
  lemma FailureKeepsCommittedRows<R, F>(s: Schema<R, F>, cursor: ResultSet<R>)
    requires Conversion(s, cursor).result.Err?
    ensures |Conversion(s, cursor).committed| <= |cursor.rows|
    ensures forall k | 0 <= k < |Conversion(s, cursor).committed| ::
              EncodeRow(s, cursor.columnCount, cursor.rows[k]) == Ok(Conversion(s, cursor).committed[k])
    ensures var n := |Conversion(s, cursor).committed|;
            || (n < |cursor.rows| && EncodeRow(s, cursor.columnCount, cursor.rows[n]) == Err(Conversion(s, cursor).result.error))
            || (n == |cursor.rows| && cursor.failsAfterRows && Conversion(s, cursor).result.error == CursorFailure)
  {
    ConvertRowsCommitsPrefix(s, cursor.columnCount, cursor.rows);
  }

  /**
   * Nothing carries over between rows: two conversions whose k-th rows are
   * equal commit equal k-th instances, whatever the other rows hold.
   */
  lemma InstanceDependsOnlyOnItsRow<R, F>(s: Schema<R, F>, size: nat, rows: seq<Row<R>>, others: seq<Row<R>>, k: nat)
    requires k < |ConvertRows(s, size, rows).committed| && k < |ConvertRows(s, size, others).committed|
    requires k < |rows| && k < |others| && rows[k] == others[k]
    ensures ConvertRows(s, size, rows).committed[k] == ConvertRows(s, size, others).committed[k]
  {
    ConvertRowsCommitsPrefix(s, size, rows);
    ConvertRowsCommitsPrefix(s, size, others);
  }
}
