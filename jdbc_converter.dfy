/**
 * The JDBC converter: walks a forward-only result set row by row, encodes
 * every non-NULL cell with its attribute, gathers the codes in two scratch
 * maps and hands them to the data module as one instance per row.
 */
module JdbcConverters {
  import opened Wrappers
  import opened DataModules
  import opened RowConversion

  class JdbcConverter<!R, F> {
    /** Quality (discrete) attributes by name, as encoders of raw cell values. */
    const qualityAttributes: map<string, R -> Option<int>>
    /** Quantity (continuous) attributes by name, as encoders of raw cell values. */
    const quantityAttributes: map<string, R -> Option<F>>

    constructor (qualityAttributes: map<string, R -> Option<int>>, quantityAttributes: map<string, R -> Option<F>>)
      ensures this.qualityAttributes == qualityAttributes
      ensures this.quantityAttributes == quantityAttributes
    {
      this.qualityAttributes := qualityAttributes;
      this.quantityAttributes := quantityAttributes;
    }

    /** The layout of `dataModule` together with this converter's attributes. */
    function SchemaOf(dataModule: DataModule<F>): Schema<R, F> {
      Schema(dataModule.columns, dataModule.qualityInner, dataModule.quantityInner, qualityAttributes, quantityAttributes)
    }

    /**
     * Converts every row of `cursor` into one instance of `dataModule`. The
     * result is the row count, or the failure that aborted the conversion;
     * in both cases the instances committed so far stay in the module.
     */
    method Convert(dataModule: DataModule<F>, cursor: ResultSet<R>) returns (r: Result<nat, Failure>)
      modifies dataModule
      ensures dataModule.instances == old(dataModule.instances) + Conversion(SchemaOf(dataModule), cursor).committed
      ensures r == Conversion(SchemaOf(dataModule), cursor).result
    {
      ghost var s := SchemaOf(dataModule);
      var count := 0;
      var qualityFeatures: map<int, int> := map[];
      var quantityFeatures: map<int, F> := map[];
      var size := cursor.columnCount;
      var position := 0;
      while position < |cursor.rows|
        invariant 0 <= position <= |cursor.rows|
        invariant count == position
        invariant qualityFeatures == map[] && quantityFeatures == map[]
        invariant ConvertRows(s, size, cursor.rows[..position]).failure.None?
        invariant dataModule.instances == old(dataModule.instances) + ConvertRows(s, size, cursor.rows[..position]).committed
      {
        var row := cursor.rows[position];
        for index := 0 to size
          invariant EncodeColumns(s, row, index) == Ok(Instance(qualityFeatures, quantityFeatures))
        {
          ghost var acc := Instance(qualityFeatures, quantityFeatures);
          if index >= |row| {
            // reading a column the row does not have raises a SQL exception
            CellFailureEndsConversion(s, cursor, position, index, acc, CursorFailure);
            return Err(CursorFailure);
          }
          var data := row[index];
          if data.None? {
            continue;
          }
          if index !in dataModule.columns {
            CellFailureEndsConversion(s, cursor, position, index, acc, UnknownColumn(index));
            return Err(UnknownColumn(index));
          }
          var term := dataModule.columns[index];
          if term.isQuality {
            if term.name !in qualityAttributes {
              CellFailureEndsConversion(s, cursor, position, index, acc, UnknownAttribute(term.name));
              return Err(UnknownAttribute(term.name));
            }
            var feature := qualityAttributes[term.name](data.value);
            if feature.None? {
              CellFailureEndsConversion(s, cursor, position, index, acc, Unconvertible(index));
              return Err(Unconvertible(index));
            }
            if term.name !in dataModule.qualityInner {
              CellFailureEndsConversion(s, cursor, position, index, acc, UnknownBase(term.name));
              return Err(UnknownBase(term.name));
            }
            qualityFeatures := qualityFeatures[dataModule.qualityInner[term.name] + index - term.firstColumn := feature.value];
          } else {
            if term.name !in quantityAttributes {
              CellFailureEndsConversion(s, cursor, position, index, acc, UnknownAttribute(term.name));
              return Err(UnknownAttribute(term.name));
            }
            var feature := quantityAttributes[term.name](data.value);
            if feature.None? {
              CellFailureEndsConversion(s, cursor, position, index, acc, Unconvertible(index));
              return Err(Unconvertible(index));
            }
            if term.name !in dataModule.quantityInner {
              CellFailureEndsConversion(s, cursor, position, index, acc, UnknownBase(term.name));
              return Err(UnknownBase(term.name));
            }
            quantityFeatures := quantityFeatures[dataModule.quantityInner[term.name] + index - term.firstColumn := feature.value];
          }
        }
        RowCommitted(s, size, cursor.rows, position, Instance(qualityFeatures, quantityFeatures));
        dataModule.AssociateInstance(qualityFeatures, quantityFeatures);
        qualityFeatures := map[];
        quantityFeatures := map[];
        count := count + 1;
        position := position + 1;
      }
      assert cursor.rows[..position] == cursor.rows;
      if cursor.failsAfterRows {
        // the final `next()` raised a SQL exception
        return Err(CursorFailure);
      }
      return Ok(count);
    }
  }
}
