# JDBC row-to-instance conversion, modelled in Dafny

This project models the JDBC converter of jstarcraft-ai. The converter
reads a forward-only SQL result set and turns each row into one sparse
*instance* of a data module. For every row it walks the columns
`0 .. size-1` and skips NULL cells. It resolves each remaining column
through the module's layout to an attribute name, a quality (discrete) or
quantity (continuous) flag, and the attribute's first column. It encodes
the cell with that attribute and puts the code into one of two scratch
maps, at global index `base(attribute) + column - firstColumn`. It then
hands both maps to the module, clears them and counts the row. At the
end it returns the count. Any exception aborts the conversion, and rows
already handed over stay in the module.

Files:

- `wrappers.dfy`: `Option` and `Result`.
- `data_module.dfy`: module `DataModules`. It holds the `DataModule` class
  (its column layout, the two base-offset maps, and the append-only
  `instances` sequence) and the `Column` and `Instance` values.
- `conversion.dfy`: module `RowConversion`. It states what conversion
  means as functions over values:
  - `CellStep`: one cell;
  - `EncodeColumns` / `EncodeRow`: the columns of one row, in order;
  - `ConvertRows`: the rows of a cursor, in order, stopping at the first
    failure;
  - `Conversion`: the whole conversion, meaning the committed instances
    plus either the count or the failure.

  It also holds the step lemmas that the imperative method uses.
- `jdbc_converter.dfy`: module `JdbcConverters`. It holds the
  `JdbcConverter` class, whose method `Convert` is the source's row loop
  and column loop. Both scratch maps are assigned and reset to `map[]`
  after each row. The method is proved to leave the module's instances
  equal to the old instances followed by `Conversion(...).committed`, and
  to return `Conversion(...).result`.
- `conversion_properties.dfy`: module `ConversionProperties`. It holds the
  properties the converter promises, proved about those functions.

How the model maps the source:

- The result set is a value `ResultSet(columnCount, rows, failsAfterRows)`.
  Each row is a `seq<Option<R>>` with `None` for SQL NULL.
  `failsAfterRows` means that the `next()` call after the given rows throws
  a SQL exception.
- Reading a column that the row does not have is a SQL exception. JDBC
  raises one for an out-of-range column index.
- The converter's quality and quantity attributes are maps from name to
  an encoder `R -> Option<code>`, kept as the class's fields. An encoder
  stands for the type coercion followed by the attribute's
  `convertValue`, and `None` means that one of them failed.
- Continuous values are an opaque type parameter `F`.
- Each Java exception is a `Failure` value, checked in the order of the
  statements:
  - `CursorFailure`: the SQL exception;
  - `UnknownColumn`: no layout entry for the column;
  - `UnknownAttribute`: no attribute of that name;
  - `Unconvertible`: coercion or encoding failed;
  - `UnknownBase`: no base offset for the attribute.

Behaviour of the code worth noting:

- The value of `associateInstance` (JdbcConverter.java:58) is discarded.
  The model's `AssociateInstance` returns nothing.
- A column with no layout entry fails at `term.getValue()` (:45), and an
  attribute name with no attribute fails at `attribute.getType()`
  (:48, :53). The model gives each case its own `Failure`, and a missing
  base offset as well (see "## Left out"). No failure carries a row
  ordinal, because the code reports none.
- A colliding global index within one row is overwritten by the later
  `put` (:50, :55), see `LastWriteWins`.

## Model

| member | source | states |
|---|---|---|
| `DataModules.DataModule.AssociateInstance` | src/main/java/com/jstarcraft/ai/data/converter/JdbcConverter.java:58 | the module's instances grow by exactly one instance, built from the two maps passed in; earlier instances are unchanged |
| `JdbcConverters.JdbcConverter.constructor` | src/main/java/com/jstarcraft/ai/data/converter/JdbcConverter.java:27-29 | the converter keeps the quality and quantity attribute tables it is given |
| `JdbcConverters.JdbcConverter.Convert` | src/main/java/com/jstarcraft/ai/data/converter/JdbcConverter.java:32-68 | the row/column loop leaves the module's instances equal to the old ones followed by the committed instances of `Conversion`, and returns its count or failure |
| `RowConversion.ColumnFailureIsFinal` | src/main/java/com/jstarcraft/ai/data/converter/JdbcConverter.java:39-57 | once a column of a row fails, the whole row fails with that failure, whatever the later columns hold |
| `RowConversion.RowFailureIsFinal` | src/main/java/com/jstarcraft/ai/data/converter/JdbcConverter.java:36-66 | once a row fails, no later row changes what was committed or which failure is raised |
| `RowConversion.RowCommitted` | src/main/java/com/jstarcraft/ai/data/converter/JdbcConverter.java:58-61 | a row that encodes after a failure-free prefix appends exactly its own instance to the committed sequence |
| `RowConversion.CellFailureEndsConversion` | src/main/java/com/jstarcraft/ai/data/converter/JdbcConverter.java:36-66 | a failing cell in row p makes the conversion commit exactly rows 0..p-1 and raise that cell's failure |
| `ConversionProperties.CellStepEffect` | src/main/java/com/jstarcraft/ai/data/converter/JdbcConverter.java:40-56 | one cell succeeds iff it is NULL or resolves and encodes; a NULL cell changes nothing, a quality cell puts its code at its quality key only, a quantity cell puts its value at its quantity key only |
| `ConversionProperties.EncodeColumnsSucceedsIff` | src/main/java/com/jstarcraft/ai/data/converter/JdbcConverter.java:39-57 | a row prefix encodes iff every column in it is readable and NULL or successfully resolved and encoded (both directions) |
| `ConversionProperties.EncodeColumnsKeys` | src/main/java/com/jstarcraft/ai/data/converter/JdbcConverter.java:39-56 | the quality map's keys are exactly `qualityInner(name) + column - firstColumn` over the non-NULL quality columns, and likewise for the quantity map; NULL cells add no key and the two kinds never cross |
| `ConversionProperties.LastWriteWins` | src/main/java/com/jstarcraft/ai/data/converter/JdbcConverter.java:39-56 | the value at a column's global index is that column's code unless a later column of the same kind writes the same index: the later put wins |
| `ConversionProperties.AllNullRowIsEmpty` | src/main/java/com/jstarcraft/ai/data/converter/JdbcConverter.java:39-43 | a row whose cells are all NULL still yields an instance, with two empty maps (no zero-filling) |
| `ConversionProperties.EveryCellKept` | src/main/java/com/jstarcraft/ai/data/converter/JdbcConverter.java:44-56 | when no two columns of one kind share a global index, every non-NULL cell's code is found at its own index |
| `ConversionProperties.SlotRangesGiveDistinctKeys` | src/main/java/com/jstarcraft/ai/data/converter/JdbcConverter.java:50-55 | if attributes occupy contiguous column groups and disjoint base ranges, then the index arithmetic gives every column of one kind its own global index |
| `ConversionProperties.ConvertRowsCommitsPrefix` | src/main/java/com/jstarcraft/ai/data/converter/JdbcConverter.java:38-62 | the committed instances are, in row order, the encodings of the longest failure-free prefix of rows, instance k from row k; a failure is the first failing row's own |
| `ConversionProperties.ConversionCountsRows` | src/main/java/com/jstarcraft/ai/data/converter/JdbcConverter.java:33-67 | a count is returned iff the cursor ends normally and every row encodes; then the count equals the number of rows and of committed instances, and instance k is row k's |
| `ConversionProperties.FailureKeepsCommittedRows` | src/main/java/com/jstarcraft/ai/data/converter/JdbcConverter.java:36-66 | a failed conversion keeps the instances of all rows before the failing row (all rows when the cursor fails at the end); nothing is rolled back |
| `ConversionProperties.InstanceDependsOnlyOnItsRow` | src/main/java/com/jstarcraft/ai/data/converter/JdbcConverter.java:34-60 | two cursors with equal k-th rows commit equal k-th instances: no buffer content carries over from earlier rows (encoders taken as pure) |

## Left out

- The ranking (AUC) evaluator is in the jstarcraft-ai-evaluate module and is not modelled. Its test pins one float against a data set defined in a base class.
- The Parquet/Avro round trip is library file I/O with no converter logic.
- JDBC details are abstracted: column numbering starts at 0, not 1. A failure of `getMetaData` is a cursor that fails before its first row.
- A driver failure in the middle of a row, other than reading a missing column, is not a separate case. It has the same effect as a cursor that fails before that row: the partial scratch maps are discarded and nothing of that row is associated.
- Attribute encoders are pure functions. Discrete attributes in the source may register new codes while converting; that dictionary state is not modelled, so the model does not capture codes that change as values are first seen.
- The internals of `ConversionUtility.convert` and of both `convertValue` methods are not modelled. They are foreign code, folded into one possibly failing encoder per attribute.
- The `DataModule` internals are not modelled; only the lookups and the append that the converter uses are.
- `UnknownBase`: a missing base offset in `getQualityInner` / `getQuantityInner` (:50, :55) is assumed to raise. A module that returns a default offset instead is represented by listing every layout name in `qualityInner` / `quantityInner`.
- `AssociateInstance`: the module is assumed to copy both maps; aliasing of the reused buffers is not modelled. If the module kept the buffer objects passed at :58, the `clear()` at :59-60 would empty the stored instance, which the model does not capture.
- `InstanceDependsOnlyOnItsRow`: holds because encoders are pure. A quality attribute's `convertValue` (:49) may hand out first-seen codes, so in the source row k's codes may depend on earlier rows.
- Java's 32-bit `int` is not modelled. Global indices and the row count are unbounded integers, so wrap-around of `base + index - firstColumn` or of `count` beyond 2^31 - 1 is not captured.
- The scratch maps are red-black trees in the source. The model keeps only their contents, not their sorted iteration order.
- The Java exception classes (`RuntimeException` wrapping the SQL exception, a null dereference, coercion exceptions) are collapsed into `Failure` values.
- Logging (the TODO in the catch block) and concurrency are not modelled.
