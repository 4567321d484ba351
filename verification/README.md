# SqlBulkCopyComponents: the record-to-row adapter, in Dafny

This project models the streaming adapter that feeds `SqlBulkCopy` from an
in-memory sequence of records. It has two parts.

- `ModelToDataTable<TModel>` derives the column list of a record type: one
  column per readable property, in the order `GetProperties()` lists them.
  Each column has the
  property's name and a *normalised* storage type: an enumeration becomes its
  underlying integral type, and `Nullable<T>` becomes the storage type of `T`.
  It also provides the projector `ToRowData`, which turns one record into a
  positional row, and `ToDataTable`, which materialises a whole sequence.
- `EnumerableReader<TModel>` is a forward-only `IDataReader` over the
  sequence. `Read`/`NextResult` pull one record, bump `Depth` and re-project
  the current row. It also has positional and by-name accessors, `GetValues`,
  the partial reads `GetBytes`/`GetChars`, `IsDBNull` and `Dispose`.

Files:

- `types.dfy` (module `Types`): declared types (`TypeTag`) and `GetDataType`
  normalisation (`DataType`).
- `values.dfy` (module `Values`): boxed values (`Value`, with `Null` and
  `DBNull`), the typing relation `HasType`, and the exceptions (`Error`,
  `Result`).
- `schema.dfy` (module `Schema`): property descriptors, `Columns`,
  `ToRowData`, `ToDataTable`.
- `reader.dfy` (module `Reader`): the reader state and every reader
  operation.
- `person.dfy` (module `Person`): the demo program's `Person` record,
  described by hand, and a hand-made three-record fixture.

Reflection is replaced by an explicit list of `Property` descriptors. Each
descriptor has a name, a declared `TypeTag` and an optional getter; the getter
is absent for a write-only property. The compiled expression tree is replaced
by the pure function `ToRowData`. The reader is an immutable `Reader` value
with these fields:

- the sequence and the enumerator position;
- the current row;
- the `int` depth counter;
- the released flag.

Each operation returns the reader it leaves behind. The C# type system's
guarantee that a property holds a value of its declared type is the ghost
predicate `WellTyped`. It is the only precondition of the projection.

Behaviour of the code that a reader might not expect, and that the model
keeps as written:

- **Values of `Nullable<Enum>` are not converted.** A value is converted
  only when the declared type itself is an enumeration
  (`ModelToDataTable.cs:54`), while the column type also unwraps
  `Nullable<T>` (`ModelToDataTable.cs:70-71`). So a `Nullable<Gender>`
  column is typed `Int32`, but its cells hold boxed `Gender` values
  (`Schema.CellFitsColumn`). The reader's integral accessors still read such
  cells, because unboxing accepts an enumeration whose underlying type
  matches (`Reader.IntegralColumnReads`).
- **`GetBytes`/`GetChars` copy differently from what they count.** The
  returned count is `min(source length - bufferIndex, length)`
  (`EnumerableReader.cs:65`). The copy takes the unclamped `length`
  starting at `dataIndex` (`EnumerableReader.cs:67`). When that range runs
  past either array, the call throws (`Reader.ReadChunk`,
  `Reader.CountCanUnderstateCopy`, `Reader.ClampedReadStillThrows`).
- **A null array cell is not rejected by the cast.** `(byte[])null` is null
  (`EnumerableReader.cs:62`). The call throws `NullReferenceException` only
  where it first reads the array's length: at line 63 for a null buffer, and
  otherwise at line 65, after the buffer-index check of line 64
  (`Reader.NullCellChecksBufferFirst`).
- **The depth counter is an `int`.** It is incremented with
  `Interlocked.Increment` (`EnumerableReader.cs:95`), which wraps after
  `int.MaxValue` rows (`Reader.Inc32`, `Reader.Wrap32`).
- **`Read` after `Dispose` is not rejected.** `Dispose` only sets a flag and
  disposes the enumerator (`EnumerableReader.cs:33-37`); `NextResult` never
  consults the flag. The enumerators of arrays and lists ignore `Dispose`,
  so in the model `Read` keeps going.
- **Unboxing needs the exact type.** An integral accessor succeeds only on a
  boxed value of exactly its type, or an enumeration with that underlying
  type; `(int)(object)5u` throws `InvalidCastException`
  (`Reader.UnboxIntegral`).
- **Column names need not be unique.** Nothing checks this, and
  `GetOrdinal` returns the first match (`EnumerableReader.cs:49-52`).

## Model

| member | source | states |
|---|---|---|
| Types.DataType | SqlBulkCopyComponents/ModelToDataTable.cs:64-73 | the result is never an enumeration or nullable wrapper; a type that already is neither is returned unchanged; an enumeration becomes its underlying integral type |
| Types.DataTypeIsStripThenConvert | SqlBulkCopyComponents/ModelToDataTable.cs:64-73 | normalisation equals an independent two-step definition: strip every `Nullable` wrapper, then replace an enumeration by its underlying type |
| Types.DataTypeIdempotent | SqlBulkCopyComponents/ModelToDataTable.cs:64-73 | normalising twice equals normalising once |
| Types.DataTypeFixedPoints | SqlBulkCopyComponents/ModelToDataTable.cs:64-73 | a type is left unchanged by normalisation exactly when it is neither an enumeration nor a nullable wrapper |
| Schema.Readable | SqlBulkCopyComponents/ModelToDataTable.cs:22 | the kept properties are all readable and all come from the declared list |
| Schema.ReadableAppend | SqlBulkCopyComponents/ModelToDataTable.cs:22 | the readable filter distributes over concatenation, so it keeps readable properties in list order and drops the rest |
| Schema.ReadableAll | SqlBulkCopyComponents/ModelToDataTable.cs:22 | when every property is readable, the column source is the whole property list |
| Schema.Columns | SqlBulkCopyComponents/ModelToDataTable.cs:23-24 | there is exactly one column per readable property, and every column type is a storage type |
| Schema.ColumnsAt | SqlBulkCopyComponents/ModelToDataTable.cs:23-24 | column i carries the i-th readable property's name and the normalisation of its declared type |
| Schema.ConvertBindProperty | SqlBulkCopyComponents/ModelToDataTable.cs:50-57 | an enumeration-typed value becomes the integer of the same number, which has the column's type; any other value is boxed unchanged |
| Schema.ToRowData | SqlBulkCopyComponents/ModelToDataTable.cs:35-42 | a projected row has as many cells as there are columns |
| Schema.ToRowDataAt | SqlBulkCopyComponents/ModelToDataTable.cs:38-39 | cell i is the converted value of the i-th readable property |
| Schema.ProjectionReadsOnlyGetters | SqlBulkCopyComponents/ModelToDataTable.cs:50-56 | projection depends only on what the getters return: records that agree on every readable property project to equal rows |
| Schema.CellFitsColumn | SqlBulkCopyComponents/ModelToDataTable.cs:54-56 | every cell is null or of its column's storage type, except a present value of a nullable enumeration, which stays a boxed enumeration value outside that type |
| Schema.RowFitsColumns | SqlBulkCopyComponents/ModelToDataTable.cs:22-26 | for every column whose property is not a nullable enumeration, the projected cell is null or of the column's storage type |
| Schema.CopyColumns | SqlBulkCopyComponents/ModelToDataTable.cs:96-99 | the table receives the same column names and types, in the same order |
| Schema.ProjectAll | SqlBulkCopyComponents/ModelToDataTable.cs:102-105 | there is one row per source element, in source order, and row j is the projection of element j |
| Schema.ToDataTable | SqlBulkCopyComponents/ModelToDataTable.cs:91-109 | a null source throws; otherwise the table has the given name (`"TempTable"` by default), the record type's columns, and one projected row per element, in order |
| Reader.Open | SqlBulkCopyComponents/EnumerableReader.cs:21-25 | a null source throws `ArgumentNullException`; otherwise the reader starts with an empty row, depth 0, nothing pulled, not closed |
| Reader.Inc32 | SqlBulkCopyComponents/EnumerableReader.cs:95 | incrementing adds one below `int.MaxValue` and yields `int.MinValue` exactly at it |
| Reader.Wrap32 | SqlBulkCopyComponents/EnumerableReader.cs:30 | the `int` holding a count of n increments: n itself while n fits in an `int`, and always congruent to n modulo 2^32 |
| Reader.IncWrap | SqlBulkCopyComponents/EnumerableReader.cs:95 | incrementing the wrapped count of n rows gives the wrapped count of n + 1 rows |
| Reader.Read | SqlBulkCopyComponents/EnumerableReader.cs:90-98 | returns true exactly when an element is left; on false nothing changes; on true the depth is incremented once, the row becomes the projection of the next element and its width is the column count |
| Reader.ReadPreservesConsistent | SqlBulkCopyComponents/EnumerableReader.cs:90-98 | `Read` keeps the invariant "depth is the wrapped number of rows pulled, and the row is empty before the first pull and the last record's projection after it" |
| Reader.AdvanceIsConsistent | SqlBulkCopyComponents/EnumerableReader.cs:93-97 | a successful pull re-establishes that invariant |
| Reader.OpenIsConsistent | SqlBulkCopyComponents/EnumerableReader.cs:29-30 | a fresh reader satisfies the invariant |
| Reader.ReadToEnd | SqlBulkCopyComponents/EnumerableReader.cs:123 | calling `Read` until false returns true once per remaining element and leaves the enumerator at the end |
| Reader.ReadToEndConsistent | SqlBulkCopyComponents/EnumerableReader.cs:123 | reading to the end keeps the invariant |
| Reader.DrainCountsRows | SqlBulkCopyComponents/EnumerableReader.cs:124 | over N records a full pass projects N rows and leaves `Depth` at N wrapped to `int`, so exactly N when N fits; the last record's row is current |
| Reader.DepthNeverDecreases | SqlBulkCopyComponents/EnumerableReader.cs:95 | while the count fits in an `int`, `Read` raises the depth by exactly one on success and leaves it alone otherwise |
| Reader.Dispose | SqlBulkCopyComponents/EnumerableReader.cs:33-37 | afterwards `IsClosed` holds and no other field differs |
| Reader.DisposeIdempotent | SqlBulkCopyComponents/EnumerableReader.cs:121 | disposing (or closing) twice equals doing it once |
| Reader.ClosedOnlyByDispose | SqlBulkCopyComponents/EnumerableReader.cs:125 | `IsClosed` is false on a fresh reader and `Read` leaves it as it was, so only `Dispose` sets it |
| Reader.FieldCount | SqlBulkCopyComponents/EnumerableReader.cs:118 | `FieldCount` is the number of readable properties, that is `Columns.Count`, whatever the reader's state |
| Reader.GetValue | SqlBulkCopyComponents/EnumerableReader.cs:105 | yields cell i when i indexes the current row, and `IndexOutOfRangeException` otherwise |
| Reader.NoValueBeforeFirstRead | SqlBulkCopyComponents/EnumerableReader.cs:29 | before the first successful `Read`, every index is out of range |
| Reader.RowMatchesSchema | SqlBulkCopyComponents/EnumerableReader.cs:118 | after a successful `Read` the row width equals `FieldCount`, and cell i is the converted value of the i-th readable property of the last record |
| Reader.GetName | SqlBulkCopyComponents/EnumerableReader.cs:102 | yields the i-th readable property's name, and `ArgumentOutOfRangeException` outside the columns |
| Reader.GetFieldType | SqlBulkCopyComponents/EnumerableReader.cs:104 | yields the normalised declared type of the i-th readable property, which is a storage type |
| Reader.GetDataTypeName | SqlBulkCopyComponents/EnumerableReader.cs:103 | yields the type name of that normalised type; outside the columns the column list throws `ArgumentOutOfRangeException` |
| Reader.GetOrdinal | SqlBulkCopyComponents/EnumerableReader.cs:47-55 | yields -1 exactly when no column has the name; otherwise the first column with exactly that name |
| Reader.GetValueByName | SqlBulkCopyComponents/EnumerableReader.cs:120 | an unknown name throws `IndexOutOfRangeException`; for a known name, the first column with it gives that column's cell when the current row has it, and `IndexOutOfRangeException` when it does not |
| Reader.GetValues | SqlBulkCopyComponents/EnumerableReader.cs:39-45 | a null array throws; otherwise it copies `min(row length, array length)` leading cells, leaves the rest of the array as it was, and returns that count |
| Reader.IsDBNull | SqlBulkCopyComponents/EnumerableReader.cs:85-89 | true exactly when cell i is null or `DBNull`; out-of-range indices throw |
| Reader.IsDBNullMatchesProperty | SqlBulkCopyComponents/EnumerableReader.cs:85-89 | after a read, a cell is reported null exactly when the property it came from holds null or `DBNull` |
| Reader.UnboxIntegral | SqlBulkCopyComponents/EnumerableReader.cs:109-111 | unboxing succeeds exactly on an integer, or an enumeration value, of the requested integral type and yields its number; null throws `NullReferenceException` and any other value `InvalidCastException` |
| Reader.GetIntegral | SqlBulkCopyComponents/EnumerableReader.cs:109-111 | reads cell i and unboxes it, and throws on a bad index |
| Reader.GetByte | SqlBulkCopyComponents/EnumerableReader.cs:101 | succeeds exactly on a cell holding an integer or enumeration value of type `byte` and yields its number; a bad index, a null cell or another value throws as for `GetBoolean` |
| Reader.GetInt16 | SqlBulkCopyComponents/EnumerableReader.cs:109 | the same at `short` |
| Reader.GetInt32 | SqlBulkCopyComponents/EnumerableReader.cs:110 | the same at `int` |
| Reader.GetInt64 | SqlBulkCopyComponents/EnumerableReader.cs:111 | the same at `long` |
| Reader.GetBoolean | SqlBulkCopyComponents/EnumerableReader.cs:106 | succeeds exactly on a boolean cell and yields its value; otherwise a bad index throws `IndexOutOfRangeException`, a null cell `NullReferenceException` and any other cell `InvalidCastException` |
| Reader.GetChar | SqlBulkCopyComponents/EnumerableReader.cs:107 | succeeds exactly on a character cell and yields its UTF-16 code unit; the failures are those of `GetBoolean` |
| Reader.GetString | SqlBulkCopyComponents/EnumerableReader.cs:114 | succeeds exactly on a string or null cell, reading null as a null string; otherwise a bad index throws `IndexOutOfRangeException` and any other cell `InvalidCastException` |
| Reader.IntegralShape | SqlBulkCopyComponents/ModelToDataTable.cs:67-71 | a value of any declared type whose storage type is integral k is null or a boxed integer or enumeration value of kind k |
| Reader.IntegralColumnReads | SqlBulkCopyComponents/EnumerableReader.cs:109-111 | on an integral column, `GetIntegral` at the column's kind (for `byte`, `short`, `int` and `long` columns, the accessor of lines 101 and 109-111) reads every non-null cell and throws `NullReferenceException` exactly on null cells |
| Reader.ArrayCopy | SqlBulkCopyComponents/EnumerableReader.cs:67 | `Array.Copy` succeeds exactly when the source index fits an `int` and both ranges fit their arrays; it then writes `length` source elements at the destination index and keeps the rest |
| Reader.ReadChunk | SqlBulkCopyComponents/EnumerableReader.cs:63-68 | a null buffer yields the source length; an index past the buffer throws; a null source throws `NullReferenceException` at the first of these that reads its length; the count is `min(srcLen - bufferIndex, length)` or 0 with the buffer untouched; a positive count copies `length` elements from `dataIndex` and fails exactly when that range overflows |
| Reader.CheckReadArguments | SqlBulkCopyComponents/EnumerableReader.cs:59-61 | no complaint exactly when `dataIndex`, `bufferIndex` and `length` are all non-negative |
| Reader.AsBytes | SqlBulkCopyComponents/EnumerableReader.cs:62 | the cast succeeds exactly on a byte array or null, null giving a null array; any other value throws `InvalidCastException` |
| Reader.AsChars | SqlBulkCopyComponents/EnumerableReader.cs:76 | the same over character arrays |
| Reader.GetBytes | SqlBulkCopyComponents/EnumerableReader.cs:57-69 | the negative-argument checks come first and in order; then a bad index or a cell that is neither a byte array nor null throws; otherwise the chunk read applies, a null cell as a null source |
| Reader.GetChars | SqlBulkCopyComponents/EnumerableReader.cs:71-83 | the same contract over character arrays |
| Reader.NullCellChecksBufferFirst | SqlBulkCopyComponents/EnumerableReader.cs:62-65 | example: a null cell throws `NullReferenceException` for a null buffer or a valid buffer index, but an empty buffer is rejected first by the buffer-index check |
| Reader.CountIgnoresDataIndex | SqlBulkCopyComponents/EnumerableReader.cs:65 | the returned count does not depend on `dataIndex` |
| Reader.CountCanUnderstateCopy | SqlBulkCopyComponents/EnumerableReader.cs:65-68 | example: 3 elements copied while 1 is reported |
| Reader.ClampedReadStillThrows | SqlBulkCopyComponents/EnumerableReader.cs:65-67 | example: a read the count would clamp still throws in the copy |
| Person.PersonColumns | SqlBulkCopyComponents/Program.cs:67-80 | the `Person` columns are `Id:Int64, Name:String, Age:Int32, CreateTime:DateTime, Sex:Int32` |
| Person.PersonRow | SqlBulkCopyComponents/Program.cs:67-80 | every person projects to id, name or null, age, timestamp or null, and the number held by `Sex`, whether or not it is a declared `Gender` value |
| Person.Sample | SqlBulkCopyComponents/Program.cs:67-80 | a hand-made fixture of three `Person` records with Ids 1-3, all well typed |
| Person.ThreePeople | SqlBulkCopyComponents/Program.cs:45 | loading three people reads three rows, ends at depth 3 and leaves `[3, "C", 50, null, 0]` current |

## Left out

- Reflection and `Expression.Compile` are left out. The property list is an
  explicit `Property` sequence. The once-per-type cache is just a fixed
  function of that list.
- The atomicity of `Interlocked.Increment` is left out. Concurrency is not a
  goal of the reader, so the increment is a plain one with `int` wrap-around.
- The enumerator is left out. It is modelled as a sequence and a position, so
  a source that throws mid-iteration is not modelled. Disposal is modelled as
  the array and list enumerators behave: they ignore it.
- `GetFloat`, `GetDouble`, `GetDecimal`, `GetDateTime` and `GetGuid` are left
  out. Their values are `Opaque` tokens, because the model does not cover
  floating-point, decimal, date or GUID semantics.
- `GetSchemaTable` is left out. It re-enumerates the source through
  `ToDataTable`, which is modelled.
- `GetData` is left out. It only throws `NotSupportedException`.
- A null element of the source and a getter that throws are left out.
  Getters are total functions and elements are never null, so projection
  never throws. In the code such an element makes `ToRowData.Invoke` throw
  at `EnumerableReader.cs:97`, after the depth was already incremented at
  line 95, so `Depth` ends one ahead with the old row still current; and
  `ToDataTable` throws part-way through at `ModelToDataTable.cs:104`.
- Column names and the name passed to `GetOrdinal` are Dafny strings of
  Unicode scalar values. Cell text (`string`, `char`, `char[]`) is modelled
  as UTF-16 code units, so lone surrogates and surrogate pairs in cells are
  covered; a lone surrogate in a name is not.
- Static properties and indexers are left out. A `Property` descriptor
  stands for a public instance property without parameters. The code lists
  properties with `GetProperties()` and no binding flags
  (`ModelToDataTable.cs:22`), so a readable static property or indexer is
  kept too; `Expression.Property` then throws (`ModelToDataTable.cs:53`), the
  type initializer fails, and every later use of `Columns` or `ToRowData`
  throws `TypeInitializationException`: `FieldCount`, `GetOrdinal`, `Read`
  and `ToDataTable` included.
- A property declared with a class or interface type (`TypeTag.Class`) is
  taken to admit every value, as `object` does. The model does not track
  which values a given interface or base class admits.
- `DataTable` internals are left out: the case-insensitive duplicate-name
  check of `Columns.Add`, the value coercion of `Rows.Add`, and a null table
  name. A table is its name, its ordered columns and its rows.
- `SqlConnectionExtension.cs` is not part of this model. It holds the
  `SqlBulkCopy` transport, connection, transaction and column-mapping glue.
  `Reader.ReadToEnd` only stands in for the transport's "read until false"
  loop.
- `Program.cs` is not part of this model beyond its `Person` and `Gender`
  types. The rest is data generation with `Random`, SQL, timing and console
  output.
- Schema.ToRowData: the contract states only the row width. The cell-by-cell
  content is stated by `Schema.ToRowDataAt`, which keeps the proofs that use
  the projection small.
- The order of `GetProperties()` is taken as given. The `Property` list
  stands for whatever order that call returns (`ModelToDataTable.cs:22`). For
  a flat class such as `Person` that is declaration order on current
  runtimes, but the API does not promise any order.
- `RecordsAffected` is left out. It is the constant 0.
