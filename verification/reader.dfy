/** `EnumerableReader<TModel>`: a forward-only cursor over a sequence of
    records. The enumerator is the sequence plus the index of the next element;
    the reader's mutable fields become the fields of an immutable `Reader`
    value, and each operation returns the reader it leaves behind. */
module Reader {
  import opened Types
  import opened Values
  import opened Schema

  /** The reader's state: the record type's properties, the source and the
      enumerator position `pos` (elements already pulled), the current row,
      the `Depth` counter and the released flag. */
  datatype Reader<!M> = Reader(
    props: seq<Property<M>>,
    source: seq<M>,
    pos: nat,
    current: seq<Value>,
    depth: int32,
    released: bool)

  /** The outcome of `Read`: the reader after the call and the returned flag. */
  datatype Step<!M> = Step(reader: Reader<M>, more: bool)

  /** The constructor: a null source throws; otherwise the enumerator is at the
      start, the row is empty, the depth is 0 and the reader is open. */
  function Open<M>(props: seq<Property<M>>, source: Option<seq<M>>): (r: Result<Reader<M>>)
    ensures source.None? <==> r.Err?
    ensures r.Err? ==> r.error == ArgumentNull("source")
    ensures r.Ok? ==>
      && r.value.props == props && r.value.source == source.value
      && r.value.pos == 0 && r.value.current == [] && r.value.depth == 0 && !r.value.released
  {
    match source
    case None => Err(ArgumentNull("source"))
    case Some(s) => Ok(Reader(props, s, 0, [], 0, false))
  }

  /** The enumerator has not run past the end, and every record is well typed. */
  ghost predicate Valid<M>(rd: Reader<M>) {
    && rd.pos <= |rd.source|
    && forall j :: 0 <= j < |rd.source| ==> WellTyped(rd.props, rd.source[j])
  }

  /** The C# `int` holding a count of `n` increments from 0: `n` reduced to
      the `int` range, two's-complement style. */
  function Wrap32(n: nat): (r: int32)
    ensures n <= MaxInt32 ==> r == n
    ensures (n - r) % 0x1_0000_0000 == 0
    decreases n
  {
    if n <= MaxInt32 then n
    else if n < 0x1_0000_0000 then n - 0x1_0000_0000
    else Wrap32(n - 0x1_0000_0000)
  }

  /** `Interlocked.Increment` on an `int`: wraps from the maximum to the minimum. */
  function Inc32(x: int32): (r: int32)
    ensures x < MaxInt32 ==> r == x + 1
    ensures r == MinInt32 <==> x == MaxInt32
  {
    if x == MaxInt32 then MinInt32 else x + 1
  }

  /** Counting with wrap-around: incrementing the wrapped count of `n` rows
      gives the wrapped count of `n + 1` rows. */
  lemma {:induction false} IncWrap(n: nat)
    ensures Inc32(Wrap32(n)) == Wrap32(n + 1)
    decreases n
  {
    if n >= 0x1_0000_0000 {
      IncWrap(n - 0x1_0000_0000);
    }
  }

  /** `Read` / `NextResult`: at the end of the source it returns false and
      changes nothing; otherwise it pulls the next record, increments the depth
      and replaces the current row by that record's projection. */
  function Read<M>(rd: Reader<M>): (s: Step<M>)
    requires Valid(rd)
    ensures Valid(s.reader)
    ensures s.more <==> rd.pos < |rd.source|
    ensures !s.more ==> s.reader == rd
    ensures s.more ==>
      && s.reader == rd.(pos := rd.pos + 1, depth := Inc32(rd.depth),
                         current := ToRowData(rd.props, rd.source[rd.pos]))
      && |s.reader.current| == |Columns(rd.props)|
  {
    if rd.pos < |rd.source| then
      var row := ToRowData(rd.props, rd.source[rd.pos]);
      Step(rd.(pos := rd.pos + 1, depth := Inc32(rd.depth), current := row), true)
    else
      Step(rd, false)
  }

  /** What the reader's fields say about how far it has read: the depth is the
      (wrapped) number of records pulled, and the current row is empty before
      the first record and the projection of the last record pulled after it. */
  ghost predicate Consistent<M>(rd: Reader<M>) {
    && Valid(rd)
    && rd.depth == Wrap32(rd.pos)
    && (rd.pos == 0 ==> rd.current == [])
    && (rd.pos > 0 ==> rd.current == ToRowData(rd.props, rd.source[rd.pos - 1]))
  }

  lemma OpenIsConsistent<M>(props: seq<Property<M>>, source: seq<M>)
    requires forall j :: 0 <= j < |source| ==> WellTyped(props, source[j])
    ensures Open(props, Some(source)).Ok?
    ensures Consistent(Open(props, Some(source)).value)
  {
  }

  /** `Read` keeps the reader consistent, whichever way it goes. */
  lemma ReadPreservesConsistent<M>(rd: Reader<M>)
    requires Consistent(rd)
    ensures Consistent(Read(rd).reader)
  {
    if rd.pos < |rd.source| {
      AdvanceIsConsistent(rd);
    }
  }

  lemma AdvanceIsConsistent<M>(rd: Reader<M>)
    requires Consistent(rd) && rd.pos < |rd.source|
    ensures Consistent(Read(rd).reader)
  {
    var next := Read(rd).reader;
    assert Valid(next);
    assert next.pos == rd.pos + 1 && next.depth == Inc32(rd.depth);
    IncWrap(rd.pos);
    assert next.depth == Wrap32(next.pos);
    assert next.pos > 0;
    assert next.current == ToRowData(next.props, next.source[next.pos - 1]);
  }

  /** Calls `Read` until it returns false, as the bulk-copy transport does;
      returns the final reader and the number of calls that returned true. */
  function ReadToEnd<M>(rd: Reader<M>): (res: (Reader<M>, nat))
    requires Valid(rd)
    ensures Valid(res.0)
    ensures res.0.pos == |rd.source| && res.1 == |rd.source| - rd.pos
    ensures res.0.props == rd.props && res.0.source == rd.source
    decreases |rd.source| - rd.pos
  {
    var s := Read(rd);
    if s.more then
      var (last, n) := ReadToEnd(s.reader);
      (last, n + 1)
    else
      (rd, 0)
  }

  lemma {:induction false} ReadToEndConsistent<M>(rd: Reader<M>)
    requires Consistent(rd)
    ensures Consistent(ReadToEnd(rd).0)
    decreases |rd.source| - rd.pos
  {
    ReadPreservesConsistent(rd);
    var s := Read(rd);
    if s.more {
      ReadToEndConsistent(s.reader);
    }
  }

  /** Reading a fresh reader to the end over `n` records projects `n` rows and
      leaves `Depth` at `n` (wrapped to `int`, so exactly `n` when it fits),
      with the last record's row current. */
  lemma DrainCountsRows<M>(props: seq<Property<M>>, source: seq<M>)
    requires forall j :: 0 <= j < |source| ==> WellTyped(props, source[j])
    ensures Open(props, Some(source)).Ok?
    ensures var (last, n) := ReadToEnd(Open(props, Some(source)).value);
      && n == |source|
      && last.depth == Wrap32(|source|)
      && (|source| <= MaxInt32 ==> last.depth == |source|)
      && (|source| > 0 ==> last.current == ToRowData(props, source[|source| - 1]))
  {
    OpenIsConsistent(props, source);
    var rd := Open(props, Some(source)).value;
    ReadToEndConsistent(rd);
    var (last, n) := ReadToEnd(rd);
    assert last.pos == |source| && last.props == props && last.source == source;
    assert last.depth == Wrap32(|source|);
    if |source| > 0 {
      assert last.current == ToRowData(props, source[|source| - 1]);
    }
  }

  /** While the count fits in an `int`, `Read` never decreases the depth. */
  lemma DepthNeverDecreases<M>(rd: Reader<M>)
    requires Consistent(rd)
    requires |rd.source| <= MaxInt32
    ensures rd.depth <= Read(rd).reader.depth
    ensures Read(rd).reader.depth == rd.depth + (if Read(rd).more then 1 else 0)
  {
  }

  /** `Dispose` / `Close`: marks the reader released; nothing else changes. The
      sequence enumerator is not stopped by disposal, so the reader never
      consults the flag except in `IsClosed`. */
  function Dispose<M>(rd: Reader<M>): (r: Reader<M>)
    ensures IsClosed(r)
    ensures r.(released := rd.released) == rd
  {
    rd.(released := true)
  }

  /** Disposing twice is disposing once. */
  lemma DisposeIdempotent<M>(rd: Reader<M>)
    ensures Dispose(Dispose(rd)) == Dispose(rd)
  {
  }

  predicate IsClosed<M>(rd: Reader<M>) {
    rd.released
  }

  /** `IsClosed` changes only through `Dispose`: a fresh reader is open, and
      `Read` leaves the flag as it was. */
  lemma ClosedOnlyByDispose<M>(rd: Reader<M>)
    requires Valid(rd)
    ensures IsClosed(Read(rd).reader) == IsClosed(rd)
    ensures forall props: seq<Property<M>>, s: seq<M> :: !IsClosed(Open(props, Some(s)).value)
  {
  }

  /** `FieldCount`: the number of columns, whatever the reader's state. */
  function FieldCount<M>(rd: Reader<M>): (r: nat)
    ensures r == |Readable(rd.props)|
  {
    |Columns(rd.props)|
  }

  /** `GetValue` / `this[int]`: the i-th cell of the current row. */
  function GetValue<M>(rd: Reader<M>, i: int): (r: Result<Value>)
    ensures r.Ok? <==> 0 <= i < |rd.current|
    ensures r.Ok? ==> r.value == rd.current[i]
    ensures r.Err? ==> r.error == IndexOutOfRange
  {
    if 0 <= i < |rd.current| then Ok(rd.current[i]) else Err(IndexOutOfRange)
  }

  /** Before the first successful `Read` no cell can be read. */
  lemma NoValueBeforeFirstRead<M>(rd: Reader<M>, i: int)
    requires Consistent(rd) && rd.pos == 0
    ensures GetValue(rd, i) == Err(IndexOutOfRange)
  {
  }

  /** After a successful `Read` the row has exactly `FieldCount` cells, and
      cell i is the converted value of the i-th readable property. */
  lemma RowMatchesSchema<M>(rd: Reader<M>, i: int)
    requires Consistent(rd) && rd.pos > 0
    requires 0 <= i < FieldCount(rd)
    ensures |rd.current| == FieldCount(rd)
    ensures var p := Readable(rd.props)[i];
      GetValue(rd, i) == Ok(ConvertBindProperty(p.declared, p.getter.value(rd.source[rd.pos - 1])))
  {
    ToRowDataAt(rd.props, rd.source[rd.pos - 1]);
  }

  /** `GetName`: the i-th column's name; the column list throws out of range. */
  function GetName<M>(rd: Reader<M>, i: int): (r: Result<string>)
    ensures r.Ok? <==> 0 <= i < FieldCount(rd)
    ensures r.Ok? ==> r.value == Readable(rd.props)[i].name
    ensures r.Err? ==> r.error == ArgumentOutOfRange
  {
    var cols := Columns(rd.props);
    ColumnsAt(rd.props);
    if 0 <= i < |cols| then Ok(cols[i].name) else Err(ArgumentOutOfRange)
  }

  /** `GetFieldType`: the i-th column's storage type. */
  function GetFieldType<M>(rd: Reader<M>, i: int): (r: Result<TypeTag>)
    ensures r.Ok? <==> 0 <= i < FieldCount(rd)
    ensures r.Ok? ==> IsStorage(r.value) && r.value == DataType(Readable(rd.props)[i].declared)
    ensures r.Err? ==> r.error == ArgumentOutOfRange
  {
    var cols := Columns(rd.props);
    ColumnsAt(rd.props);
    if 0 <= i < |cols| then Ok(cols[i].dataType) else Err(ArgumentOutOfRange)
  }

  /** `GetDataTypeName`: the name of the i-th column's storage type. */
  function GetDataTypeName<M>(rd: Reader<M>, i: int): (r: Result<string>)
    ensures r.Ok? <==> 0 <= i < FieldCount(rd)
    ensures r.Ok? ==> r.value == TypeName(DataType(Readable(rd.props)[i].declared))
    ensures r.Err? ==> r.error == ArgumentOutOfRange
  {
    var t :- GetFieldType(rd, i);
    Ok(TypeName(t))
  }

  /** `GetOrdinal`: the first column whose name equals `name` (exact,
      case-sensitive comparison), or -1 when there is none. */
  method GetOrdinal<M>(rd: Reader<M>, name: string) returns (i: int)
    ensures -1 <= i < FieldCount(rd)
    ensures i == -1 <==> forall j :: 0 <= j < FieldCount(rd) ==> Columns(rd.props)[j].name != name
    ensures 0 <= i ==> Columns(rd.props)[i].name == name
    ensures forall j :: 0 <= j < FieldCount(rd) && Columns(rd.props)[j].name == name ==> 0 <= i <= j
  {
    var cols := Columns(rd.props);
    var k := 0;
    while k < |cols|
      invariant 0 <= k <= |cols|
      invariant forall j :: 0 <= j < k ==> cols[j].name != name
    {
      if cols[k].name == name {
        assert FieldCount(rd) == |cols| && Columns(rd.props)[k].name == name;
        return k;
      }
      k := k + 1;
    }
    return -1;
  }

  /** Column j is the first column named `name`. */
  predicate FirstNamed(cols: seq<Column>, name: string, j: int) {
    && 0 <= j < |cols| && cols[j].name == name
    && forall q :: 0 <= q < j ==> cols[q].name != name
  }

  /** `this[string]`: the cell of the first column with that name; an unknown
      name gives index -1, which the row array rejects, and so does a known
      column beyond the current row (before the first `Read`). */
  method GetValueByName<M>(rd: Reader<M>, name: string) returns (r: Result<Value>)
    ensures (forall j :: 0 <= j < FieldCount(rd) ==> Columns(rd.props)[j].name != name) ==>
      r == Err(IndexOutOfRange)
    ensures forall j :: FirstNamed(Columns(rd.props), name, j) ==>
      r == (if j < |rd.current| then Ok(rd.current[j]) else Err(IndexOutOfRange))
    ensures r.Ok? ==>
      exists j :: FirstNamed(Columns(rd.props), name, j) && j < |rd.current| && r.value == rd.current[j]
  {
    var i := GetOrdinal(rd, name);
    r := GetValue(rd, i);
    if 0 <= i {
      assert FirstNamed(Columns(rd.props), name, i);
    }
  }

  /** The result of `GetValues`: the caller's array after the copy, and the count. */
  datatype Filled = Filled(values: seq<Value>, count: int)

  /** `GetValues`: throws on a null array; otherwise copies the leading
      `min(row length, array length)` cells, leaves the rest of the array as
      it was, and returns that count. */
  method GetValues<M>(rd: Reader<M>, values: Option<seq<Value>>) returns (r: Result<Filled>)
    ensures values.None? <==> r.Err?
    ensures r.Err? ==> r.error == ArgumentNull("values")
    ensures r.Ok? ==>
      && var n := r.value.count;
      && n == (if |rd.current| < |values.value| then |rd.current| else |values.value|)
      && |r.value.values| == |values.value|
      && (forall k :: 0 <= k < n ==> r.value.values[k] == rd.current[k])
      && (forall k :: n <= k < |values.value| ==> r.value.values[k] == values.value[k])
  {
    if values.None? {
      return Err(ArgumentNull("values"));
    }
    var buf := values.value;
    var n := if |rd.current| < |buf| then |rd.current| else |buf|;
    var k := 0;
    while k < n
      invariant 0 <= k <= n
      invariant |buf| == |values.value|
      invariant forall q :: 0 <= q < k ==> buf[q] == rd.current[q]
      invariant forall q :: k <= q < |buf| ==> buf[q] == values.value[q]
    {
      buf := buf[k := rd.current[k]];
      k := k + 1;
    }
    r := Ok(Filled(buf, n));
  }

  /** `IsDBNull`: whether the i-th cell is null or `DBNull`. */
  function IsDBNull<M>(rd: Reader<M>, i: int): (r: Result<bool>)
    ensures r.Ok? <==> 0 <= i < |rd.current|
    ensures r.Ok? ==> (r.value <==> rd.current[i] == Null || rd.current[i] == DBNull)
    ensures r.Err? ==> r.error == IndexOutOfRange
  {
    var v :- GetValue(rd, i);
    Ok(IsNullValue(v))
  }

  /** After a successful `Read`, cell i reads as null exactly when the i-th
      readable property of the last record holds null or `DBNull` (an
      enumeration's conversion never produces either). */
  lemma IsDBNullMatchesProperty<M>(rd: Reader<M>, i: int)
    requires Consistent(rd) && rd.pos > 0
    requires 0 <= i < FieldCount(rd)
    ensures IsDBNull(rd, i) == Ok(IsNullValue(Readable(rd.props)[i].getter.value(rd.source[rd.pos - 1])))
  {
    ToRowDataAt(rd.props, rd.source[rd.pos - 1]);
  }

  // ---------------------------------------------------------------------
  // Typed accessors: unboxing casts of the current cell.

  /** Unboxing to an integral type: succeeds on a value of exactly that type
      and, as the runtime allows, on an enumeration value whose underlying type
      it is; unboxing null throws `NullReferenceException`. */
  function UnboxIntegral(v: Value, k: IntKind): (r: Result<int>)
    ensures r.Ok? <==> (v.Int? || v.EnumVal?) && v.kind == k
    ensures r.Ok? ==> r.value == v.n
    ensures r.Err? ==> r.error == (if v.Null? then NullReference else InvalidCast)
  {
    match v
    case Int(kind, n) => if kind == k then Ok(n) else Err(InvalidCast)
    case EnumVal(_, kind, n) => if kind == k then Ok(n) else Err(InvalidCast)
    case Null => Err(NullReference)
    case _ => Err(InvalidCast)
  }

  /** `GetByte`, `GetInt16`, `GetInt32`, `GetInt64` (with `k` the target type). */
  function GetIntegral<M>(rd: Reader<M>, i: int, k: IntKind): (r: Result<int>)
    ensures 0 <= i < |rd.current| ==> r == UnboxIntegral(rd.current[i], k)
    ensures !(0 <= i < |rd.current|) ==> r == Err(IndexOutOfRange)
  {
    var v :- GetValue(rd, i);
    UnboxIntegral(v, k)
  }

  function GetByte<M>(rd: Reader<M>, i: int): (r: Result<int>)
    ensures r.Ok? <==> 0 <= i < |rd.current| && (rd.current[i].Int? || rd.current[i].EnumVal?) &&
                       rd.current[i].kind == Byte
    ensures r.Ok? ==> r.value == rd.current[i].n
    ensures r.Err? ==> r.error == CastError(rd, i)
  {
    GetIntegral(rd, i, Byte)
  }

  function GetInt16<M>(rd: Reader<M>, i: int): (r: Result<int>)
    ensures r.Ok? <==> 0 <= i < |rd.current| && (rd.current[i].Int? || rd.current[i].EnumVal?) &&
                       rd.current[i].kind == Int16
    ensures r.Ok? ==> r.value == rd.current[i].n
    ensures r.Err? ==> r.error == CastError(rd, i)
  {
    GetIntegral(rd, i, Int16)
  }

  function GetInt32<M>(rd: Reader<M>, i: int): (r: Result<int>)
    ensures r.Ok? <==> 0 <= i < |rd.current| && (rd.current[i].Int? || rd.current[i].EnumVal?) &&
                       rd.current[i].kind == Int32
    ensures r.Ok? ==> r.value == rd.current[i].n
    ensures r.Err? ==> r.error == CastError(rd, i)
  {
    GetIntegral(rd, i, Int32)
  }

  function GetInt64<M>(rd: Reader<M>, i: int): (r: Result<int>)
    ensures r.Ok? <==> 0 <= i < |rd.current| && (rd.current[i].Int? || rd.current[i].EnumVal?) &&
                       rd.current[i].kind == Int64
    ensures r.Ok? ==> r.value == rd.current[i].n
    ensures r.Err? ==> r.error == CastError(rd, i)
  {
    GetIntegral(rd, i, Int64)
  }

  /** The exception a failed unboxing of cell i throws: the row array rejects
      a bad index, unboxing null throws `NullReferenceException`, and unboxing
      a value of another type throws `InvalidCastException`. */
  function CastError<M>(rd: Reader<M>, i: int): Error {
    if !(0 <= i < |rd.current|) then IndexOutOfRange
    else if rd.current[i].Null? then NullReference
    else InvalidCast
  }

  /** `GetBoolean`: unboxes a boolean cell. */
  function GetBoolean<M>(rd: Reader<M>, i: int): (r: Result<bool>)
    ensures r.Ok? <==> 0 <= i < |rd.current| && rd.current[i].Bool?
    ensures r.Ok? ==> r.value == rd.current[i].b
    ensures r.Err? ==> r.error == CastError(rd, i)
  {
    var v :- GetValue(rd, i);
    match v
    case Bool(b) => Ok(b)
    case Null => Err(NullReference)
    case _ => Err(InvalidCast)
  }

  /** `GetChar`: unboxes a character cell. */
  function GetChar<M>(rd: Reader<M>, i: int): (r: Result<CodeUnit>)
    ensures r.Ok? <==> 0 <= i < |rd.current| && rd.current[i].Chr?
    ensures r.Ok? ==> r.value == rd.current[i].c
    ensures r.Err? ==> r.error == CastError(rd, i)
  {
    var v :- GetValue(rd, i);
    match v
    case Chr(c) => Ok(c)
    case Null => Err(NullReference)
    case _ => Err(InvalidCast)
  }

  /** `GetString`: a reference cast, so a null cell reads as a null string. */
  function GetString<M>(rd: Reader<M>, i: int): (r: Result<Option<seq<CodeUnit>>>)
    ensures r.Ok? <==> 0 <= i < |rd.current| && (rd.current[i].Str? || rd.current[i].Null?)
    ensures r.Ok? ==> (r.value.None? <==> rd.current[i].Null?)
    ensures r.Ok? && r.value.Some? ==> r.value.value == rd.current[i].s
    ensures r.Err? ==> r.error == (if 0 <= i < |rd.current| then InvalidCast else IndexOutOfRange)
  {
    var v :- GetValue(rd, i);
    match v
    case Str(s) => Ok(Some(s))
    case Null => Ok(None)
    case _ => Err(InvalidCast)
  }

  /** A value of a declared type that normalises to an integral type is null,
      or a boxed integer or enumeration value of that integral type. */
  lemma {:induction false} IntegralShape(v: Value, t: TypeTag, k: IntKind)
    requires HasType(v, t) && DataType(t) == Integral(k)
    ensures v.Null? || ((v.Int? || v.EnumVal?) && v.kind == k)
  {
    if t.Nullable? && !v.Null? {
      IntegralShape(v, t.inner, k);
    }
  }

  /** The typed accessor matching an integral column's reported type reads
      every non-null cell of that column, nullable enumerations included, and
      fails with `NullReferenceException` exactly on null cells. */
  lemma IntegralColumnReads<M>(rd: Reader<M>, i: int, k: IntKind)
    requires Consistent(rd) && rd.pos > 0
    requires GetFieldType(rd, i) == Ok(Integral(k))
    ensures GetIntegral(rd, i, k).Ok? <==> !rd.current[i].Null?
    ensures GetIntegral(rd, i, k).Err? ==> GetIntegral(rd, i, k).error == NullReference
  {
    var m := rd.source[rd.pos - 1];
    ToRowDataAt(rd.props, m);
    var p := Readable(rd.props)[i];
    IntegralShape(p.getter.value(m), p.declared, k);
  }

  // ---------------------------------------------------------------------
  // Partial reads: GetBytes and GetChars.

  /** `Array.Copy` with 64-bit indices: a source index beyond the `int` range
      throws `ArgumentOutOfRangeException`; a range running past either array
      throws `ArgumentException`; otherwise `length` elements are copied. */
  function ArrayCopy<T>(src: seq<T>, srcIndex: int, dst: seq<T>, dstIndex: int, length: int): (r: Result<seq<T>>)
    requires 0 <= srcIndex && 0 <= dstIndex && 0 <= length
    ensures r.Ok? <==> srcIndex <= MaxInt32 && srcIndex + length <= |src| && dstIndex + length <= |dst|
    ensures r.Err? ==> r.error == (if srcIndex > MaxInt32 then ArgumentOutOfRange else CopyRange)
    ensures r.Ok? ==>
      && |r.value| == |dst|
      && (forall k :: dstIndex <= k < dstIndex + length ==> r.value[k] == src[srcIndex + (k - dstIndex)])
      && (forall k :: 0 <= k < |dst| && !(dstIndex <= k < dstIndex + length) ==> r.value[k] == dst[k])
  {
    if srcIndex > MaxInt32 then Err(ArgumentOutOfRange)
    else if srcIndex + length > |src| || dstIndex + length > |dst| then Err(CopyRange)
    else Ok(dst[..dstIndex] + src[srcIndex..srcIndex + length] + dst[dstIndex + length..])
  }

  function Min(a: int, b: int): int {
    if a < b then a else b
  }

  /** The outcome of a partial read: the caller's buffer after the call (null
      stays null) and the returned count. */
  datatype Chunk<T> = Chunk(buffer: Option<seq<T>>, count: int)

  /** The part of `GetBytes` / `GetChars` after the argument checks and the
      cast; `src` is the cast array, which may be null. A null buffer is a
      probe and gets the source length. An index at or beyond the buffer's end
      throws. Only then is the source's length needed, so a null source
      throws `NullReferenceException` at the first of these two uses. The
      count is `min(source length - bufferIndex, length)`, and when that is
      not positive nothing is copied; otherwise `length` elements starting at
      `dataIndex` are copied to `bufferIndex`, which throws when either range
      runs past its array. */
  function ReadChunk<T>(src: Option<seq<T>>, dataIndex: int64, buffer: Option<seq<T>>,
                        bufferIndex: int32, length: int32): (r: Result<Chunk<T>>)
    requires dataIndex >= 0 && bufferIndex >= 0 && length >= 0
    ensures buffer.None? ==>
      r == (if src.None? then Err(NullReference) else Ok(Chunk(None, |src.value|)))
    ensures buffer.Some? && bufferIndex >= |buffer.value| ==>
      r == Err(BadReadArgument(BufferIndexBeyondBuffer))
    ensures buffer.Some? && bufferIndex < |buffer.value| && src.None? ==>
      r == Err(NullReference)
    ensures src.Some? && buffer.Some? && bufferIndex < |buffer.value| &&
            Min(|src.value| - bufferIndex, length) <= 0 ==>
      r == Ok(Chunk(buffer, 0))
    ensures src.Some? && buffer.Some? && bufferIndex < |buffer.value| &&
            Min(|src.value| - bufferIndex, length) > 0 ==>
      && (r.Ok? <==> dataIndex <= MaxInt32 && dataIndex + length <= |src.value| &&
                     bufferIndex + length <= |buffer.value|)
      && (r.Ok? ==> r.value.count == Min(|src.value| - bufferIndex, length))
      && (r.Err? ==> r.error == (if dataIndex > MaxInt32 then ArgumentOutOfRange else CopyRange))
    ensures r.Ok? && buffer.Some? ==>
      && src.Some?
      && r.value.buffer.Some? && |r.value.buffer.value| == |buffer.value|
      && 0 <= r.value.count <= length
      && (r.value.count > 0 ==> forall k :: bufferIndex <= k < bufferIndex + length ==>
            r.value.buffer.value[k] == src.value[dataIndex + (k - bufferIndex)])
      && (forall k :: 0 <= k < |buffer.value| && !(bufferIndex <= k < bufferIndex + length) ==>
            r.value.buffer.value[k] == buffer.value[k])
  {
    if buffer.None? then
      if src.None? then Err(NullReference) else Ok(Chunk(None, |src.value|))
    else if |buffer.value| <= bufferIndex then Err(BadReadArgument(BufferIndexBeyondBuffer))
    else if src.None? then Err(NullReference)
    else
      var free := Min(|src.value| - bufferIndex, length);
      if free <= 0 then Ok(Chunk(buffer, 0))
      else
        var copied :- ArrayCopy(src.value, dataIndex, buffer.value, bufferIndex, length);
        Ok(Chunk(Some(copied), free))
  }

  /** The three argument checks shared by `GetBytes` and `GetChars`, in order. */
  function CheckReadArguments(dataIndex: int64, bufferIndex: int32, length: int32): (r: Option<ReadArgument>)
    ensures r.None? <==> dataIndex >= 0 && bufferIndex >= 0 && length >= 0
  {
    if dataIndex < 0 then Some(NegativeDataIndex)
    else if bufferIndex < 0 then Some(NegativeBufferIndex)
    else if length < 0 then Some(NegativeLength)
    else None
  }

  /** The cast `(byte[])value`: null casts to a null array (`None`) and any
      value other than a byte array throws. */
  function AsBytes(v: Value): (r: Result<Option<seq<byte>>>)
    ensures r.Ok? <==> v.Bytes? || v.Null?
    ensures r.Ok? ==> (r.value.None? <==> v.Null?)
    ensures v.Bytes? ==> r == Ok(Some(v.bytes))
    ensures r.Err? ==> r.error == InvalidCast
  {
    match v
    case Bytes(b) => Ok(Some(b))
    case Null => Ok(None)
    case _ => Err(InvalidCast)
  }

  /** The cast `(char[])value`, likewise. */
  function AsChars(v: Value): (r: Result<Option<seq<CodeUnit>>>)
    ensures r.Ok? <==> v.Chars? || v.Null?
    ensures r.Ok? ==> (r.value.None? <==> v.Null?)
    ensures v.Chars? ==> r == Ok(Some(v.chars))
    ensures r.Err? ==> r.error == InvalidCast
  {
    match v
    case Chars(c) => Ok(Some(c))
    case Null => Ok(None)
    case _ => Err(InvalidCast)
  }

  /** `GetBytes`: the argument checks come first, then the cell is read and
      cast, then the chunk is read from it; a null cell is carried into the
      chunk read, which throws only where it needs the array's length. */
  function GetBytes<M>(rd: Reader<M>, ordinal: int, dataIndex: int64, buffer: Option<seq<byte>>,
                       bufferIndex: int32, length: int32): (r: Result<Chunk<byte>>)
    ensures CheckReadArguments(dataIndex, bufferIndex, length).Some? ==>
      r == Err(BadReadArgument(CheckReadArguments(dataIndex, bufferIndex, length).value))
    ensures CheckReadArguments(dataIndex, bufferIndex, length).None? && !(0 <= ordinal < |rd.current|) ==>
      r == Err(IndexOutOfRange)
    ensures CheckReadArguments(dataIndex, bufferIndex, length).None? && 0 <= ordinal < |rd.current| ==>
      r == (if rd.current[ordinal].Bytes?
            then ReadChunk(Some(rd.current[ordinal].bytes), dataIndex, buffer, bufferIndex, length)
            else if rd.current[ordinal].Null?
            then ReadChunk(None, dataIndex, buffer, bufferIndex, length)
            else Err(InvalidCast))
  {
    match CheckReadArguments(dataIndex, bufferIndex, length)
    case Some(why) => Err(BadReadArgument(why))
    case None =>
      var v :- GetValue(rd, ordinal);
      var src :- AsBytes(v);
      ReadChunk(src, dataIndex, buffer, bufferIndex, length)
  }

  /** `GetChars`: the same contract over character arrays. */
  function GetChars<M>(rd: Reader<M>, ordinal: int, dataIndex: int64, buffer: Option<seq<CodeUnit>>,
                       bufferIndex: int32, length: int32): (r: Result<Chunk<CodeUnit>>)
    ensures CheckReadArguments(dataIndex, bufferIndex, length).Some? ==>
      r == Err(BadReadArgument(CheckReadArguments(dataIndex, bufferIndex, length).value))
    ensures CheckReadArguments(dataIndex, bufferIndex, length).None? && !(0 <= ordinal < |rd.current|) ==>
      r == Err(IndexOutOfRange)
    ensures CheckReadArguments(dataIndex, bufferIndex, length).None? && 0 <= ordinal < |rd.current| ==>
      r == (if rd.current[ordinal].Chars?
            then ReadChunk(Some(rd.current[ordinal].chars), dataIndex, buffer, bufferIndex, length)
            else if rd.current[ordinal].Null?
            then ReadChunk(None, dataIndex, buffer, bufferIndex, length)
            else Err(InvalidCast))
  {
    match CheckReadArguments(dataIndex, bufferIndex, length)
    case Some(why) => Err(BadReadArgument(why))
    case None =>
      var v :- GetValue(rd, ordinal);
      var src :- AsChars(v);
      ReadChunk(src, dataIndex, buffer, bufferIndex, length)
  }

  /** A null byte-array cell fails only where its length is first needed: a
      probe with a null buffer throws `NullReferenceException`, while an empty
      buffer is rejected first by the buffer-index check. */
  lemma NullCellChecksBufferFirst<M>(rd: Reader<M>)
    requires |rd.current| > 0 && rd.current[0] == Null
    ensures GetBytes(rd, 0, 0, None, 0, 0) == Err(NullReference)
    ensures GetBytes(rd, 0, 0, Some([]), 0, 0) == Err(BadReadArgument(BufferIndexBeyondBuffer))
    ensures GetBytes(rd, 0, 0, Some([7]), 0, 1) == Err(NullReference)
  {
  }

  /** The count returned does not depend on `dataIndex`: two reads that differ
      only in where they start in the source return the same count whenever
      both succeed. */
  lemma CountIgnoresDataIndex<T>(src: seq<T>, d1: int64, d2: int64, buffer: Option<seq<T>>,
                                 bufferIndex: int32, length: int32)
    requires d1 >= 0 && d2 >= 0 && bufferIndex >= 0 && length >= 0
    requires ReadChunk(Some(src), d1, buffer, bufferIndex, length).Ok?
    requires ReadChunk(Some(src), d2, buffer, bufferIndex, length).Ok?
    ensures ReadChunk(Some(src), d1, buffer, bufferIndex, length).value.count ==
            ReadChunk(Some(src), d2, buffer, bufferIndex, length).value.count
  {
  }

  /** As written, the count is clamped by the buffer index while the copy is
      not: reading 3 bytes of a 4-byte value into index 3 of a 10-byte buffer
      copies all 3 bytes and returns 1. */
  lemma CountCanUnderstateCopy()
    ensures var src: seq<byte> := [1, 2, 3, 4];
      var r := ReadChunk(Some(src), 0, Some(seq(10, _ => 0)), 3, 3);
      && r.Ok? && r.value.count == 1
      && r.value.buffer.value[3..6] == [1, 2, 3]
  {
    var src: seq<byte> := [1, 2, 3, 4];
    var r := ReadChunk(Some(src), 0, Some(seq(10, _ => 0)), 3, 3);
    assert r.value.buffer.value[3..6] == [src[0], src[1], src[2]];
  }

  /** As written, a read that would be clamped to the data left in the source
      throws instead: 2 bytes from index 3 of a 4-byte value fail in the copy. */
  lemma ClampedReadStillThrows()
    ensures var src: seq<byte> := [1, 2, 3, 4];
      ReadChunk(Some(src), 3, Some(seq(10, _ => 0)), 0, 2) == Err(CopyRange)
  {
  }
}
