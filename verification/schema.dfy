/** `ModelToDataTable<TModel>`: the column list of a record type and the
    projection of one record onto a positional row. Reflection over `TModel`
    is replaced by an explicit list of property descriptors, in the order
    `GetProperties()` returns them; the compiled projector is the pure
    function `ToRowData`. */
module Schema {
  import opened Types
  import opened Values

  /** One public property of the record type `M`: its name, its declared type
      and its getter, absent for a write-only property (`CanRead` is false). */
  datatype Property<!M> = Property(name: string, declared: TypeTag, getter: Option<M -> Value>)

  predicate CanRead<M>(p: Property<M>) {
    p.getter.Some?
  }

  /** A `DataColumn`: name and storage type. */
  datatype Column = Column(name: string, dataType: TypeTag)

  /** The readable properties, in the order of the property list. */
  function Readable<M>(props: seq<Property<M>>): (rs: seq<Property<M>>)
    ensures |rs| <= |props|
    ensures forall i :: 0 <= i < |rs| ==> CanRead(rs[i])
    ensures forall p :: p in rs ==> p in props
    decreases |props|
  {
    if |props| == 0 then []
    else (if CanRead(props[0]) then [props[0]] else []) + Readable(props[1..])
  }

  /** Filtering distributes over concatenation: together with the one-element
      case this says `Readable` keeps every readable property, drops every
      other one, and keeps the order of the property list. */
  lemma {:induction false} ReadableAppend<M>(a: seq<Property<M>>, b: seq<Property<M>>)
    ensures Readable(a + b) == Readable(a) + Readable(b)
    decreases |a|
  {
    if |a| == 0 {
      assert a + b == b;
    } else {
      assert (a + b)[1..] == a[1..] + b;
      ReadableAppend(a[1..], b);
    }
  }

  /** A record type whose properties are all readable keeps them all. */
  lemma {:induction false} ReadableAll<M>(props: seq<Property<M>>)
    requires forall i :: 0 <= i < |props| ==> CanRead(props[i])
    ensures Readable(props) == props
    decreases |props|
  {
    if |props| > 0 {
      ReadableAll(props[1..]);
      assert props == [props[0]] + props[1..];
    }
  }

  /** `Columns`: one column per readable property, in list order, named
      after the property, typed with the normalised declared type. */
  function Columns<M>(props: seq<Property<M>>): (cols: seq<Column>)
    ensures |cols| == |Readable(props)|
    ensures forall i :: 0 <= i < |cols| ==> IsStorage(cols[i].dataType)
    decreases |props|
  {
    if |props| == 0 then []
    else
      (if CanRead(props[0]) then [Column(props[0].name, DataType(props[0].declared))] else [])
      + Columns(props[1..])
  }

  /** Column i is named after the i-th readable property and typed with the
      normalisation of its declared type. */
  lemma {:induction false} ColumnsAt<M>(props: seq<Property<M>>)
    ensures forall i :: 0 <= i < |Columns(props)| ==>
      Columns(props)[i] == Column(Readable(props)[i].name, DataType(Readable(props)[i].declared))
    decreases |props|
  {
    if |props| > 0 {
      ColumnsAt(props[1..]);
    }
  }

  /** Every readable property of `m` holds a value of its declared type. */
  ghost predicate WellTyped<M>(props: seq<Property<M>>, m: M) {
    forall p :: p in props && CanRead(p) ==> HasType(p.getter.value(m), p.declared)
  }

  /** Well-typedness checked property by property, by position. */
  lemma WellTypedByIndex<M>(props: seq<Property<M>>, m: M)
    requires forall i :: 0 <= i < |props| && CanRead(props[i]) ==>
      HasType(props[i].getter.value(m), props[i].declared)
    ensures WellTyped(props, m)
  {
    forall p | p in props && CanRead(p)
      ensures HasType(p.getter.value(m), p.declared)
    {
      var i :| 0 <= i < |props| && props[i] == p;
    }
  }

  /** `ConvertBindPropertyToData`: a property whose declared type is an
      enumeration is converted to its underlying integral value; every other
      value, nullable ones included, is boxed unchanged. */
  function ConvertBindProperty(t: TypeTag, v: Value): (r: Value)
    requires HasType(v, t)
    ensures t.Enum? ==> r.Int? && r.n == v.n && HasType(r, DataType(t))
    ensures !t.Enum? ==> r == v
  {
    if t.Enum? then Int(t.underlying, v.n) else v
  }

  /** `ToRowData`: one cell per column, the i-th holding the converted value of
      the i-th readable property. */
  function ToRowData<M>(props: seq<Property<M>>, m: M): (row: seq<Value>)
    requires WellTyped(props, m)
    ensures |row| == |Columns(props)|
    decreases |props|
  {
    if |props| == 0 then []
    else
      assert forall p :: p in props[1..] ==> p in props;
      (if CanRead(props[0])
       then [ConvertBindProperty(props[0].declared, props[0].getter.value(m))]
       else [])
      + ToRowData(props[1..], m)
  }

  /** Cell i of the row is the converted value of the i-th readable property. */
  lemma {:induction false} ToRowDataAt<M>(props: seq<Property<M>>, m: M)
    requires WellTyped(props, m)
    ensures forall i :: 0 <= i < |Readable(props)| ==>
      && Readable(props)[i] in props
      && ToRowData(props, m)[i] ==
         ConvertBindProperty(Readable(props)[i].declared, Readable(props)[i].getter.value(m))
    decreases |props|
  {
    if |props| > 0 {
      var rest := props[1..];
      assert forall p :: p in rest ==> p in props;
      ToRowDataAt(rest, m);
      if CanRead(props[0]) {
        var cell := ConvertBindProperty(props[0].declared, props[0].getter.value(m));
        assert Readable(props) == [props[0]] + Readable(rest);
        assert ToRowData(props, m) == [cell] + ToRowData(rest, m);
      } else {
        assert Readable(props) == Readable(rest);
        assert ToRowData(props, m) == ToRowData(rest, m);
      }
    }
  }

  /** Projection only reads the getters: two records on which every readable
      property agrees project to the same row. */
  lemma ProjectionReadsOnlyGetters<M>(props: seq<Property<M>>, m1: M, m2: M)
    requires WellTyped(props, m1) && WellTyped(props, m2)
    requires forall p :: p in props && CanRead(p) ==> p.getter.value(m1) == p.getter.value(m2)
    ensures ToRowData(props, m1) == ToRowData(props, m2)
  {
    ToRowDataAt(props, m1);
    ToRowDataAt(props, m2);
  }

  /** A cell fits a column when it is null or a value of the column's type. */
  predicate FitsColumn(v: Value, t: TypeTag) {
    v.Null? || HasType(v, t)
  }

  /** Every cell fits its column's storage type, except a present value of a
      nullable enumeration, which stays a boxed enumeration value. */
  lemma CellFitsColumn(t: TypeTag, v: Value)
    requires HasType(v, t)
    ensures !WrapsEnum(t) ==> FitsColumn(ConvertBindProperty(t, v), DataType(t))
    ensures WrapsEnum(t) && !v.Null? ==>
      ConvertBindProperty(t, v) == v && v.EnumVal? && !HasType(v, DataType(t))
  {
    if t.Nullable? && !v.Null? {
      CellFitsColumn(t.inner, v);
    }
  }

  /** The cells of a projected row against the columns: each fits its column
      unless the property is a nullable enumeration holding a value. */
  lemma {:induction false} RowFitsColumns<M>(props: seq<Property<M>>, m: M, i: nat)
    requires WellTyped(props, m)
    requires i < |Columns(props)|
    ensures !WrapsEnum(Readable(props)[i].declared) ==>
      FitsColumn(ToRowData(props, m)[i], Columns(props)[i].dataType)
  {
    ToRowDataAt(props, m);
    ColumnsAt(props);
    var p := Readable(props)[i];
    CellFitsColumn(p.declared, p.getter.value(m));
  }

  /** A `DataTable`: a name, ordered columns and rows. */
  datatype Table = Table(name: string, columns: seq<Column>, rows: seq<seq<Value>>)

  /** The table name `ToDataTable` uses when the caller gives none. */
  const DefaultTableName: string := "TempTable"

  /** Copies the column list, as the `foreach` over `Columns` does. */
  method CopyColumns(cols: seq<Column>) returns (columns: seq<Column>)
    ensures columns == cols
  {
    columns := [];
    var k := 0;
    while k < |cols|
      invariant 0 <= k <= |cols|
      invariant columns == cols[..k]
    {
      columns := columns + [Column(cols[k].name, cols[k].dataType)];
      k := k + 1;
    }
  }

  /** Projects every element of `items`, in order, as the `foreach` over the source does. */
  method ProjectAll<M>(props: seq<Property<M>>, items: seq<M>) returns (rows: seq<seq<Value>>)
    requires forall j :: 0 <= j < |items| ==> WellTyped(props, items[j])
    ensures |rows| == |items|
    ensures forall j :: 0 <= j < |items| ==> rows[j] == ToRowData(props, items[j])
  {
    rows := [];
    var j := 0;
    while j < |items|
      invariant 0 <= j <= |items|
      invariant |rows| == j
      invariant forall q :: 0 <= q < j ==> rows[q] == ToRowData(props, items[q])
    {
      rows := rows + [ToRowData(props, items[j])];
      j := j + 1;
    }
  }

  /** `ToDataTable`: the columns of the record type, then one row per element
      of the source, in source order. A null source makes `foreach` throw. */
  method ToDataTable<M>(props: seq<Property<M>>, source: Option<seq<M>>, tableName: string := DefaultTableName)
    returns (r: Result<Table>)
    requires source.Some? ==> forall j :: 0 <= j < |source.value| ==> WellTyped(props, source.value[j])
    ensures source.None? <==> r.Err?
    ensures r.Err? ==> r.error == NullReference
    ensures r.Ok? ==> r.value.name == tableName && r.value.columns == Columns(props)
    ensures r.Ok? ==> |r.value.rows| == |source.value|
    ensures r.Ok? ==> forall j :: 0 <= j < |source.value| ==>
      r.value.rows[j] == ToRowData(props, source.value[j])
  {
    var columns := CopyColumns(Columns(props));
    if source.None? {
      return Err(NullReference);
    }
    var rows := ProjectAll(props, source.value);
    r := Ok(Table(tableName, columns, rows));
  }
}
