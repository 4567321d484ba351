/** The declared types a record's properties can have, and the normalisation
    that turns a declared type into the storage type of a table column. */
module Types {

  const MinInt32: int := -0x8000_0000
  const MaxInt32: int := 0x7FFF_FFFF
  const MinInt64: int := -0x8000_0000_0000_0000
  const MaxInt64: int := 0x7FFF_FFFF_FFFF_FFFF

  /** The C# `int` and `long` value ranges. */
  type int32 = x: int | MinInt32 <= x <= MaxInt32
  type int64 = x: int | MinInt64 <= x <= MaxInt64

  /** The integral types an enumeration may have as its underlying type. */
  datatype IntKind = SByte | Byte | Int16 | UInt16 | Int32 | UInt32 | Int64 | UInt64

  function MinOf(k: IntKind): int {
    match k
    case SByte => -0x80
    case Int16 => -0x8000
    case Int32 => MinInt32
    case Int64 => MinInt64
    case _ => 0
  }

  function MaxOf(k: IntKind): int {
    match k
    case SByte => 0x7F
    case Byte => 0xFF
    case Int16 => 0x7FFF
    case UInt16 => 0xFFFF
    case Int32 => MaxInt32
    case UInt32 => 0xFFFF_FFFF
    case Int64 => MaxInt64
    case UInt64 => 0xFFFF_FFFF_FFFF_FFFF
  }

  predicate InRange(k: IntKind, n: int) {
    MinOf(k) <= n <= MaxOf(k)
  }

  /** A declared property type. `Enum` carries the enumeration's name and its
      underlying integral type; `Nullable` is `Nullable<T>`; `Object` is
      `System.Object`; `Class` stands for any other class or interface type. (C# never nests `Nullable`, but the normalisation below
      does not rely on that.) */
  datatype TypeTag =
    | Integral(kind: IntKind)
    | Boolean | Char | String
    | Single | Double | Decimal | DateTime | Guid
    | ByteArray | CharArray
    | Enum(name: string, underlying: IntKind)
    | Nullable(inner: TypeTag)
    | Object
    | Class(name: string)

  /** A type a column can have: neither an enumeration nor a nullable wrapper. */
  predicate IsStorage(t: TypeTag) {
    !t.Enum? && !t.Nullable?
  }

  /** `GetDataType`: an enumeration becomes its underlying integral type,
      `Nullable<T>` becomes the storage type of `T`, anything else is kept. */
  function DataType(t: TypeTag): (r: TypeTag)
    ensures IsStorage(r)
    ensures IsStorage(t) ==> r == t
    ensures t.Enum? ==> r == Integral(t.underlying)
  {
    match t
    case Enum(_, k) => Integral(k)
    case Nullable(inner) => DataType(inner)
    case _ => t
  }

  /** Removes every `Nullable` wrapper. */
  function StripNullable(t: TypeTag): (r: TypeTag)
    ensures !r.Nullable?
  {
    if t.Nullable? then StripNullable(t.inner) else t
  }

  /** Replaces an enumeration by its underlying type, without looking inside wrappers. */
  function EnumToIntegral(t: TypeTag): TypeTag {
    if t.Enum? then Integral(t.underlying) else t
  }

  /** Normalisation is the same as stripping every nullable wrapper and then
      replacing an enumeration by its underlying type. */
  lemma {:induction false} DataTypeIsStripThenConvert(t: TypeTag)
    ensures DataType(t) == EnumToIntegral(StripNullable(t))
  {
    if t.Nullable? {
      DataTypeIsStripThenConvert(t.inner);
    }
  }

  /** Normalising twice is normalising once. */
  lemma DataTypeIdempotent(t: TypeTag)
    ensures DataType(DataType(t)) == DataType(t)
  {
  }

  /** The fixed points of the normalisation are exactly the storage types. */
  lemma DataTypeFixedPoints(t: TypeTag)
    ensures DataType(t) == t <==> IsStorage(t)
  {
  }

  /** True when `t` is a (possibly nested) nullable wrapper around an enumeration:
      the one declared shape whose column type is normalised but whose value is not. */
  predicate WrapsEnum(t: TypeTag) {
    t.Nullable? && (t.inner.Enum? || WrapsEnum(t.inner))
  }

  /** `Type.Name` of a type, as reported by `GetDataTypeName`. */
  function TypeName(t: TypeTag): string {
    match t
    case Integral(k) => IntKindName(k)
    case Boolean => "Boolean"
    case Char => "Char"
    case String => "String"
    case Single => "Single"
    case Double => "Double"
    case Decimal => "Decimal"
    case DateTime => "DateTime"
    case Guid => "Guid"
    case ByteArray => "Byte[]"
    case CharArray => "Char[]"
    case Enum(name, _) => name
    case Nullable(_) => "Nullable`1"
    case Object => "Object"
    case Class(name) => name
  }

  function IntKindName(k: IntKind): string {
    match k
    case SByte => "SByte"
    case Byte => "Byte"
    case Int16 => "Int16"
    case UInt16 => "UInt16"
    case Int32 => "Int32"
    case UInt32 => "UInt32"
    case Int64 => "Int64"
    case UInt64 => "UInt64"
  }
}
