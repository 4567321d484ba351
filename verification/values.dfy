/** Boxed property values, row cells, and the exceptions the reader can throw. */
module Values {
  import opened Types

  type byte = x: int | 0 <= x < 0x100

  /** A C# `char`: one UTF-16 code unit, surrogates included. Strings and
      character arrays are sequences of code units. */
  type CodeUnit = x: int | 0 <= x < 0x1_0000

  /** A boxed `object`. `Null` is the null reference and `DBNull` is `DBNull.Value`.
      `EnumVal` is a boxed enumeration value; `Opaque` is a value of a type whose
      contents the model does not look into (floating point, decimal, date/time,
      unique identifier, other classes), tagged with that type. */
  datatype Value =
    | Null
    | DBNull
    | Int(kind: IntKind, n: int)
    | Bool(b: bool)
    | Chr(c: CodeUnit)
    | Str(s: seq<CodeUnit>)
    | EnumVal(enumName: string, kind: IntKind, n: int)
    | Bytes(bytes: seq<byte>)
    | Chars(chars: seq<CodeUnit>)
    | Opaque(tag: TypeTag, token: int)

  /** What the C# type system guarantees of a value read from a property of
      declared type `t` (after boxing: a null `Nullable<T>` boxes to null, a
      present one to its `T` value; reference types may be null). A property
      declared `object`, or with any other class or interface type, is taken
      to hold any value: the model does not track which values an interface
      or base class admits, so it allows them all, `DBNull.Value` included. */
  predicate HasType(v: Value, t: TypeTag) {
    match t
    case Integral(k) => v.Int? && v.kind == k && InRange(k, v.n)
    case Boolean => v.Bool?
    case Char => v.Chr?
    case String => v.Null? || v.Str?
    case ByteArray => v.Null? || v.Bytes?
    case CharArray => v.Null? || v.Chars?
    case Enum(name, k) => v.EnumVal? && v.enumName == name && v.kind == k && InRange(k, v.n)
    case Nullable(inner) => v.Null? || HasType(v, inner)
    case Object => true
    case Class(_) => true
    case _ => v.Opaque? && v.tag == t
  }

  /** True for the two values `IsDBNull` reports as null. */
  predicate IsNullValue(v: Value) {
    v.Null? || v.DBNull?
  }

  datatype Option<+T> = None | Some(value: T)

  /** The argument checks of `GetBytes` / `GetChars`, each of which throws a
      plain `Exception` with its own message. */
  datatype ReadArgument =
    | NegativeDataIndex
    | NegativeBufferIndex
    | NegativeLength
    | BufferIndexBeyondBuffer

  /** The exceptions the modelled code can throw. */
  datatype Error =
    | ArgumentNull(param: string)        // ArgumentNullException
    | IndexOutOfRange                    // array indexer
    | ArgumentOutOfRange                 // list indexer; Array.Copy index beyond int
    | CopyRange                          // Array.Copy: range longer than an array
    | InvalidCast                        // cast or unboxing of a mismatched value
    | NullReference                      // member access or unboxing on null
    | BadReadArgument(reason: ReadArgument)

  datatype Result<+T> = Ok(value: T) | Err(error: Error) {
    predicate IsFailure() {
      Err?
    }

    function PropagateFailure<U>(): Result<U>
      requires Err?
    {
      Err(error)
    }

    function Extract(): T
      requires Ok?
    {
      value
    }
  }
}
