/** The demo program's record type, described by hand as the reflection pass
    would describe it: `Id: long`, `Name: string`, `Age: int`,
    `CreateTime: DateTime?` and `Sex: Gender`, an `int` enumeration. */
module Person {
  import opened Types
  import opened Values
  import opened Schema
  import opened Reader

  /** `Gender`'s declared values. A `Gender` variable can hold any `int`, not
      only these. */
  const Man: int32 := 0
  const Woman: int32 := 1

  /** A person. `name` is absent for a null string (the default of
      `new Person()`), `createTime` is the optional timestamp as opaque ticks,
      and `sex` is the `Gender` value's number. */
  datatype Person = Person(id: int64, name: Option<seq<CodeUnit>>, age: int32, createTime: Option<int>, sex: int32)

  const GenderType: TypeTag := Enum("Gender", Int32)

  function NameValue(name: Option<seq<CodeUnit>>): Value {
    match name
    case None => Null
    case Some(s) => Str(s)
  }

  function CreateTimeValue(t: Option<int>): Value {
    match t
    case None => Null
    case Some(ticks) => Opaque(DateTime, ticks)
  }

  const IdProperty: Property<Person> :=
    Property("Id", Integral(Int64), Some((p: Person) => Int(Int64, p.id)))
  const NameProperty: Property<Person> :=
    Property("Name", String, Some((p: Person) => NameValue(p.name)))
  const AgeProperty: Property<Person> :=
    Property("Age", Integral(Int32), Some((p: Person) => Int(Int32, p.age)))
  const CreateTimeProperty: Property<Person> :=
    Property("CreateTime", Nullable(DateTime), Some((p: Person) => CreateTimeValue(p.createTime)))
  const SexProperty: Property<Person> :=
    Property("Sex", GenderType, Some((p: Person) => EnumVal("Gender", Int32, p.sex)))

  /** `Person`'s properties, in the order `GetProperties()` lists them. */
  const PersonProperties: seq<Property<Person>> :=
    [IdProperty, NameProperty, AgeProperty, CreateTimeProperty, SexProperty]

  lemma PersonWellTyped(p: Person)
    ensures WellTyped(PersonProperties, p)
  {
    var props := PersonProperties;
    assert HasType(props[0].getter.value(p), props[0].declared);
    assert HasType(props[1].getter.value(p), props[1].declared);
    assert HasType(props[2].getter.value(p), props[2].declared);
    assert HasType(props[3].getter.value(p), props[3].declared);
    assert HasType(props[4].getter.value(p), props[4].declared);
    WellTypedByIndex(props, p);
  }

  /** The column list: the enumeration is stored as `Int32` and the optional
      timestamp as `DateTime`. */
  lemma PersonColumns()
    ensures Columns(PersonProperties) == [
      Column("Id", Integral(Int64)), Column("Name", String), Column("Age", Integral(Int32)),
      Column("CreateTime", DateTime), Column("Sex", Integral(Int32))]
  {
    ReadableAll(PersonProperties);
    ColumnsAt(PersonProperties);
    var cols := Columns(PersonProperties);
    assert |cols| == 5;
    assert cols[0] == Column("Id", Integral(Int64));
    assert cols[1] == Column("Name", String);
    assert cols[2] == Column("Age", Integral(Int32));
    assert cols[3] == Column("CreateTime", DateTime);
    assert cols[4] == Column("Sex", Integral(Int32));
  }

  /** Every person projects to its id, name, age, timestamp or null, and the
      gender's integral value. */
  lemma PersonRow(p: Person)
    requires WellTyped(PersonProperties, p)
    ensures |ToRowData(PersonProperties, p)| == 5
    ensures ToRowData(PersonProperties, p)[0] == Int(Int64, p.id)
    ensures ToRowData(PersonProperties, p)[1] == NameValue(p.name)
    ensures ToRowData(PersonProperties, p)[2] == Int(Int32, p.age)
    ensures ToRowData(PersonProperties, p)[3] == CreateTimeValue(p.createTime)
    ensures ToRowData(PersonProperties, p)[4] == Int(Int32, p.sex)
  {
    ReadableAll(PersonProperties);
    ToRowDataAt(PersonProperties, p);
  }

  /** Every sequence of people is well typed. */
  lemma PeopleWellTyped(people: seq<Person>)
    ensures forall j :: 0 <= j < |people| ==> WellTyped(PersonProperties, people[j])
  {
    forall j | 0 <= j < |people|
      ensures WellTyped(PersonProperties, people[j])
    {
      PersonWellTyped(people[j]);
    }
  }

  /** A text without supplementary-plane characters, as UTF-16 code units:
      one unit per character. */
  function Bmp(s: string): (units: seq<CodeUnit>)
    requires forall i :: 0 <= i < |s| ==> s[i] as int < 0x1_0000
    ensures |units| == |s|
    ensures forall i :: 0 <= i < |s| ==> units[i] == s[i] as int
  {
    seq(|s|, i requires 0 <= i < |s| => s[i] as int)
  }

  /** A hand-made three-record fixture; `t0` is the one timestamp. */
  function Sample(t0: int): (people: seq<Person>)
    ensures |people| == 3
    ensures people[0].id == 1 && people[1].id == 2 && people[2].id == 3
    ensures forall j :: 0 <= j < |people| ==> WellTyped(PersonProperties, people[j])
  {
    var people := [Person(1, Some(Bmp("A")), 30, None, Man), Person(2, Some(Bmp("B")), 40, Some(t0), Woman),
                   Person(3, Some(Bmp("C")), 50, None, Man)];
    PeopleWellTyped(people);
    people
  }

  /** Three people loaded through the reader: three rows are read, the depth
      ends at 3, and the last row is the third person's. */
  lemma ThreePeople(t0: int)
    ensures Open(PersonProperties, Some(Sample(t0))).Ok?
    ensures ReadToEnd(Open(PersonProperties, Some(Sample(t0))).value).1 == 3
    ensures ReadToEnd(Open(PersonProperties, Some(Sample(t0))).value).0.depth == 3
    ensures var last := ReadToEnd(Open(PersonProperties, Some(Sample(t0))).value).0.current;
      && |last| == 5
      && last[0] == Int(Int64, 3) && last[1] == Str(Bmp("C")) && last[2] == Int(Int32, 50)
      && last[3] == Null && last[4] == Int(Int32, 0)
  {
    var people := Sample(t0);
    DrainCountsRows(PersonProperties, people);
    PersonRow(people[2]);
  }
}
