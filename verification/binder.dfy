/** The type-dispatch binder: the mapper has no static knowledge of field types, so it names a
    JDBC accessor by gluing "get"/"set" onto the capitalized simple name of the field's declared
    type and looks that method up at run time. The JDBC accessors form a closed set here. */
module Binder {
  import opened Wrappers
  import opened StringUtils

  /** A value as it travels between a Java field, a statement parameter and a result-set cell.
      Integral Java types travel as `IntV`, `float`/`double` as `RealV`; `Null` is Java's `null`
      and SQL's NULL. No arithmetic is ever done on these values. */
  datatype Value = Null | IntV(i: int) | RealV(r: real) | BoolV(b: bool) | TextV(s: string)

  /** The scalar accessor families of `ResultSet` (getX) and `PreparedStatement` (setX). */
  datatype ColumnType = BooleanCol | ByteCol | ShortCol | IntCol | LongCol | FloatCol | DoubleCol | StringCol

  /** The accessor name without its "get"/"set" prefix: `getInt`/`setInt` for `IntCol`. */
  function Suffix(c: ColumnType): string {
    match c
    case BooleanCol => "Boolean"
    case ByteCol => "Byte"
    case ShortCol => "Short"
    case IntCol => "Int"
    case LongCol => "Long"
    case FloatCol => "Float"
    case DoubleCol => "Double"
    case StringCol => "String"
  }

  /** Simple name of the Java type of the setter's value parameter: `setInt(int, int)`,
      `setString(int, String)`. */
  function ParamTypeName(c: ColumnType): string {
    match c
    case BooleanCol => "boolean"
    case ByteCol => "byte"
    case ShortCol => "short"
    case IntCol => "int"
    case LongCol => "long"
    case FloatCol => "float"
    case DoubleCol => "double"
    case StringCol => "String"
  }

  /** The accessor family whose suffix is `s`, if any. */
  function ColumnTypeOfSuffix(s: string): (r: Option<ColumnType>)
    ensures r.Some? ==> Suffix(r.value) == s
    ensures r.None? ==> forall c: ColumnType :: Suffix(c) != s
  {
    if s == "Boolean" then Some(BooleanCol)
    else if s == "Byte" then Some(ByteCol)
    else if s == "Short" then Some(ShortCol)
    else if s == "Int" then Some(IntCol)
    else if s == "Long" then Some(LongCol)
    else if s == "Float" then Some(FloatCol)
    else if s == "Double" then Some(DoubleCol)
    else if s == "String" then Some(StringCol)
    else None
  }

  /** `getMethod(methodName, ...)` over the accessors whose names start with `prefix`:
      found exactly when the name is the prefix followed by a family's suffix. */
  function FindAccessor(prefix: string, methodName: string): (r: Option<ColumnType>)
    ensures r.Some? ==> methodName == prefix + Suffix(r.value)
    ensures r.None? ==> forall c: ColumnType :: methodName != prefix + Suffix(c)
  {
    if |prefix| <= |methodName| && methodName[..|prefix|] == prefix then
      var r := ColumnTypeOfSuffix(methodName[|prefix|..]);
      assert methodName == prefix + methodName[|prefix|..];
      assert r.None? ==> forall c: ColumnType :: methodName != prefix + Suffix(c) by {
        forall c: ColumnType
          ensures r.None? ==> methodName != prefix + Suffix(c)
        {
          if methodName == prefix + Suffix(c) {
            assert methodName[|prefix|..] == Suffix(c);
          }
        }
      }
      r
    else
      assert forall c: ColumnType :: (prefix + Suffix(c))[..|prefix|] == prefix;
      None
  }

  /** The getter `getValueFromDatabase` reaches for a field of declared type `typeName`:
      "get" + capitalize(simple name). An empty name makes `capitalize` throw, which the caller
      catches like a missing method. */
  function GetterFor(typeName: string): (r: Option<ColumnType>)
    ensures r.Some? <==> typeName != "" && exists c: ColumnType :: Capitalize(typeName) == Suffix(c)
    ensures r.Some? ==> Capitalize(typeName) == Suffix(r.value)
  {
    if typeName == "" then None else FindAccessor("get", "get" + Capitalize(typeName))
  }

  /** The setter `fillStatement`/`assignUpdateDatas` reach for: "set" + capitalize(simple name),
      looked up with parameter types (int, declared type), so the value parameter must be the
      declared type itself: `setLong(int, long)` is not found for a field of type `Long`. */
  function SetterFor(typeName: string): (r: Option<ColumnType>)
    ensures r.Some? <==> exists c: ColumnType :: typeName == ParamTypeName(c)
    ensures r.Some? ==> typeName == ParamTypeName(r.value)
  {
    if typeName == "" then None
    else
      var found := FindAccessor("set", "set" + Capitalize(typeName));
      if found.Some? && ParamTypeName(found.value) == typeName then found
      else
        SetterNotFound(typeName, found);
        None
  }

  /** When `getMethod` finds no setter taking the declared type, no family's parameter type is
      that type. */
  lemma SetterNotFound(typeName: string, found: Option<ColumnType>)
    requires typeName != "" && found == FindAccessor("set", "set" + Capitalize(typeName))
    requires !(found.Some? && ParamTypeName(found.value) == typeName)
    ensures forall c: ColumnType :: typeName != ParamTypeName(c)
  {
    forall c: ColumnType
      ensures typeName != ParamTypeName(c)
    {
      SetterFoundFor(c);
    }
  }

  /** The setter of each family is found from its parameter type's name. */
  lemma SetterFoundFor(c: ColumnType)
    ensures FindAccessor("set", "set" + Capitalize(ParamTypeName(c))) == Some(c)
  {
    ParamTypeNameCapitalized(c);
    var found := FindAccessor("set", "set" + Suffix(c));
    assert found.Some?;
    var f := found.value;
    assert ("set" + Suffix(f))[3..] == Suffix(f) && ("set" + Suffix(c))[3..] == Suffix(c);
    SuffixInjective(f, c);
  }

  lemma SuffixInjective(a: ColumnType, b: ColumnType)
    requires Suffix(a) == Suffix(b)
    ensures a == b
  {
  }

  /** The declared types a setter is found for, listed: the setters' parameter type names. */
  predicate HasSetter(typeName: string) {
    typeName in {"boolean", "byte", "short", "int", "long", "float", "double", "String"}
  }

  lemma SetterForHasSetter(typeName: string)
    ensures SetterFor(typeName).Some? <==> HasSetter(typeName)
  {
    if HasSetter(typeName) {
      var c :=
        if typeName == "boolean" then BooleanCol else if typeName == "byte" then ByteCol
        else if typeName == "short" then ShortCol else if typeName == "int" then IntCol
        else if typeName == "long" then LongCol else if typeName == "float" then FloatCol
        else if typeName == "double" then DoubleCol else StringCol;
      assert typeName == ParamTypeName(c);
    }
  }

  /** Capitalizing the setter's parameter type name gives the accessor suffix. */
  lemma ParamTypeNameCapitalized(c: ColumnType)
    ensures |ParamTypeName(c)| > 0 && Capitalize(ParamTypeName(c)) == Suffix(c)
  {
    match c
    case StringCol => CapitalizeKeepsCapitalized("String");
    case _ =>
  }

  /** A field type the statement can be bound from can also be read back from a row, through
      the accessor of the same family. */
  lemma SetterImpliesGetter(typeName: string)
    requires SetterFor(typeName).Some?
    ensures GetterFor(typeName) == SetterFor(typeName)
  {
    ParamTypeNameCapitalized(SetterFor(typeName).value);
  }

  /** The dispatch of the mapper's own field types: `int` and `float` reach `getInt`/`getFloat`,
      `String` reaches `getString`, and the wrapper `Integer` finds no `getInteger`. */
  lemma DispatchExamples()
    ensures GetterFor("int") == Some(IntCol) && SetterFor("int") == Some(IntCol)
    ensures GetterFor("float") == Some(FloatCol) && SetterFor("float") == Some(FloatCol)
    ensures GetterFor("String") == Some(StringCol) && SetterFor("String") == Some(StringCol)
    ensures GetterFor("Integer") == None && SetterFor("Integer") == None
    ensures GetterFor("Long") == Some(LongCol) && SetterFor("Long") == None
  {
    DispatchInt();
    DispatchFloat();
    DispatchString();
    DispatchInteger();
    DispatchLong();
  }

  lemma DispatchInt()
    ensures GetterFor("int") == Some(IntCol) && SetterFor("int") == Some(IntCol)
  {
    CapitalizeTypeNames();
  }

  lemma DispatchFloat()
    ensures GetterFor("float") == Some(FloatCol) && SetterFor("float") == Some(FloatCol)
  {
    CapitalizeTypeNames();
  }

  lemma DispatchString()
    ensures GetterFor("String") == Some(StringCol) && SetterFor("String") == Some(StringCol)
  {
    CapitalizeTypeNames();
  }

  lemma DispatchInteger()
    ensures GetterFor("Integer") == None && SetterFor("Integer") == None
  {
    CapitalizeKeepsCapitalized("Integer");
  }

  lemma DispatchLong()
    ensures GetterFor("Long") == Some(LongCol) && SetterFor("Long") == None
  {
    CapitalizeKeepsCapitalized("Long");
  }

  /** Whether the Java type is primitive (cannot hold `null`). */
  predicate IsPrimitive(typeName: string) {
    typeName in {"boolean", "byte", "short", "int", "long", "float", "double", "char"}
  }

  /** The non-null values an accessor family reads and writes. */
  predicate Carries(c: ColumnType, v: Value) {
    match c
    case BooleanCol => v.BoolV?
    case ByteCol | ShortCol | IntCol | LongCol => v.IntV?
    case FloatCol | DoubleCol => v.RealV?
    case StringCol => v.TextV?
  }

  /** What a getter returns for SQL NULL: zero or false for the primitive getters, `null` for
      `getString`. */
  function NullReading(c: ColumnType): (v: Value)
    ensures v == Null <==> c == StringCol
    ensures v != Null ==> Carries(c, v)
  {
    match c
    case BooleanCol => BoolV(false)
    case ByteCol | ShortCol | IntCol | LongCol => IntV(0)
    case FloatCol | DoubleCol => RealV(0.0)
    case StringCol => Null
  }

  /** A getter applied to a cell. A cell of another family makes the getter throw, which the
      mapper catches and turns into `null`. */
  function ReadCell(c: ColumnType, cell: Value): Value {
    if cell == Null then NullReading(c)
    else if Carries(c, cell) then cell
    else Null
  }

  /** `getValueFromDatabase`: the value read for a field of declared type `typeName`; an unknown
      type yields `null`. */
  function ReadColumn(cell: Value, typeName: string): (v: Value)
    ensures GetterFor(typeName).None? ==> v == Null
    ensures GetterFor(typeName).Some? ==>
      var c := GetterFor(typeName).value;
      && (cell == Null ==> v == NullReading(c))
      && (Carries(c, cell) ==> v == cell)
      && (cell != Null && !Carries(c, cell) ==> v == Null)
      && (v == Null || Carries(c, v))
  {
    match GetterFor(typeName)
    case None => Null
    case Some(c) => ReadCell(c, cell)
  }

  /** `setValueFromDb`: `Field.set` refuses `null` for a primitive field (the exception is
      caught), so the field keeps its value; otherwise the value is stored. */
  function AssignField(current: Value, v: Value, typeName: string): (r: Value)
    ensures v != Null ==> r == v
    ensures v == Null && IsPrimitive(typeName) ==> r == current
    ensures v == Null && !IsPrimitive(typeName) ==> r == Null
  {
    if v == Null && IsPrimitive(typeName) then current else v
  }

  /** A value a Java field of this declared type can hold, as far as the accessor families know:
      a primitive holds a non-null value of its family, `String` holds text or `null`. */
  predicate FitsType(typeName: string, v: Value) {
    match GetterFor(typeName)
    case None => true
    case Some(c) => Carries(c, v) || (v == Null && !IsPrimitive(typeName))
  }

  /** The value a freshly constructed object holds in a field: 0/false for primitives, `null`
      otherwise. */
  function DefaultValue(typeName: string): (v: Value)
    ensures !IsPrimitive(typeName) ==> v == Null
  {
    if typeName in {"boolean"} then BoolV(false)
    else if typeName in {"byte", "short", "int", "long", "char"} then IntV(0)
    else if typeName in {"float", "double"} then RealV(0.0)
    else Null
  }

  /** Writing a field's value through its setter and reading the stored cell back through its
      getter gives the same value back, and assigning it to a field stores it. */
  lemma WriteThenRead(typeName: string, v: Value, current: Value)
    requires SetterFor(typeName).Some?
    requires FitsType(typeName, v)
    ensures ReadColumn(v, typeName) == v
    ensures AssignField(current, ReadColumn(v, typeName), typeName) == v
  {
    SetterImpliesGetter(typeName);
    var c := SetterFor(typeName).value;
    if v == Null {
      assert !IsPrimitive(typeName);
      assert c == StringCol;
    }
  }
}
