/**
 Columns, the field classes `FieldFactory::CreateField` picks for them, and the integer
 conversions between a stored value and the number `BuildFormatSql` prints.
 */
module Fields {
  import opened CText

  /** `enum_field_types`; the types the component never names are folded into `OtherType`. */
  datatype ColumnType =
    | Tiny | Short | Long | LongLong | Int24 | Year | Timestamp
    | Float | Double | NewDecimal
    | VarString | String | Date | DateTime
    | TinyBlob | MediumBlob | LongBlob | Blob
    | OtherType(code: nat)

  datatype FieldClass =
    | TinyIntField | SmallIntField | IntField | Int64Field
    | UTinyIntField | USmallIntField | UIntField | UInt64Field
    | DoubleField | StringField | BlobField
  {
    predicate IsInteger() {
      TinyIntField? || SmallIntField? || IntField? || Int64Field?
      || UTinyIntField? || USmallIntField? || UIntField? || UInt64Field?
    }

    predicate IsText() {
      StringField? || BlobField?
    }

    /** The values the class's C++ member can hold. */
    predicate Holds(v: int) {
      match this
      case TinyIntField => -0x80 <= v < 0x80
      case SmallIntField => -0x8000 <= v < 0x8000
      case IntField => -TWO_31 <= v < TWO_31
      case Int64Field => -TWO_63 <= v < TWO_63
      case UTinyIntField => 0 <= v < 0x100
      case USmallIntField => 0 <= v < 0x1_0000
      case UIntField => 0 <= v < TWO_32
      case UInt64Field => 0 <= v < TWO_64
      case _ => false
    }
  }

  /** `IS_FIELD_NUM` */
  predicate IsFieldNum(t: ColumnType) {
    t.Tiny? || t.Year? || t.Short? || t.Int24? || t.Long? || t.LongLong? || t.Float? || t.Double?
  }

  /** The groups of cases in `BuildFormatSql`. */
  datatype FormatCase = IntegerCase | RealCase | TextCase | BlobCase | NoCase

  function CaseOf(t: ColumnType): FormatCase {
    match t
    case Tiny | Short | Long | LongLong => IntegerCase
    case Float | Double => RealCase
    case String | VarString | Date | DateTime => TextCase
    case TinyBlob | Blob | MediumBlob | LongBlob => BlobCase
    case _ => NoCase
  }

  /** The class a column gets; `None` is the factory's null pointer. */
  function ClassOf(t: ColumnType, unsigned: bool): Option<FieldClass> {
    match t
    case Tiny => Some(if unsigned then UTinyIntField else TinyIntField)
    case Short => Some(if unsigned then USmallIntField else SmallIntField)
    case Long => Some(if unsigned then UIntField else IntField)
    case LongLong | Timestamp => Some(if unsigned then UInt64Field else Int64Field)
    case Float | Double | NewDecimal => Some(DoubleField)
    case String | VarString | Date | DateTime => Some(StringField)
    case TinyBlob | Blob | MediumBlob | LongBlob => Some(BlobField)
    case _ => None
  }

  function Pow256(bytes: nat): int {
    if bytes == 0 then 1 else 256 * Pow256(bytes - 1)
  }

  /** The class holds an integer if and only if it fits so many bytes: -2^(8b-1) to 2^(8b-1), or 0 to 2^8b. */
  ghost predicate ExactlyBytes(c: FieldClass, bytes: nat, unsigned: bool) {
    forall v: int :: c.Holds(v) <==>
      if unsigned then 0 <= v < Pow256(bytes) else -Pow256(bytes) <= 2 * v < Pow256(bytes)
  }

  lemma ByteRanges()
    ensures Pow256(1) == 0x100 && Pow256(2) == 0x1_0000 && Pow256(4) == TWO_32 && Pow256(8) == TWO_64
  {
    assert Pow256(4) == TWO_32;
  }

  /** `FieldFactory::CreateField`: two signed/unsigned switches, then one for the rest. */
  method CreateField(t: ColumnType, unsigned: bool) returns (p: Option<FieldClass>)
    ensures p == ClassOf(t, unsigned)
    // an integer column gets the class whose values are exactly those of its width and sign
    ensures t.Tiny? ==> p.Some? && ExactlyBytes(p.value, 1, unsigned)
    ensures t.Short? ==> p.Some? && ExactlyBytes(p.value, 2, unsigned)
    ensures t.Long? ==> p.Some? && ExactlyBytes(p.value, 4, unsigned)
    ensures t.LongLong? || t.Timestamp? ==> p.Some? && ExactlyBytes(p.value, 8, unsigned)
    // the class decides which getter is legal, the column type decides which getter the printer
    // calls: they agree on every type that has both a class and a case
    ensures CaseOf(t).IntegerCase? ==> p.Some? && p.value.IsInteger()
    ensures CaseOf(t).RealCase? || t.NewDecimal? <==> p == Some(DoubleField)
    ensures CaseOf(t).TextCase? <==> p == Some(StringField)
    ensures CaseOf(t).BlobCase? <==> p == Some(BlobField)
    ensures p.Some? && CaseOf(t).NoCase? <==> t.Timestamp? || t.NewDecimal?
  {
    p := None;
    ByteRanges();
    if !unsigned {
      match t {
        case Tiny => p := Some(TinyIntField);
        case Short => p := Some(SmallIntField);
        case Long => p := Some(IntField);
        case LongLong | Timestamp => p := Some(Int64Field);
        case _ =>
      }
    } else {
      match t {
        case Tiny => p := Some(UTinyIntField);
        case Short => p := Some(USmallIntField);
        case Long => p := Some(UIntField);
        case LongLong | Timestamp => p := Some(UInt64Field);
        case _ =>
      }
    }
    if p == None {
      match t {
        case Float | Double | NewDecimal => p := Some(DoubleField);
        case String | VarString | Date | DateTime => return Some(StringField);
        case TinyBlob | Blob | MediumBlob | LongBlob => p := Some(BlobField);
        case _ =>
      }
    }
  }

  /**
   A type counts as numeric for the sizing exactly when the factory stores it as a number and it is
   neither a timestamp nor an exact decimal, or when the factory knows it only by name.
   */
  lemma NumericTypes(t: ColumnType, unsigned: bool)
    ensures IsFieldNum(t) <==>
              || t.Int24? || t.Year?
              || (&& ClassOf(t, unsigned).Some? && !ClassOf(t, unsigned).value.IsText()
                  && !t.Timestamp? && !t.NewDecimal?)
  {
  }

  // ---------- values ----------

  datatype Value = IntVal(i: int) | StrVal(s: string)

  /** A column of a record: its `DBFieldInfo`, the changed flag and the stored value. */
  datatype Field = Field(name: string, typ: ColumnType, unsigned: bool, len: nat, changed: bool, value: Value)

  /** A column the printer handles without floating point, holding a value its class can hold. */
  predicate Supported(f: Field) {
    && '`' !in f.name && NUL !in f.name
    && f.len < TWO_32
    && match CaseOf(f.typ)
       case IntegerCase => f.value.IntVal? && ClassOf(f.typ, f.unsigned).value.Holds(f.value.i)
       case TextCase => f.value.StrVal?
       case BlobCase => f.value.StrVal?
       case _ => false
  }

  /** Which columns are supported, type by type: any integer that fits the width and sign, any string. */
  lemma SupportedColumns(f: Field, bytes: nat)
    requires '`' !in f.name && NUL !in f.name && f.len < TWO_32
    requires match f.typ
             case Tiny => bytes == 1
             case Short => bytes == 2
             case Long => bytes == 4
             case LongLong => bytes == 8
             case _ => bytes == 0
    ensures bytes > 0 ==>
              (Supported(f) <==>
                 f.value.IntVal?
                 && if f.unsigned then 0 <= f.value.i < Pow256(bytes)
                    else -Pow256(bytes) <= 2 * f.value.i < Pow256(bytes))
    ensures f.typ in {String, VarString, Date, DateTime, TinyBlob, MediumBlob, LongBlob, Blob} ==>
              (Supported(f) <==> f.value.StrVal?)
    ensures f.typ in {Float, Double, NewDecimal, Timestamp, Int24, Year} || f.typ.OtherType? ==> !Supported(f)
  {
    ByteRanges();
  }

  /** `FieldTemplate<T>::GetInt`: the stored integer as a sint64. */
  function GetInt(v: int): int {
    ToSigned(v, TWO_64)
  }

  /**
   The number `BuildFormatSql` prints for a sint64 `v`, with `unsigned long` and `long` of
   modulus `longModulus`.
   */
  function PrintedInt(t: ColumnType, unsigned: bool, longModulus: int, v: int): int
    requires longModulus > 0
  {
    match t
    case LongLong => if unsigned then v % TWO_64 else v
    case Long => if unsigned then v % longModulus else ToSigned(v, longModulus)
    case _ => if unsigned then v % longModulus else ToSigned(v, TWO_32)
  }

  /**
   Whatever an integer column stores is what its assignment says, for 32-bit and 64-bit `long`:
   widening to sint64, the cast of the case and the decimal text lose nothing.
   */
  lemma IntegerFidelity(t: ColumnType, unsigned: bool, longModulus: int, v: int, rest: string)
    requires CaseOf(t).IntegerCase? && ClassOf(t, unsigned).value.Holds(v)
    requires longModulus == TWO_32 || longModulus == TWO_64
    requires rest == "" || !IsDigit(rest[0])
    ensures PrintedInt(t, unsigned, longModulus, GetInt(v)) == v
    ensures ScanInt(Dec(PrintedInt(t, unsigned, longModulus, GetInt(v))) + rest) == Some((v, rest))
  {
    if unsigned {
      UnsignedBack(v, if t.LongLong? then TWO_64 else longModulus);
    } else {
      SignedStays(v, TWO_64);
      SignedStays(v, if t.Long? then longModulus else if t.LongLong? then TWO_64 else TWO_32);
    }
    DecRoundTrip(v, rest);
  }

  /** Reading an unsigned value back out of its sint64 bit pattern. */
  lemma UnsignedBack(v: int, modulus: int)
    requires modulus == TWO_32 || modulus == TWO_64
    requires 0 <= v < modulus
    ensures GetInt(v) % modulus == v
  {
    if v < TWO_63 {
      SignedStays(v, TWO_64);
    } else {
      assert GetInt(v) == v - TWO_64;
    }
  }
}
