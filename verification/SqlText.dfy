/**
 The text `SqlUtil` produces, as functions of the record: assignments, the WHERE condition, the
 work-buffer size and the three statements, with every place that can cut text short.
 */
module SqlText {
  import opened CText
  import opened Escape
  import opened Fields

  const DEFAULT_NUM_LEN := 20
  const BUFFER_SLACK := 128
  const FIXED_BUFFER := 1024

  /** The modulus of `unsigned long` on the platform: 2^32 or 2^64. */
  type LongModulus = m: int | m == TWO_32 || m == TWO_64 witness TWO_64

  datatype Record = Record(table: string, fields: seq<Field>, keyIdx: int, autoIncIdx: int)
  {
    /** The auto-increment index when there is one, the key index otherwise. */
    function KeyIndex(): int {
      if autoIncIdx < 0 then keyIdx else autoIncIdx
    }

    /**
     The guard of `BuildCondition` and `BuildOperation`.  The index is a sint32 and the field
     number a uint32, so the second comparison converts the negative index to a large uint32.
     */
    predicate KeyRejected() {
      KeyIndex() < 0 && KeyIndex() % TWO_32 >= |fields|
    }

    function KeyField(): Field
      requires 0 <= KeyIndex() < |fields|
    {
      fields[KeyIndex()]
    }

    predicate WellFormed() {
      && '`' !in table && NUL !in table
      && |fields| < TWO_31
      && -TWO_31 <= keyIdx < |fields| && -TWO_31 <= autoIncIdx < |fields|
      && (0 <= KeyIndex() ==> Supported(KeyField()))
      && forall f :: f in fields && f.changed ==> Supported(f)
    }
  }

  /** A record is refused exactly when it has neither an auto-increment nor a key column. */
  lemma KeyRejectedExact(r: Record)
    requires r.WellFormed()
    ensures r.KeyRejected() <==> r.autoIncIdx < 0 && r.keyIdx < 0
    ensures !r.KeyRejected() ==> 0 <= r.KeyIndex() < |r.fields|
  {
    if r.KeyIndex() < 0 {
      assert r.KeyIndex() % TWO_32 == r.KeyIndex() + TWO_32;
    }
  }

  /** The auto-increment column is the key wherever there is one, whatever the key index says. */
  lemma KeyChoice(r: Record)
    requires r.WellFormed()
    ensures 0 <= r.autoIncIdx ==> 0 <= r.KeyIndex() && r.KeyField() == r.fields[r.autoIncIdx]
    ensures r.autoIncIdx < 0 <= r.keyIdx ==> 0 <= r.KeyIndex() && r.KeyField() == r.fields[r.keyIdx]
    ensures r.autoIncIdx < 0 && r.keyIdx < 0 ==> r.KeyRejected()
  {
    KeyRejectedExact(r);
  }

  /** The smallest record with no key: the name alone. */
  lemma EmptyRecordWellFormed(table: string)
    requires '`' !in table && NUL !in table
    ensures Record(table, [], -1, -1).WellFormed()
  {
  }

  /**
   A well-formed record stays one, whatever its size below 2^31, when it gains an unchanged or
   supported column and when an index is pointed at a supported column or at none.
   */
  lemma WellFormedGrows(r: Record, f: Field, i: int)
    requires r.WellFormed()
    ensures |r.fields| + 1 < TWO_31 && (f.changed ==> Supported(f)) ==>
              r.(fields := r.fields + [f]).WellFormed()
    ensures 0 <= i < |r.fields| && Supported(r.fields[i]) ==>
              r.(autoIncIdx := i).WellFormed() && r.(keyIdx := i).WellFormed()
    ensures -TWO_31 <= i < 0 ==> r.(keyIdx := i).WellFormed()
    ensures -TWO_31 <= i < 0 && r.keyIdx < 0 ==> r.(autoIncIdx := i).WellFormed()
  {
    if |r.fields| + 1 < TWO_31 && (f.changed ==> Supported(f)) {
      var grown := r.(fields := r.fields + [f]);
      assert 0 <= r.KeyIndex() ==> grown.KeyField() == r.KeyField();
      assert grown.WellFormed();
    }
  }

  // ---------- assignments ----------

  function LiteralText(f: Field, lm: LongModulus): string
  {
    match f.value
    case IntVal(i) => Dec(PrintedInt(f.typ, f.unsigned, lm, GetInt(i)))
    case StrVal(s) => "'" + EscapeText(s) + "'"
  }

  function AssignText(f: Field, lm: LongModulus): string {
    "`" + f.name + "`=" + LiteralText(f, lm)
  }

  /** The length of an assignment, in terms a caller knows: name, digits or bytes, bytes to escape. */
  function AssignLength(f: Field): nat {
    |f.name| + 3
    + match f.value
      case IntVal(i) => |Dec(i)|
      case StrVal(s) => |s| + SpecialCount(s) + 2
  }

  /**
   When `BuildFormatSql` stays inside its arrays: a string needs room for the terminator of its
   staging array, a blob is escaped straight into the work buffer with no bound.
   */
  predicate FormatSafe(f: Field, size: nat) {
    match f.value
    case IntVal(_) => true
    case StrVal(s) =>
      if CaseOf(f.typ).BlobCase? then AssignLength(f) < size
      else s == "" || SpecialCount(s) < |s|
  }

  /** A string stays inside its staging array, and a blob inside the work buffer, exactly when text and NUL fit. */
  lemma FormatSafeExact(f: Field, size: nat)
    requires Supported(f)
    ensures CaseOf(f.typ).TextCase? ==>
              (FormatSafe(f, size) <==> f.value.s == "" || |EscapeText(f.value.s)| + 1 <= 2 * |f.value.s|)
    ensures CaseOf(f.typ).BlobCase? ==>
              (FormatSafe(f, size) <==> |f.name| + 4 + |EscapeText(f.value.s)| + 2 <= size)
    ensures CaseOf(f.typ).IntegerCase? ==> FormatSafe(f, size)
  {
    if f.value.StrVal? {
      EscapeTextFacts(f.value.s);
    }
  }

  lemma AssignTextFacts(f: Field, lm: LongModulus)
    requires Supported(f)
    ensures NUL !in AssignText(f, lm) && AssignText(f, lm) != ""
    ensures |AssignText(f, lm)| == AssignLength(f)
    ensures f.value.IntVal? ==> AssignLength(f) <= |f.name| + 3 + 20
  {
    match f.value {
      case IntVal(i) =>
        IntegerFidelity(f.typ, f.unsigned, lm, i, "");
        DecRoundTrip(i, "");
        DecLength64(i);
      case StrVal(s) =>
        EscapeTextFacts(s);
    }
  }

  // ---------- the work buffer ----------

  function ChangedFields(fs: seq<Field>): seq<Field> {
    if fs == [] then []
    else
      var rest := ChangedFields(fs[..|fs| - 1]);
      var f := fs[|fs| - 1];
      if f.changed then rest + [f] else rest
  }

  lemma {:induction false} ChangedFieldsMembers(fs: seq<Field>)
    ensures forall f :: f in ChangedFields(fs) <==> f in fs && f.changed
    ensures ChangedFields(fs) == [] <==> forall f :: f in fs ==> !f.changed
  {
    if fs != [] {
      ChangedFieldsMembers(fs[..|fs| - 1]);
      assert fs == fs[..|fs| - 1] + [fs[|fs| - 1]];
    }
  }

  /** Kept fields stay in index order, each as often as it is there. */
  lemma {:induction false} ChangedFieldsInOrder(before: seq<Field>, after: seq<Field>)
    ensures ChangedFields(before + after) == ChangedFields(before) + ChangedFields(after)
  {
    if after == [] {
      assert before + after == before;
    } else {
      var init := after[..|after| - 1];
      ChangedFieldsInOrder(before, init);
      assert (before + after)[..|before + after| - 1] == before + init;
      assert after[|after| - 1] == (before + after)[|before + after| - 1];
    }
  }

  lemma ChangedFieldsOne(f: Field)
    ensures ChangedFields([f]) == if f.changed then [f] else []
  {
    assert [f][..0] == [];
  }

  lemma ChangedFieldsSupported(r: Record)
    requires r.WellFormed()
    ensures forall f :: f in ChangedFields(r.fields) ==> Supported(f)
  {
    ChangedFieldsMembers(r.fields);
  }

  /** One round of the sizing loop: a uint32 length against a sint32 running maximum. */
  function SizeStep(max: int, f: Field): int {
    if IsFieldNum(f.typ) && max == 0 then DEFAULT_NUM_LEN
    else if f.len > max % TWO_32 then ToSigned(f.len * 2, TWO_32)
    else max
  }

  function Sizing(changed: seq<Field>): int {
    if changed == [] then 0
    else SizeStep(Sizing(changed[..|changed| - 1]), changed[|changed| - 1])
  }

  // ---------- the assignment list ----------

  function Join(texts: seq<string>): string {
    if texts == [] then ""
    else if |texts| == 1 then texts[0]
    else texts[0] + "," + Join(texts[1..])
  }

  function Texts(fs: seq<Field>, lm: LongModulus): (texts: seq<string>)
    ensures |texts| == |fs|
  {
    if fs == [] then [] else [AssignText(fs[0], lm)] + Texts(fs[1..], lm)
  }

  function CutTexts(fs: seq<Field>, lm: LongModulus, size: nat): (texts: seq<string>)
    requires size > 0
    ensures |texts| == |fs|
  {
    if fs == [] then [] else [Truncate(AssignText(fs[0], lm), size)] + CutTexts(fs[1..], lm, size)
  }

  /**
   What `BuildOperation` needs not to leave defined behaviour: a work buffer that can be
   allocated, and no write past it.
   */
  predicate Workable(fs: seq<Field>) {
    fs == []
    || (&& 0 < Sizing(fs) + BUFFER_SLACK < TWO_31
        && forall f :: f in fs ==> FormatSafe(f, Sizing(fs) + BUFFER_SLACK))
  }

  /** Every assignment is shorter than the work buffer: see `OperationWholeExact`. */
  predicate Whole(fs: seq<Field>) {
    forall f :: f in fs ==> AssignLength(f) < Sizing(fs) + BUFFER_SLACK
  }

  /** The text `BuildOperation` leaves for the changed fields `fs`. */
  function OperationText(fs: seq<Field>, lm: LongModulus): string
    requires Workable(fs)
  {
    if fs == [] then "" else Join(CutTexts(fs, lm, Sizing(fs) + BUFFER_SLACK))
  }

  lemma {:induction false} JoinNulFree(texts: seq<string>)
    requires forall t :: t in texts ==> NUL !in t
    ensures NUL !in Join(texts)
  {
    if |texts| > 1 {
      JoinNulFree(texts[1..]);
    }
  }

  lemma {:induction false} CutNulFree(fs: seq<Field>, lm: LongModulus, size: nat)
    requires size > 0 && forall f :: f in fs ==> Supported(f)
    ensures forall t :: t in CutTexts(fs, lm, size) ==> NUL !in t
  {
    if fs != [] {
      AssignTextFacts(fs[0], lm);
      CutNulFree(fs[1..], lm, size);
    }
  }

  /** The text is empty exactly when nothing changed, and is always a C string. */
  lemma OperationEmptyExact(fs: seq<Field>, lm: LongModulus)
    requires (forall f :: f in fs ==> Supported(f)) && Workable(fs)
    ensures OperationText(fs, lm) == "" <==> fs == []
    ensures NUL !in OperationText(fs, lm)
  {
    if fs != [] {
      var size := Sizing(fs) + BUFFER_SLACK;
      var cut := CutTexts(fs, lm, size);
      CutNulFree(fs, lm, size);
      JoinNulFree(cut);
      if |fs| == 1 {
        AssignTextFacts(fs[0], lm);
        SizingNotMinusOne(fs);
      }
    }
  }

  /** The running maximum is never -127, so a one-byte work buffer, which holds no text, cannot arise. */
  lemma SizingNotMinusOne(fs: seq<Field>)
    requires fs != []
    ensures Sizing(fs) + BUFFER_SLACK != 1
  {
    SizingEven(fs);
  }

  lemma {:induction false} SizingEven(fs: seq<Field>)
    ensures Sizing(fs) % 2 == 0
  {
    if fs != [] {
      SizingEven(fs[..|fs| - 1]);
      StepEven(Sizing(fs[..|fs| - 1]), fs[|fs| - 1]);
    }
  }

  lemma StepEven(max: int, f: Field)
    requires max % 2 == 0
    ensures SizeStep(max, f) % 2 == 0
  {
  }

  // ---------- the condition and the statements ----------

  function ConditionText(f: Field): string {
    "`" + f.name + "`="
    + match f.value
      case IntVal(i) => Dec(GetInt(i))
      case StrVal(s) => "'" + CStr(s) + "'"
  }

  /** A string key stands in the condition byte for byte between two quotes, whatever the bytes. */
  lemma ConditionVerbatim(f: Field)
    requires f.value.StrVal?
    ensures |ConditionText(f)| == |f.name| + 5 + |CStr(f.value.s)|
    ensures ConditionText(f)[..|f.name| + 4] == "`" + f.name + "`='"
    ensures ConditionText(f)[|f.name| + 4..|ConditionText(f)| - 1] == CStr(f.value.s)
    ensures ConditionText(f)[|ConditionText(f)| - 1] == '\''
  {
    assert ConditionText(f) == "`" + f.name + "`='" + CStr(f.value.s) + "'";
  }

  function WhereText(cond: string): string {
    " where " + (cond + " limit 1")
  }

  function UpdateText(table: string, op: string, cond: string): string {
    "update `" + (table + "`" + (" set " + (op + WhereText(cond))))
  }

  function DeleteText(table: string, cond: string): string {
    "delete from `" + (table + "`" + WhereText(cond))
  }

  function InsertText(table: string, op: string): string {
    "insert into `" + (table + "`" + (" set " + op))
  }

  function Condition(r: Record): string
    requires r.WellFormed() && !r.KeyRejected() && 0 <= r.KeyIndex()
  {
    Truncate(ConditionText(r.KeyField()), FIXED_BUFFER - 1)
  }

  ghost predicate Buildable(r: Record) {
    r.WellFormed() && Workable(ChangedFields(r.fields))
  }
}
