/**
 `SqlUtil`: the statement builders as they run, writing through character buffers.  A reference
 argument of the C++ is an old and a new content here.
 */
module SqlUtil {
  import opened CText
  import opened Escape
  import opened Fields
  import opened SqlText

  method Memset(buf: array<char>)
    modifies buf
    ensures forall i :: 0 <= i < buf.Length ==> buf[i] == NUL
  {
    for i := 0 to buf.Length
      invariant forall k :: 0 <= k < i ==> buf[k] == NUL
    {
      buf[i] := NUL;
    }
  }

  /** `BuildFormatSql`: one assignment, cut to the buffer except for blobs, which must fit. */
  method BuildFormatSql(f: Field, lm: LongModulus, format: array<char>)
    requires Supported(f) && format.Length > 0 && FormatSafe(f, format.Length)
    modifies format
    ensures CStr(format[..]) == Truncate(AssignText(f, lm), format.Length)
  {
    if CaseOf(f.typ).TextCase? {
      BuildStringSql(f, lm, format);
    } else if CaseOf(f.typ).BlobCase? {
      BuildBlobSql(f, lm, format);
    } else {
      BuildIntegerSql(f, lm, format);
    }
  }

  /** The integer cases, each a cast and a decimal conversion. */
  method BuildIntegerSql(f: Field, lm: LongModulus, format: array<char>)
    requires Supported(f) && CaseOf(f.typ).IntegerCase? && format.Length > 0
    modifies format
    ensures CStr(format[..]) == Truncate(AssignText(f, lm), format.Length)
  {
    AssignTextFacts(f, lm);
    var v := GetInt(f.value.i);
    var printed: int;
    match f.typ {
      case Tiny | Short => printed := if f.unsigned then v % lm else ToSigned(v, TWO_32);
      case Long => printed := if f.unsigned then v % lm else ToSigned(v, lm);
      case LongLong => printed := if f.unsigned then v % TWO_64 else v;
    }
    Snprintf(format, format.Length, "`" + f.name + "`=" + Dec(printed));
  }

  /** The string cases: escape into a staging array of twice the length, then print. */
  method BuildStringSql(f: Field, lm: LongModulus, format: array<char>)
    requires Supported(f) && CaseOf(f.typ).TextCase? && format.Length > 0 && FormatSafe(f, format.Length)
    modifies format
    ensures CStr(format[..]) == Truncate(AssignText(f, lm), format.Length)
  {
    AssignTextFacts(f, lm);
    if f.value.s == "" {
      assert AssignText(f, lm) == "`" + f.name + "`=''";
      Snprintf(format, format.Length, "`" + f.name + "`=''");
    } else {
      EscapeTextFacts(f.value.s);
      var staged := Stage(f.value.s);
      assert AssignText(f, lm) == "`" + f.name + "`='" + staged + "'";
      Snprintf(format, format.Length, "`" + f.name + "`='" + staged + "'");
    }
  }

  method Stage(value: string) returns (staged: string)
    requires |EscapeText(value)| + 1 <= |value| * 2
    ensures staged == EscapeText(value)
  {
    var staging := new char[|value| * 2](_ => NUL);
    var length := EscapeInto(staging, 0, value);
    EscapeTextFacts(value);
    assert staging[..0] == "" && staging[..0 + length] == staging[..][..length];
    CStrOfBuffer(staging[..], length);
    staged := CStr(staging[..]);
  }

  /** The blob cases: print the head, find its end, escape behind it, close the quote. */
  method BuildBlobSql(f: Field, lm: LongModulus, format: array<char>)
    requires Supported(f) && CaseOf(f.typ).BlobCase? && FormatSafe(f, format.Length)
    modifies format
    ensures CStr(format[..]) == Truncate(AssignText(f, lm), format.Length)
  {
    BlobText(f, lm);
    EscapeTextFacts(f.value.s);
    PrintBlob("`" + f.name + "`='", f.value.s, format);
  }

  lemma BlobText(f: Field, lm: LongModulus)
    requires Supported(f) && CaseOf(f.typ).BlobCase?
    ensures var head := "`" + f.name + "`='";
            && NUL !in head && |head| == |f.name| + 4
            && AssignText(f, lm) == head + EscapeText(f.value.s) + "'"
  {
  }

  method PrintBlob(head: string, value: string, format: array<char>)
    requires NUL !in head && |head| + |EscapeText(value)| + 2 <= format.Length
    modifies format
    ensures CStr(format[..]) == head + EscapeText(value) + "'"
  {
    Snprintf(format, format.Length, head);
    var end := |CStr(format[..])|;
    assert format[..end] == head;
    var length := EscapeInto(format, end, value);
    end := end + length;
    ghost var text := head + EscapeText(value);
    assert format[..end] == text;
    format[end], end := '\'', end + 1;
    assert format[..end] == text + "'";
    format[end] := NUL;
    assert format[..end] == text + "'";
    EscapeTextFacts(value);
    assert format[..][..end] == text + "'";
    CStrOfBuffer(format[..], end);
  }

  /** `BuildOperation`: refused without a key; otherwise the assignments of the changed fields. */
  method BuildOperation(r: Record, lm: LongModulus, op0: string) returns (ok: bool, op: string)
    requires Buildable(r)
    ensures ok <==> !r.KeyRejected()
    ensures op == if r.KeyRejected() || ChangedFields(r.fields) == [] then op0
                  else OperationText(ChangedFields(r.fields), lm)
  {
    var keyIdx := r.autoIncIdx;
    if keyIdx < 0 {
      keyIdx := r.keyIdx;
    }
    if keyIdx < 0 && keyIdx % TWO_32 >= |r.fields| {
      return false, op0;
    }

    var updateFields, maxLen := CollectChanged(r.fields);
    if updateFields == [] {
      return true, op0;
    }
    ChangedFieldsSupported(r);
    op := FormatAll(updateFields, lm, maxLen + BUFFER_SLACK);
    ok := true;
  }

  lemma ChangedPrefix(fields: seq<Field>, k: nat)
    requires k < |fields|
    ensures var before, f := ChangedFields(fields[..k]), fields[k];
            && ChangedFields(fields[..k + 1]) == (if f.changed then before + [f] else before)
            && Sizing(before + [f]) == SizeStep(Sizing(before), f)
  {
    var before, f := ChangedFields(fields[..k]), fields[k];
    assert fields[..k + 1][..k] == fields[..k];
    assert (before + [f])[..|before|] == before;
  }

  /** The two tests of the loop on one changed field. */
  method NextSize(max: int, field: Field) returns (maxLen: int)
    ensures maxLen == SizeStep(max, field)
  {
    maxLen := max;
    if IsFieldNum(field.typ) && maxLen == 0 {
      maxLen := DEFAULT_NUM_LEN;
    } else if field.len > maxLen % TWO_32 {
      maxLen := ToSigned(field.len * 2, TWO_32);
    }
  }

  /** The first loop of `BuildOperation`: gather the changed fields and size the buffer. */
  method CollectChanged(fields: seq<Field>) returns (updateFields: seq<Field>, maxLen: int)
    ensures updateFields == ChangedFields(fields)
    ensures maxLen == Sizing(updateFields)
  {
    maxLen, updateFields := 0, [];
    for idx := 0 to |fields|
      invariant updateFields == ChangedFields(fields[..idx])
      invariant maxLen == Sizing(updateFields)
    {
      var field := fields[idx];
      ChangedPrefix(fields, idx);
      if !field.changed {
        continue;
      }
      maxLen := NextSize(maxLen, field);
      updateFields := updateFields + [field];
    }
    assert fields[..|fields|] == fields;
  }

  lemma {:induction false} JoinAppend(texts: seq<string>, text: string)
    ensures Join(texts + [text]) == if texts == [] then text else Join(texts) + "," + text
  {
    if |texts| > 0 {
      assert (texts + [text])[1..] == texts[1..] + [text];
      JoinAppend(texts[1..], text);
    }
  }

  lemma {:induction false} CutTextsAppend(fs: seq<Field>, f: Field, lm: LongModulus, size: nat)
    requires size > 0
    ensures CutTexts(fs + [f], lm, size) == CutTexts(fs, lm, size) + [Truncate(AssignText(f, lm), size)]
  {
    if fs == [] {
      assert fs + [f] == [f];
    } else {
      assert (fs + [f])[1..] == fs[1..] + [f];
      CutTextsAppend(fs[1..], f, lm, size);
    }
  }

  lemma JoinPrefix(fs: seq<Field>, k: nat, lm: LongModulus, size: nat)
    requires k < |fs| && size > 0
    ensures Join(CutTexts(fs[..k + 1], lm, size))
            == if k == 0 then Truncate(AssignText(fs[k], lm), size)
               else Join(CutTexts(fs[..k], lm, size)) + "," + Truncate(AssignText(fs[k], lm), size)
  {
    assert fs[..k + 1] == fs[..k] + [fs[k]];
    CutTextsAppend(fs[..k], fs[k], lm, size);
    JoinAppend(CutTexts(fs[..k], lm, size), Truncate(AssignText(fs[k], lm), size));
  }

  /** The second loop of `BuildOperation`: one buffer, cleared and filled for each field. */
  method FormatAll(fs: seq<Field>, lm: LongModulus, size: nat) returns (op: string)
    requires fs != [] && size > 0
    requires forall f :: f in fs ==> Supported(f) && FormatSafe(f, size)
    ensures op == Join(CutTexts(fs, lm, size))
  {
    var buf := new char[size](_ => NUL);
    var first := true;
    op := "";
    for k := 0 to |fs|
      invariant first <==> k == 0
      invariant op == Join(CutTexts(fs[..k], lm, size))
    {
      Memset(buf);
      BuildFormatSql(fs[k], lm, buf);
      JoinPrefix(fs, k, lm, size);
      if !first {
        op := op + "," + CStr(buf[..]);
      } else {
        first := false;
        op := op + CStr(buf[..]);
      }
    }
    assert fs[..|fs|] == fs;
  }

  /** `BuildCondition`: the key column and its unescaped value, cut to the fixed buffer. */
  method BuildCondition(r: Record, cond0: string) returns (ok: bool, cond: string)
    requires r.WellFormed()
    ensures ok <==> !r.KeyRejected()
    ensures ok <==> 0 <= r.autoIncIdx || 0 <= r.keyIdx
    ensures r.KeyRejected() ==> cond == cond0
    ensures !r.KeyRejected() ==> 0 <= r.KeyIndex() && cond == Condition(r)
    ensures 0 <= r.autoIncIdx ==> cond == Truncate(ConditionText(r.fields[r.autoIncIdx]), FIXED_BUFFER - 1)
    ensures r.autoIncIdx < 0 <= r.keyIdx ==> cond == Truncate(ConditionText(r.fields[r.keyIdx]), FIXED_BUFFER - 1)
  {
    KeyRejectedExact(r);
    var keyIdx := r.autoIncIdx;
    if keyIdx < 0 {
      keyIdx := r.keyIdx;
    }
    if keyIdx < 0 && keyIdx % TWO_32 >= |r.fields| {
      return false, cond0;
    }
    cond := PrintCondition(r.fields[keyIdx]);
    ok := true;
  }

  method PrintCondition(keyField: Field) returns (cond: string)
    requires Supported(keyField)
    ensures cond == Truncate(ConditionText(keyField), FIXED_BUFFER - 1)
  {
    ConditionNulFree(keyField);
    if IsFieldNum(keyField.typ) {
      cond := PrintFixed("`" + keyField.name + "`=" + Dec(GetInt(keyField.value.i)));
    } else {
      assert ConditionText(keyField) == "`" + keyField.name + "`='" + CStr(keyField.value.s) + "'";
      cond := PrintFixed("`" + keyField.name + "`='" + CStr(keyField.value.s) + "'");
    }
  }

  /** Print into the fixed buffer, one byte short of its size. */
  method PrintFixed(text: string) returns (s: string)
    requires NUL !in text
    ensures s == Truncate(text, FIXED_BUFFER - 1)
  {
    var sqlBuf := new char[FIXED_BUFFER](_ => NUL);
    Snprintf(sqlBuf, FIXED_BUFFER - 1, text);
    s := CStr(sqlBuf[..]);
  }

  lemma ConditionNulFree(f: Field)
    requires Supported(f)
    ensures NUL !in ConditionText(f)
  {
    match f.value {
      case IntVal(i) => DecRoundTrip(GetInt(i), "");
      case StrVal(s) => CStrNulFree(s);
    }
  }

  lemma UpdateTextFacts(table: string, op: string, cond: string)
    requires NUL !in table && NUL !in op && NUL !in cond
    ensures NUL !in UpdateText(table, op, cond)
    ensures |UpdateText(table, op, cond)| < |cond| + |op| + |table| + 128
  {
  }

  lemma InsertTextFacts(table: string, op: string)
    requires NUL !in table && NUL !in op
    ensures NUL !in InsertText(table, op)
    ensures |InsertText(table, op)| < |op| + |table| + 128
  {
  }

  /** Both builders that size their buffer by the text get the full text. */
  method PrintAllocated(text: string, size: nat) returns (sql: string)
    requires |text| < size && NUL !in text
    ensures sql == text
  {
    var sqlBuf := new char[size](_ => NUL);
    Snprintf(sqlBuf, size, text);
    sql := CStr(sqlBuf[..]);
  }

  /** `BuildUpdateSql`: refused without a key, untouched without changes, else the whole text. */
  method BuildUpdateSql(r: Record, lm: LongModulus, sql0: string) returns (ok: bool, sql: string)
    requires Buildable(r)
    ensures ok <==> !r.KeyRejected()
    ensures r.KeyRejected() || ChangedFields(r.fields) == [] ==> sql == sql0
    ensures !r.KeyRejected() && ChangedFields(r.fields) != [] ==>
              0 <= r.KeyIndex() && sql == UpdateText(r.table, OperationText(ChangedFields(r.fields), lm), Condition(r))
  {
    var cond, op;
    ok, cond := BuildCondition(r, "");
    if !ok {
      return false, sql0;
    }
    ok, op := BuildOperation(r, lm, "");
    if !ok {
      return false, sql0;
    }
    ChangedFieldsSupported(r);
    OperationEmptyExact(ChangedFields(r.fields), lm);
    if op == "" {
      return true, sql0;
    }
    ConditionNulFree(r.KeyField());
    UpdateTextFacts(r.table, op, cond);
    sql := PrintAllocated(UpdateText(r.table, op, cond), |cond| + |op| + |r.table| + 128);
  }

  lemma DeleteNulFree(r: Record, cond: string)
    requires r.WellFormed() && !r.KeyRejected() && 0 <= r.KeyIndex() && cond == Condition(r)
    ensures NUL !in DeleteText(r.table, cond)
  {
    ConditionNulFree(r.KeyField());
    assert NUL !in WhereText(cond);
  }

  /** `BuildDelSql`: the text cut to the fixed buffer. */
  method BuildDelSql(r: Record, sql0: string) returns (ok: bool, sql: string)
    requires r.WellFormed()
    ensures ok <==> !r.KeyRejected()
    ensures r.KeyRejected() ==> sql == sql0
    ensures !r.KeyRejected() ==>
              0 <= r.KeyIndex() && sql == Truncate(DeleteText(r.table, Condition(r)), FIXED_BUFFER - 1)
  {
    var cond;
    ok, cond := BuildCondition(r, "");
    if !ok {
      return false, sql0;
    }
    DeleteNulFree(r, cond);
    sql := PrintFixed(DeleteText(r.table, cond));
  }

  /** `BuildInsertSql`: refused without a key and without changes, else the whole text. */
  method BuildInsertSql(r: Record, lm: LongModulus, sql0: string) returns (ok: bool, sql: string)
    requires Buildable(r)
    ensures ok <==> !r.KeyRejected() && ChangedFields(r.fields) != []
    ensures sql == if !ok then sql0 else InsertText(r.table, OperationText(ChangedFields(r.fields), lm))
  {
    var op;
    ok, op := BuildOperation(r, lm, "");
    if !ok {
      return false, sql0;
    }
    ChangedFieldsSupported(r);
    OperationEmptyExact(ChangedFields(r.fields), lm);
    if op == "" {
      return false, sql0;
    }
    InsertTextFacts(r.table, op);
    sql := PrintAllocated(InsertText(r.table, op), |op| + |r.table| + 128);
  }
}
