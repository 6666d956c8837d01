/**
 What the statements that are sent read as, whole or cut by their buffers.
 */
module SqlReading {
  import opened CText
  import opened Fields
  import opened SqlText
  import opened SqlParser
  import opened SqlRoundTrip

  /** The condition of a record reads back as its key: see `ConditionFaithfulExact`. */
  ghost predicate KeyReachable(r: Record)
    requires r.WellFormed()
  {
    && 0 <= r.KeyIndex()
    && FaithfulKey(r.KeyField().value)
    && |ConditionText(r.KeyField())| < FIXED_BUFFER - 1
  }

  function KeyOf(r: Record): Assign
    requires r.WellFormed() && 0 <= r.KeyIndex()
  {
    Assign(r.KeyField().name, r.KeyField().value)
  }

  // ---------- the statements around their parts ----------

  lemma ParseDispatch(body: string)
    ensures Parse("update `" + body) == ParseUpdate(body)
    ensures Parse("delete from `" + body) == ParseDelete(body)
    ensures Parse("insert into `" + body) == ParseInsert(body)
  {
    ExpectFound("update `", body);
    ExpectFound("delete from `", body);
    ExpectFound("insert into `", body);
    assert ("delete from `" + body)[0] == 'd' && ("insert into `" + body)[0] == 'i';
  }

  /** The update reads as its sets under whatever its WHERE part reads as. */
  lemma ParseUpdateText(table: string, op: string, sets: seq<Assign>, cond: string)
    requires '`' !in table
    requires ScanAssigns(op + WhereText(cond)) == Some((sets, WhereText(cond)))
    ensures Parse(UpdateText(table, op, cond))
            == match ParseWhere(WhereText(cond))
               case Some((w, limit)) => Some(Update(table, sets, w, limit))
               case None => None
  {
    ScanToBacktickFound(table, " set " + (op + WhereText(cond)));
    ExpectFound(" set ", op + WhereText(cond));
    ParseDispatch(table + "`" + (" set " + (op + WhereText(cond))));
  }

  lemma ParseInsertText(table: string, op: string)
    requires '`' !in table
    ensures Parse(InsertText(table, op))
            == match ParseAssigns(op) case Some(sets) => Some(Insert(table, sets)) case None => None
  {
    ScanToBacktickFound(table, " set " + op);
    ExpectFound(" set ", op);
    ParseDispatch(table + "`" + (" set " + op));
  }

  // ---------- the WHERE part, whole or cut ----------

  /** An assignment and what follows it, as a condition. */
  lemma ParseCondText(cond: string, tail: string, key: Assign)
    requires ScanAssign(cond + tail) == Some((key, tail))
    ensures ParseWhere(" where " + (cond + tail))
            == match ParseLimit(tail) case Some(limit) => Some((Equals(key), limit)) case None => None
  {
    ParseWhereIsCond(cond + tail);
  }

  /** A reachable key followed by what is left of ` limit 1` reads as the key wherever SQL allows the end. */
  lemma WhereReads(r: Record, tail: string)
    requires r.WellFormed() && KeyReachable(r) && tail <= " limit 1"
    ensures ParseWhere(" where " + (Condition(r) + tail))
            == if |tail| == 8 then Some((Equals(KeyOf(r)), Some(1)))
               else if |tail| <= 1 then Some((Equals(KeyOf(r)), None))
               else None
  {
    LimitPrefix(tail);
    ConditionRoundTrip(r.KeyField(), tail);
    ParseCondText(Condition(r), tail, KeyOf(r));
  }

  /** If a prefix of the WHERE part reads as the key, the key is reachable and only ` limit 1` is cut. */
  lemma WhereExact(r: Record, text: string)
    requires r.WellFormed() && 0 <= r.KeyIndex() && text <= WhereText(Condition(r))
    ensures ParseWhere(text).Some? && ParseWhere(text).value.0 == Equals(KeyOf(r)) ==>
              && KeyReachable(r)
              && (|text| == |Condition(r)| + 15 || |text| == |Condition(r)| + 8 || |text| == |Condition(r)| + 7)
  {
    if ParseWhere(text).Some? && ParseWhere(text).value.0 == Equals(KeyOf(r)) {
      ParseWhereEquals(text);
      var rest := text[7..];
      assert rest <= Condition(r) + " limit 1";
      ConditionPrefixExact(r.KeyField(), rest);
      LimitLeft(Condition(r), rest, ScanAssign(rest).value.1);
    }
  }

  lemma LimitLeft(cond: string, rest: string, tail: string)
    requires rest <= cond + " limit 1" && rest == cond + tail && ParseLimit(tail).Some?
    ensures |tail| == 8 || |tail| <= 1
  {
    assert tail == rest[|cond|..] <= " limit 1";
    LimitPrefix(tail);
  }

  // ---------- the update ----------

  lemma UpdateReads(r: Record, lm: LongModulus)
    requires Buildable(r) && !r.KeyRejected() && 0 <= r.KeyIndex()
    requires ChangedFields(r.fields) != [] && Whole(ChangedFields(r.fields))
    ensures Parse(UpdateText(r.table, OperationText(ChangedFields(r.fields), lm), Condition(r)))
            == match ParseWhere(WhereText(Condition(r)))
               case Some((w, limit)) => Some(Update(r.table, AssignsOf(ChangedFields(r.fields)), w, limit))
               case None => None
  {
    var fs, cond := ChangedFields(r.fields), Condition(r);
    ChangedFieldsSupported(r);
    OperationWholeExact(fs, lm);
    AssignsRoundTrip(fs, lm, WhereText(cond));
    ParseUpdateText(r.table, OperationText(fs, lm), AssignsOf(fs), cond);
  }

  /** The update text reads back as the changed fields under the record's key. */
  lemma UpdateTextMeans(r: Record, lm: LongModulus)
    requires Buildable(r) && KeyReachable(r) && !r.KeyRejected()
    requires ChangedFields(r.fields) != [] && Whole(ChangedFields(r.fields))
    ensures Parse(UpdateText(r.table, OperationText(ChangedFields(r.fields), lm), Condition(r)))
            == Some(Update(r.table, AssignsOf(ChangedFields(r.fields)), Equals(KeyOf(r)), Some(1)))
  {
    UpdateReads(r, lm);
    WhereReads(r, " limit 1");
  }

  // ---------- a key literal that reads as another value ----------

  /** Between the quotes or digits of the key's literal a reader finds the value `v`. */
  predicate ReadsAs(key: Value, v: Value) {
    ScanLiteral(KeyLiteral(key) + " limit 1") == Some((v, " limit 1"))
  }

  /** A number key reads as the number that is printed. */
  lemma NumberReadsAs(i: int)
    ensures ReadsAs(IntVal(i), IntVal(GetInt(i)))
  {
    DecRoundTrip(GetInt(i), " limit 1");
  }

  lemma WhereReadsAs(r: Record, v: Value)
    requires r.WellFormed() && 0 <= r.KeyIndex() && ReadsAs(r.KeyField().value, v)
    requires |ConditionText(r.KeyField())| < FIXED_BUFFER - 1
    ensures ParseWhere(WhereText(Condition(r))) == Some((Equals(Assign(r.KeyField().name, v)), Some(1)))
  {
    var f := r.KeyField();
    CondIsPrefix(f);
    ScanAssignHead(f.name, KeyLiteral(f.value) + " limit 1");
    AddAssociates("`" + f.name + "`=", KeyLiteral(f.value), " limit 1");
    LimitPrefix(" limit 1");
    ParseCondText(Condition(r), " limit 1", Assign(f.name, v));
  }

  /** Whatever value the key's literal reads as, the whole update and the whole delete are about that value. */
  lemma KeyReadsAs(r: Record, lm: LongModulus, v: Value)
    requires Buildable(r) && !r.KeyRejected() && 0 <= r.KeyIndex() && ReadsAs(r.KeyField().value, v)
    requires |ConditionText(r.KeyField())| < FIXED_BUFFER - 1
    ensures ChangedFields(r.fields) != [] && Whole(ChangedFields(r.fields)) ==>
              Parse(UpdateText(r.table, OperationText(ChangedFields(r.fields), lm), Condition(r)))
              == Some(Update(r.table, AssignsOf(ChangedFields(r.fields)),
                             Equals(Assign(r.KeyField().name, v)), Some(1)))
    ensures DeleteLength(r) <= 1022 ==>
              Parse(DeleteSent(r)) == Some(Delete(r.table, Equals(Assign(r.KeyField().name, v)), Some(1)))
  {
    WhereReadsAs(r, v);
    if ChangedFields(r.fields) != [] && Whole(ChangedFields(r.fields)) {
      UpdateReads(r, lm);
    }
    if DeleteLength(r) <= 1022 {
      DeleteReads(r);
      WhereSentLength(r);
      assert WhereSent(r) == WhereText(Condition(r));
    }
  }

  lemma PrependTwice(a: string, b: string, scanned: Option<(string, string)>)
    ensures Prepend(a, Prepend(b, scanned)) == Prepend(a + b, scanned)
  {
    if scanned.Some? {
      assert a + (b + scanned.value.0) == a + b + scanned.value.0;
    }
  }

  lemma PrependNothing(scanned: Option<(string, string)>)
    ensures Prepend("", scanned) == scanned
  {
    if scanned.Some? {
      assert "" + scanned.value.0 == scanned.value.0;
    }
  }

  /** How many bytes of a plain string are read at once. */
  function PlainHead(s: string): nat
    requires s != "" && PlainLiteral(s)
  {
    if s[0] == '\\' then 2 else 1
  }

  lemma {:induction false} PlainFront(s: string, tail: string)
    requires s != "" && PlainLiteral(s)
    ensures PlainLiteral(s[PlainHead(s)..])
    ensures ScanQuoted(s[..PlainHead(s)] + tail) == Prepend(s[..PlainHead(s)], ScanQuoted(tail))
  {
    if s[0] == '\\' {
      assert s[..2] == ['\\', s[1]] == Unescape(s[1]);
      ScanQuotedEscape(s[1], tail);
    } else {
      assert s[..1] == [s[0]];
      ScanQuotedPlain(s[0], tail);
    }
  }

  lemma {:induction false} PlainPrefix(s: string, tail: string)
    requires PlainLiteral(s)
    ensures ScanQuoted(s + tail) == Prepend(s, ScanQuoted(tail))
  {
    if s == "" {
      assert s + tail == tail;
      PrependNothing(ScanQuoted(tail));
    } else {
      var k := PlainHead(s);
      PlainFront(s, s[k..] + tail);
      PlainPrefix(s[k..], tail);
      PlainStep(s[..k], s[k..], tail);
      assert s == s[..k] + s[k..];
    }
  }

  /** A piece of text that stands for itself, before a text that does. */
  lemma {:induction false} PlainStep(front: string, s: string, tail: string)
    requires ScanQuoted(front + (s + tail)) == Prepend(front, ScanQuoted(s + tail))
    requires ScanQuoted(s + tail) == Prepend(s, ScanQuoted(tail))
    ensures ScanQuoted(front + s + tail) == Prepend(front + s, ScanQuoted(tail))
  {
    AddAssociates(front, s, tail);
    PrependTwice(front, s, ScanQuoted(tail));
  }

  lemma DoubledQuoteScan(a: string, b: string, rest: string)
    requires PlainLiteral(a) && PlainLiteral(b) && (rest == "" || rest[0] != '\'')
    ensures ScanQuoted(a + ("''" + (b + ("'" + rest)))) == Some((a + ("'" + b), rest))
  {
    var afterB := "'" + rest;
    var afterA := "''" + (b + afterB);
    PlainPrefix(a, afterA);
    assert afterA[2..] == b + afterB;
    PlainPrefix(b, afterB);
    ScanQuotedEnd(rest);
    assert b + "" == b;
  }

  /** The key `a''b` reads as `a'b`: doubled quotes are not escaped, and mean one quote. */
  lemma DoubledQuoteReadsAs(a: string, b: string)
    requires PlainLiteral(a) && PlainLiteral(b)
    ensures ReadsAs(StrVal(a + "''" + b), StrVal(a + "'" + b))
    ensures StrVal(a + "''" + b) != StrVal(a + "'" + b)
  {
    var key, v := a + "''" + b, a + "'" + b;
    PlainLiteralMeaning(a);
    PlainLiteralMeaning(b);
    DoubledQuoteScan(a, b, " limit 1");
    Regroup(a, "''", b, "'" + " limit 1");
    AddAssociates(a, "'", b);
    StringReadsAs(key, v);
    assert |key| == |v| + 1;
  }

  lemma StringReadsAs(key: string, v: string)
    requires NUL !in key && ScanQuoted(key + ("'" + " limit 1")) == Some((v, " limit 1"))
    ensures ReadsAs(StrVal(key), StrVal(v))
  {
    CStrNulFree(key);
    QuotedReads(key, v, " limit 1");
  }

  lemma {:induction false} QuotedReads(s: string, v: string, rest: string)
    requires ScanQuoted(s + ("'" + rest)) == Some((v, rest))
    ensures ScanLiteral("'" + s + "'" + rest) == Some((StrVal(v), rest))
  {
    QuoteThen("'" + s + "'" + rest, s + ("'" + rest));
  }

  lemma {:induction false} QuoteThen(text: string, tail: string)
    requires text == "'" + tail
    ensures ScanLiteral(text)
            == match ScanQuoted(tail) case Some((v, rest)) => Some((StrVal(v), rest)) case None => None
  {
    assert text[1..] == tail;
  }

  // ---------- the delete, whole or cut ----------

  /** The length the delete needs: 29 bytes of frame. */
  function DeleteLength(r: Record): nat
    requires r.WellFormed() && !r.KeyRejected() && 0 <= r.KeyIndex()
  {
    29 + |r.table| + |Condition(r)|
  }

  /** What `BuildDelSql` sends. */
  function DeleteSent(r: Record): string
    requires r.WellFormed() && !r.KeyRejected() && 0 <= r.KeyIndex()
  {
    Truncate(DeleteText(r.table, Condition(r)), FIXED_BUFFER - 1)
  }

  /** The delete text is whole exactly when it fits its fixed buffer. */
  lemma DeleteWholeExact(r: Record)
    requires r.WellFormed() && !r.KeyRejected() && 0 <= r.KeyIndex()
    ensures DeleteSent(r) == DeleteText(r.table, Condition(r)) <==> DeleteLength(r) <= 1022
  {
  }

  /** What the fixed buffer leaves after the closing backtick of the table name, if it is left. */
  function WhereSent(r: Record): string
    requires r.WellFormed() && !r.KeyRejected() && 0 <= r.KeyIndex() && |r.table| <= 1008
  {
    DeleteSent(r)[14 + |r.table|..]
  }

  /** The delete reads as its table and whatever is left of its WHERE part. */
  lemma DeleteReads(r: Record)
    requires r.WellFormed() && !r.KeyRejected() && 0 <= r.KeyIndex()
    ensures |r.table| > 1008 ==> Parse(DeleteSent(r)) == None
    ensures |r.table| <= 1008 ==>
              && WhereSent(r) <= WhereText(Condition(r))
              && Parse(DeleteSent(r))
                 == match ParseWhere(WhereSent(r))
                    case Some((w, limit)) => Some(Delete(r.table, w, limit))
                    case None => None
  {
    var body := DeleteSent(r)[13..];
    assert DeleteSent(r) == "delete from `" + body;
    assert body <= r.table + "`" + WhereText(Condition(r));
    ParseDispatch(body);
    DeleteBodyReads(r.table, WhereText(Condition(r)), body);
    if |r.table| <= 1008 {
      assert WhereSent(r) == body[|r.table| + 1..];
    }
  }

  lemma DeleteBodyReads(table: string, where: string, body: string)
    requires '`' !in table && body <= table + "`" + where
    ensures |body| <= |table| ==> ParseDelete(body) == None
    ensures |body| > |table| ==>
              && body[|table| + 1..] <= where
              && ParseDelete(body)
                 == match ParseWhere(body[|table| + 1..])
                    case Some((w, limit)) => Some(Delete(table, w, limit))
                    case None => None
  {
    if |body| <= |table| {
      assert body == table[..|body|];
      NoBacktickNoName(body);
    } else {
      assert body == table + "`" + body[|table| + 1..];
      ScanToBacktickFound(table, body[|table| + 1..]);
    }
  }

  lemma WhereSentLength(r: Record)
    requires r.WellFormed() && !r.KeyRejected() && 0 <= r.KeyIndex() && |r.table| <= 1008
    ensures |WhereSent(r)| == if DeleteLength(r) <= 1022 then |Condition(r)| + 15 else 1008 - |r.table|
  {
  }

  /** Cuts that leave the condition whole: nothing, or something of ` limit 1`. */
  lemma SentTail(r: Record)
    requires r.WellFormed() && !r.KeyRejected() && KeyReachable(r) && DeleteLength(r) <= 1030
    ensures |r.table| <= 1008
    ensures ParseWhere(WhereSent(r))
            == if DeleteLength(r) <= 1022 then Some((Equals(KeyOf(r)), Some(1)))
               else if DeleteLength(r) >= 1029 then Some((Equals(KeyOf(r)), None))
               else None
  {
    var where := WhereSent(r);
    DeleteReads(r);
    WhereSentLength(r);
    var tail := where[|Condition(r)| + 7..];
    assert where == " where " + (Condition(r) + tail) && tail <= " limit 1";
    WhereReads(r, tail);
  }

  /**
   What the delete that is sent means, whatever was cut: it names the record's key if and only if
   the key can be reached and the buffer cuts nothing, or cuts just ` limit 1` with or without its
   blank; then the limit is gone.
   */
  lemma DeleteTextMeansExact(r: Record)
    requires r.WellFormed() && !r.KeyRejected() && 0 <= r.KeyIndex()
    ensures Parse(DeleteSent(r)) == Some(Delete(r.table, Equals(KeyOf(r)), Some(1)))
            <==> KeyReachable(r) && DeleteLength(r) <= 1022
    ensures Parse(DeleteSent(r)) == Some(Delete(r.table, Equals(KeyOf(r)), None))
            <==> KeyReachable(r) && (DeleteLength(r) == 1029 || DeleteLength(r) == 1030)
  {
    DeleteReads(r);
    if KeyReachable(r) && DeleteLength(r) <= 1030 {
      SentTail(r);
    } else if |r.table| <= 1008 {
      WhereSentLength(r);
      WhereExact(r, WhereSent(r));
    }
  }

  /** What a statement may apply to that came from a delete of this record. */
  predicate OnKeyColumn(r: Record, st: Statement)
    requires r.WellFormed() && 0 <= r.KeyIndex()
  {
    && st.Delete? && st.table == r.table
    && match st.where
       case Everything => 1007 <= |r.table| <= 1008
       case Column(name) => name == KeyOf(r).name && |r.table| + |name| == 999
       case Equals(key) => key.name == KeyOf(r).name
  }

  /** With a faithful key the delete names no other table and no other column, whatever was cut. */
  lemma DeleteStaysOnKeyColumn(r: Record)
    requires r.WellFormed() && !r.KeyRejected() && 0 <= r.KeyIndex() && FaithfulKey(r.KeyField().value)
    ensures Parse(DeleteSent(r)).Some? ==> OnKeyColumn(r, Parse(DeleteSent(r)).value)
  {
    if KeyReachable(r) && DeleteLength(r) <= 1030 {
      DeleteReads(r);
      SentTail(r);
    } else {
      CutDeleteReads(r);
    }
  }

  /**
   What is left of a WHERE part cut after `kept` bytes, inside its condition: nothing, so all rows
   are meant; the bare column; or a number cut between its digits.
   */
  function CutCond(f: Field, kept: nat): Option<Cond> {
    if kept <= 1 then Some(Everything)
    else if kept == |f.name| + 9 then Some(Column(f.name))
    else if f.value.StrVal? then None
    else CutNumber(f, kept - |f.name| - 10)
  }

  function CutNumber(f: Field, kept: int): Option<Cond>
    requires f.value.IntVal?
  {
    if kept <= 0 || |Dec(GetInt(f.value.i))| <= kept then None
    else
      match ScanInt(Dec(GetInt(f.value.i))[..kept])
      case Some((v, _)) => Some(Equals(Assign(f.name, IntVal(v))))
      case None => None
  }

  /**
   Every other delete with a faithful key.  A cut inside the table name or inside ` limit 1` leaves
   no statement; a cut right after the table name leaves the delete of all rows, after the column
   name that of the rows where it is not zero, between the digits of a number that of the shorter
   number, and anywhere else no statement.
   */
  lemma CutDeleteReads(r: Record)
    requires r.WellFormed() && !r.KeyRejected() && 0 <= r.KeyIndex() && FaithfulKey(r.KeyField().value)
    requires !(KeyReachable(r) && DeleteLength(r) <= 1030)
    ensures Parse(DeleteSent(r))
            == if |r.table| > 1008 then None
               else
                 match CutCond(r.KeyField(), 1008 - |r.table|)
                 case Some(w) => Some(Delete(r.table, w, None))
                 case None => None
  {
    DeleteReads(r);
    if |r.table| <= 1008 {
      SentInCondition(r);
      WhereCutReads(r.KeyField(), WhereSent(r));
    }
  }

  /** Then the cut is inside the condition. */
  lemma SentInCondition(r: Record)
    requires r.WellFormed() && !r.KeyRejected() && 0 <= r.KeyIndex() && FaithfulKey(r.KeyField().value)
    requires !(KeyReachable(r) && DeleteLength(r) <= 1030) && |r.table| <= 1008
    ensures |WhereSent(r)| == 1008 - |r.table|
    ensures WhereSent(r) < " where " + ConditionText(r.KeyField())
  {
    DeleteReads(r);
    WhereSentLength(r);
    CondIsPrefix(r.KeyField());
    assert Condition(r) <= ConditionText(r.KeyField());
    assert |WhereSent(r)| < |Condition(r)| + 7;
  }

  lemma WhereCutReads(f: Field, where: string)
    requires Supported(f) && FaithfulKey(f.value) && where < " where " + ConditionText(f)
    ensures ParseWhere(where) == match CutCond(f, |where|) case Some(w) => Some((w, None)) case None => None
  {
    if |where| <= 1 {
      assert where == "" || where == " ";
      LimitPrefix(where);
    } else if |where| < 7 {
      WhereWordCut(where);
    } else {
      var rest := where[7..];
      assert where == " where " + rest && rest < ConditionText(f);
      ParseWhereIsCond(rest);
      CutCondReads(f, rest);
    }
  }

  lemma WhereWordCut(where: string)
    requires 1 < |where| < 7 && where <= " where "
    ensures ParseWhere(where) == None
  {
    assert where[0] == ' ' && where[1] == 'w';
    assert SkipBlanks(where) == where[1..];
  }

  /** A proper prefix of the condition, read as a condition. */
  lemma {:induction false} CutCondReads(f: Field, rest: string)
    requires Supported(f) && FaithfulKey(f.value) && rest < ConditionText(f)
    ensures ParseCond(rest) == match CutCond(f, |rest| + 7) case Some(w) => Some((w, None)) case None => None
  {
    CondIsPrefix(f);
    if |rest| < |f.name| + 3 {
      assert rest == ("`" + f.name + "`=")[..|rest|];
      CutHeadReads(f.name, rest);
    } else {
      var kept := |rest| - |f.name| - 3;
      assert rest == "`" + f.name + "`=" + KeyLiteral(f.value)[..kept];
      CutEqualsReads(f, kept);
    }
  }

  /** The condition cut before its equals sign or right after its column. */
  lemma {:induction false} CutHeadReads(name: string, rest: string)
    requires '`' !in name && |rest| < |name| + 3 && rest == ("`" + name + "`=")[..|rest|]
    ensures ParseCond(rest) == if |rest| == |name| + 2 then Some((Column(name), None)) else None
  {
    ScanAssignCutHead(name, |rest|, "");
    assert rest + "" == rest;
    CutColumnReads(name, rest);
    LimitPrefix("");
  }

  /** The condition cut inside its literal. */
  lemma CutEqualsReads(f: Field, kept: nat)
    requires Supported(f) && FaithfulKey(f.value) && kept < |KeyLiteral(f.value)|
    ensures ParseCond("`" + f.name + "`=" + KeyLiteral(f.value)[..kept])
            == if f.value.StrVal? then None
               else match CutNumber(f, kept) case Some(w) => Some((w, None)) case None => None
  {
    var literal := KeyLiteral(f.value)[..kept];
    ScanAssignHead(f.name, literal);
    CutLiteralReads(f, kept);
    if ScanLiteral(literal) == None {
      ColumnThenEquals(f.name, literal);
    }
    LimitPrefix("");
  }

  lemma CutColumnReads(name: string, rest: string)
    requires '`' !in name && |rest| < |name| + 3 && rest <= "`" + name + "`"
    requires ScanAssign(rest) == None
    ensures ScanCond(rest) == if |rest| == |name| + 2 then Some((Column(name), "")) else None
  {
    if |rest| == |name| + 2 {
      assert rest[1..] == name + "`" + "";
      ScanToBacktickFound(name, "");
    } else if rest != "" {
      assert rest[1..] == name[..|rest| - 1];
      NoBacktickNoName(rest[1..]);
    }
  }

  /** An equals sign after a column is not the end of a condition. */
  lemma ColumnThenEquals(name: string, tail: string)
    requires '`' !in name && ScanLiteral(tail) == None
    ensures ParseCond("`" + name + "`=" + tail) == None
  {
    var s := "`" + name + "`=" + tail;
    ScanAssignHead(name, tail);
    assert s[1..] == name + "`" + ("=" + tail);
    ScanToBacktickFound(name, "=" + tail);
  }

  lemma CutLiteralReads(f: Field, kept: nat)
    requires Supported(f) && FaithfulKey(f.value) && kept < |KeyLiteral(f.value)|
    ensures f.value.StrVal? ==> ScanLiteral(KeyLiteral(f.value)[..kept]) == None
    ensures f.value.IntVal? ==> ScanLiteral(KeyLiteral(f.value)[..kept]) == CutDigits(GetInt(f.value.i), kept)
    ensures kept == 0 ==> ScanLiteral(KeyLiteral(f.value)[..kept]) == None
  {
    match f.value {
      case IntVal(i) => CutNumberReads(GetInt(i), kept);
      case StrVal(s) =>
        PlainLiteralMeaning(s);
        CStrNulFree(s);
        CutStringReads(s, kept);
    }
  }

  /** The first `kept` characters of a printed number, read as a literal. */
  function CutDigits(n: int, kept: nat): Option<(Value, string)>
    requires kept <= |Dec(n)|
  {
    match ScanInt(Dec(n)[..kept])
    case Some((v, _)) => Some((IntVal(v), ""))
    case None => None
  }

  lemma CutNumberReads(n: int, kept: nat)
    requires kept < |Dec(n)|
    ensures ScanLiteral(Dec(n)[..kept]) == CutDigits(n, kept)
    ensures kept == 0 ==> CutDigits(n, kept) == None
  {
    var cut := Dec(n)[..kept];
    DecPrefixScan(n, kept, "");
    assert cut + "" == cut;
    if kept > 0 {
      DecRoundTrip(n, "");
      assert cut[0] == Dec(n)[0];
    }
  }

  lemma CutStringReads(s: string, kept: nat)
    requires NUL !in s && '\'' !in s && kept < |s| + 2
    ensures ScanLiteral(("'" + s + "'")[..kept]) == None
  {
    if kept > 0 {
      var cut := ("'" + s + "'")[..kept];
      assert cut[1..] == s[..kept - 1];
      NoQuoteNoEnd(cut[1..]);
    }
  }

  /** Identifiers have at most 64 characters in MySQL: then a number key is never cut. */
  lemma NumberKeysFit(r: Record)
    requires r.WellFormed() && !r.KeyRejected() && 0 <= r.KeyIndex()
    requires r.KeyField().value.IntVal? && |r.table| <= 64 && |r.KeyField().name| <= 64
    ensures |ConditionText(r.KeyField())| < FIXED_BUFFER - 1 && DeleteLength(r) <= 1022
  {
    DecLength64(GetInt(r.KeyField().value.i));
  }
}
