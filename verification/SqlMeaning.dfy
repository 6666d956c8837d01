/**
 What the statements do: an abstract table with exact equality, the execution of a parsed
 statement, and the claim that "update this record", "delete this record" and "insert this
 record" are what the printed text means.
 */
module SqlMeaning {
  import opened CText
  import opened Fields
  import opened SqlText
  import opened SqlParser
  import opened SqlReading
  import opened SqlRoundTrip

  type Row = map<string, Value>
  datatype Table = Table(name: string, rows: seq<Row>)

  function ApplySets(row: Row, sets: seq<Assign>): Row
    decreases |sets|
  {
    if sets == [] then row else ApplySets(row[sets[0].name := sets[0].value], sets[1..])
  }

  /** A value as a condition: a non-zero number; a string counts as the number it starts with. */
  predicate Truthy(v: Value) {
    match v
    case IntVal(i) => i != 0
    case StrVal(s) => match ScanInt(s) case Some((i, _)) => i != 0 case None => false
  }

  predicate Matches(row: Row, where: Cond) {
    match where
    case Everything => true
    case Column(name) => name in row && Truthy(row[name])
    case Equals(key) => key.name in row && row[key.name] == key.value
  }

  function OneLess(limit: Option<nat>): Option<nat>
    requires limit != Some(0)
  {
    match limit
    case None => None
    case Some(n) => Some(n - 1)
  }

  /** The first `limit` matching rows, or all of them, with the assignments applied. */
  function UpdateRows(rows: seq<Row>, where: Cond, sets: seq<Assign>, limit: Option<nat>): seq<Row> {
    if rows == [] || limit == Some(0) then rows
    else if Matches(rows[0], where) then
      [ApplySets(rows[0], sets)] + UpdateRows(rows[1..], where, sets, OneLess(limit))
    else [rows[0]] + UpdateRows(rows[1..], where, sets, limit)
  }

  /** The rows without the first `limit` matching ones, or without any. */
  function DeleteRows(rows: seq<Row>, where: Cond, limit: Option<nat>): seq<Row> {
    if rows == [] || limit == Some(0) then rows
    else if Matches(rows[0], where) then DeleteRows(rows[1..], where, OneLess(limit))
    else [rows[0]] + DeleteRows(rows[1..], where, limit)
  }

  function Execute(t: Table, st: Statement): Table {
    if st.table != t.name then t
    else
      match st
      case Insert(_, sets) => t.(rows := t.rows + [ApplySets(map[], sets)])
      case Update(_, sets, where, limit) => t.(rows := UpdateRows(t.rows, where, sets, limit))
      case Delete(_, where, limit) => t.(rows := DeleteRows(t.rows, where, limit))
  }

  // ---------- the setting ----------

  /** Two columns of one name are one column. */
  predicate NamesAreColumns(fs: seq<Field>) {
    forall f, g :: f in fs && g in fs && f.name == g.name ==> f == g
  }

  predicate Named(fs: seq<Field>, column: string) {
    exists f :: f in fs && f.name == column
  }

  /** `after` is `before` with exactly the columns of `fs` set to their values. */
  ghost predicate RowSet(before: Row, fs: seq<Field>, after: Row) {
    && (forall f :: f in fs ==> f.name in after && after[f.name] == f.value)
    && (forall c :: c in after <==> c in before || Named(fs, c))
    && (forall c :: c in before && !Named(fs, c) ==> after[c] == before[c])
  }

  /** The row holds the record's value in every column of `fs`. */
  predicate RowAgrees(row: Row, fs: seq<Field>) {
    forall f :: f in fs ==> f.name in row && row[f.name] == f.value
  }

  function Unchanged(fs: seq<Field>): (kept: seq<Field>)
    ensures forall f :: f in kept <==> f in fs && !f.changed
  {
    if fs == [] then []
    else
      assert fs == [fs[0]] + fs[1..];
      (if fs[0].changed then [] else [fs[0]]) + Unchanged(fs[1..])
  }

  /** Every row has the key column, and no two rows agree on it. */
  predicate UniqueKey(t: Table, key: string) {
    && (forall i :: 0 <= i < |t.rows| ==> key in t.rows[i])
    && (forall i, j :: 0 <= i < j < |t.rows| ==> t.rows[i][key] != t.rows[j][key])
  }

  // ---------- executing them ----------

  ghost predicate Assigned(row: Row, column: string, sets: seq<Assign>) {
    exists b :: b in sets && b.name == column && column in row && row[column] == b.value
  }

  lemma {:induction false} ApplySetsFacts(row: Row, sets: seq<Assign>)
    ensures forall c :: c in ApplySets(row, sets) <==> c in row || exists a :: a in sets && a.name == c
    ensures forall c :: c in row && (forall a :: a in sets ==> a.name != c) ==> ApplySets(row, sets)[c] == row[c]
    ensures forall a :: a in sets ==> Assigned(ApplySets(row, sets), a.name, sets)
    decreases |sets|
  {
    if sets != [] {
      var next := row[sets[0].name := sets[0].value];
      var tail := sets[1..];
      ApplySetsFacts(next, tail);
      var after := ApplySets(next, tail);
      assert sets == [sets[0]] + tail;
      forall a | a in sets ensures Assigned(after, a.name, sets) {
        if c :| c in tail && c.name == a.name {
          var b :| b in tail && b.name == c.name && after[c.name] == b.value;
          assert b in sets;
        } else {
          assert a == sets[0] && after[a.name] == next[a.name];
        }
      }
    }
  }

  lemma {:induction false} NoMatch(rows: seq<Row>, where: Cond, sets: seq<Assign>, limit: Option<nat>)
    requires forall j :: 0 <= j < |rows| ==> !Matches(rows[j], where)
    ensures UpdateRows(rows, where, sets, limit) == rows && DeleteRows(rows, where, limit) == rows
  {
    if rows != [] {
      NoMatch(rows[1..], where, sets, limit);
      assert rows == [rows[0]] + rows[1..];
    }
  }

  /** Where one row matches, the limit makes no difference (unless it is zero). */
  lemma {:induction false} OneUpdated(rows: seq<Row>, where: Cond, sets: seq<Assign>, limit: Option<nat>, i: nat)
    requires i < |rows| && Matches(rows[i], where) && limit != Some(0)
    requires forall j :: 0 <= j < |rows| && j != i ==> !Matches(rows[j], where)
    ensures UpdateRows(rows, where, sets, limit) == rows[i := ApplySets(rows[i], sets)]
  {
    var tail := rows[1..];
    if i == 0 {
      NoMatch(tail, where, sets, OneLess(limit));
      assert rows[0 := ApplySets(rows[0], sets)] == [ApplySets(rows[0], sets)] + tail;
    } else {
      OneUpdated(tail, where, sets, limit, i - 1);
      WithOne(rows, i, ApplySets(rows[i], sets));
    }
  }

  lemma WithOne(rows: seq<Row>, i: nat, row: Row)
    requires 0 < i < |rows|
    ensures rows[i := row] == [rows[0]] + rows[1..][i - 1 := row]
  {
  }

  lemma {:induction false} OneDeleted(rows: seq<Row>, where: Cond, limit: Option<nat>, i: nat)
    requires i < |rows| && Matches(rows[i], where) && limit != Some(0)
    requires forall j :: 0 <= j < |rows| && j != i ==> !Matches(rows[j], where)
    ensures DeleteRows(rows, where, limit) == rows[..i] + rows[i + 1..]
  {
    var tail := rows[1..];
    if i == 0 {
      NoMatch(tail, where, [], OneLess(limit));
      assert rows[..0] + tail == tail;
    } else {
      OneDeleted(tail, where, limit, i - 1);
      WithoutOne(rows, i);
    }
  }

  lemma WithoutOne(rows: seq<Row>, i: nat)
    requires 0 < i < |rows|
    ensures rows[..i] + rows[i + 1..] == [rows[0]] + (rows[1..][..i - 1] + rows[1..][i..])
  {
  }

  /** Setting the assignments of `fs` in a row sets exactly those columns. */
  lemma SetsRow(fs: seq<Field>, row: Row)
    requires NamesAreColumns(fs)
    ensures RowSet(row, fs, ApplySets(row, AssignsOf(fs)))
  {
    var sets := AssignsOf(fs);
    var after := ApplySets(row, sets);
    ApplySetsFacts(row, sets);
    AssignsAreFields(fs);
    forall f | f in fs ensures f.name in after && after[f.name] == f.value {
      var a := Assign(f.name, f.value);
      assert a in sets;
      var b :| b in sets && b.name == a.name && after[a.name] == b.value;
      var g :| g in fs && b == Assign(g.name, g.value);
      assert g == f;
    }
    forall c ensures Named(fs, c) <==> exists a :: a in sets && a.name == c {
      if Named(fs, c) {
        var f :| f in fs && f.name == c;
        assert Assign(f.name, f.value) in sets;
      }
    }
  }

  lemma AssignsAreFields(fs: seq<Field>)
    ensures forall f :: f in fs ==> Assign(f.name, f.value) in AssignsOf(fs)
    ensures forall a :: a in AssignsOf(fs) ==> exists f :: f in fs && a == Assign(f.name, f.value)
  {
    forall f | f in fs ensures Assign(f.name, f.value) in AssignsOf(fs) {
      var i :| 0 <= i < |fs| && fs[i] == f;
      assert AssignsOf(fs)[i] == Assign(f.name, f.value);
    }
    forall a | a in AssignsOf(fs) ensures exists f :: f in fs && a == Assign(f.name, f.value) {
      var i :| 0 <= i < |fs| && AssignsOf(fs)[i] == a;
      assert fs[i] in fs && a == Assign(fs[i].name, fs[i].value);
    }
  }

  lemma KeyRowOnly(t: Table, key: Assign, sets: seq<Assign>, limit: Option<nat>, i: nat)
    requires i < |t.rows| && UniqueKey(t, key.name) && t.rows[i][key.name] == key.value
    requires limit != Some(0)
    ensures UpdateRows(t.rows, Equals(key), sets, limit) == t.rows[i := ApplySets(t.rows[i], sets)]
    ensures DeleteRows(t.rows, Equals(key), limit) == t.rows[..i] + t.rows[i + 1..]
  {
    forall j | 0 <= j < |t.rows| && j != i ensures !Matches(t.rows[j], Equals(key)) {
      if j < i { assert t.rows[j][key.name] != t.rows[i][key.name]; }
    }
    OneUpdated(t.rows, Equals(key), sets, limit, i);
    OneDeleted(t.rows, Equals(key), limit, i);
  }

  /** Setting the changed fields sets exactly those; a row that agrees on the others then agrees on all. */
  lemma ChangedRow(fs: seq<Field>, row: Row)
    requires NamesAreColumns(fs)
    ensures var after := ApplySets(row, AssignsOf(ChangedFields(fs)));
            RowSet(row, ChangedFields(fs), after)
            && (RowAgrees(row, Unchanged(fs)) ==> RowAgrees(after, fs))
  {
    var changed := ChangedFields(fs);
    var after := ApplySets(row, AssignsOf(changed));
    ChangedFieldsMembers(fs);
    SetsRow(changed, row);
    if RowAgrees(row, Unchanged(fs)) {
      forall f | f in fs ensures f.name in after && after[f.name] == f.value {
        if f.changed {
          assert f in changed;
        } else {
          assert f in Unchanged(fs);
          assert !Named(changed, f.name);
        }
      }
    }
  }

  /**
   `after` is `t` with row `i` updated: exactly the changed columns of that row are set, and every
   other row is as it was.  If the row agreed with the record elsewhere, it now is the record.
   */
  ghost predicate RecordUpdated(t: Table, i: nat, fs: seq<Field>, after: Table)
    requires i < |t.rows|
  {
    && after.name == t.name && |after.rows| == |t.rows|
    && RowSet(t.rows[i], ChangedFields(fs), after.rows[i])
    && (RowAgrees(t.rows[i], Unchanged(fs)) ==> RowAgrees(after.rows[i], fs))
    && (forall j :: 0 <= j < |t.rows| && j != i ==> after.rows[j] == t.rows[j])
  }

  lemma ExecuteUpdate(fs: seq<Field>, key: Assign, t: Table, i: nat)
    requires NamesAreColumns(fs) && UniqueKey(t, key.name)
    requires i < |t.rows| && t.rows[i][key.name] == key.value
    ensures RecordUpdated(t, i, fs, Execute(t, Update(t.name, AssignsOf(ChangedFields(fs)), Equals(key), Some(1))))
  {
    KeyRowOnly(t, key, AssignsOf(ChangedFields(fs)), Some(1), i);
    ChangedRow(fs, t.rows[i]);
  }

  /**
   Executing the printed update means "update this record", for every table with a unique key and
   whatever the record's row holds besides its key.
   */
  lemma UpdateMeaning(r: Record, lm: LongModulus, t: Table, i: nat)
    requires Buildable(r) && KeyReachable(r) && !r.KeyRejected() && NamesAreColumns(r.fields)
    requires ChangedFields(r.fields) != [] && Whole(ChangedFields(r.fields))
    requires t.name == r.table && UniqueKey(t, KeyOf(r).name)
    requires i < |t.rows| && t.rows[i][KeyOf(r).name] == KeyOf(r).value
    ensures var sql := UpdateText(r.table, OperationText(ChangedFields(r.fields), lm), Condition(r));
            Parse(sql).Some? && RecordUpdated(t, i, r.fields, Execute(t, Parse(sql).value))
  {
    UpdateTextMeans(r, lm);
    ExecuteUpdate(r.fields, KeyOf(r), t, i);
  }

  /** With no row of that key the update changes nothing. */
  lemma UpdateMissingRow(r: Record, lm: LongModulus, t: Table)
    requires Buildable(r) && KeyReachable(r) && !r.KeyRejected()
    requires ChangedFields(r.fields) != [] && Whole(ChangedFields(r.fields))
    requires forall j :: 0 <= j < |t.rows| ==> !Matches(t.rows[j], Equals(KeyOf(r)))
    ensures var sql := UpdateText(r.table, OperationText(ChangedFields(r.fields), lm), Condition(r));
            Parse(sql).Some? && Execute(t, Parse(sql).value) == t
  {
    UpdateTextMeans(r, lm);
    NoMatch(t.rows, Equals(KeyOf(r)), AssignsOf(ChangedFields(r.fields)), Some(1));
  }

  /**
   An unsigned 64-bit key at or above 2^63 is printed as a negative number: the update parses,
   and changes no table whose key column holds unsigned values, even if the row is there.
   */
  lemma HugeKeyUpdatesNothing(r: Record, lm: LongModulus, t: Table)
    requires Buildable(r) && !r.KeyRejected() && 0 <= r.KeyIndex()
    requires r.KeyField().value.IntVal? && r.KeyField().value.i >= TWO_63
    requires |ConditionText(r.KeyField())| < FIXED_BUFFER - 1
    requires ChangedFields(r.fields) != [] && Whole(ChangedFields(r.fields))
    requires forall j :: 0 <= j < |t.rows| && KeyOf(r).name in t.rows[j] ==>
               t.rows[j][KeyOf(r).name].IntVal? && t.rows[j][KeyOf(r).name].i >= 0
    ensures var sql := UpdateText(r.table, OperationText(ChangedFields(r.fields), lm), Condition(r));
            Parse(sql).Some? && Execute(t, Parse(sql).value) == t
  {
    var key, v := r.KeyField(), IntVal(GetInt(r.KeyField().value.i));
    KeyNumber(key);
    NumberReadsAs(key.value.i);
    KeyReadsAs(r, lm, v);
    NegativeMatchesNone(t.rows, Assign(key.name, v), AssignsOf(ChangedFields(r.fields)));
  }

  lemma NegativeMatchesNone(rows: seq<Row>, key: Assign, sets: seq<Assign>)
    requires key.value.IntVal? && key.value.i < 0
    requires forall j :: 0 <= j < |rows| && key.name in rows[j] ==>
               rows[j][key.name].IntVal? && rows[j][key.name].i >= 0
    ensures UpdateRows(rows, Equals(key), sets, Some(1)) == rows
  {
    NoMatch(rows, Equals(key), sets, Some(1));
  }

  /**
   A key whose literal reads as another value updates and deletes the row of that value instead:
   by `DoubledQuoteReadsAs`, the record with the key `a''b` is taken for the one with `a'b`.
   */
  lemma OtherRowMeant(r: Record, lm: LongModulus, v: Value, t: Table, i: nat)
    requires Buildable(r) && !r.KeyRejected() && 0 <= r.KeyIndex() && NamesAreColumns(r.fields)
    requires ReadsAs(r.KeyField().value, v) && |ConditionText(r.KeyField())| < FIXED_BUFFER - 1
    requires t.name == r.table && UniqueKey(t, KeyOf(r).name) && i < |t.rows| && t.rows[i][KeyOf(r).name] == v
    ensures ChangedFields(r.fields) != [] && Whole(ChangedFields(r.fields)) ==>
              var sql := UpdateText(r.table, OperationText(ChangedFields(r.fields), lm), Condition(r));
              Parse(sql).Some? && RecordUpdated(t, i, r.fields, Execute(t, Parse(sql).value))
    ensures DeleteLength(r) <= 1022 ==>
              var sql := DeleteSent(r);
              Parse(sql).Some? && Execute(t, Parse(sql).value) == t.(rows := t.rows[..i] + t.rows[i + 1..])
  {
    var key := Assign(KeyOf(r).name, v);
    KeyReadsAs(r, lm, v);
    ExecuteUpdate(r.fields, key, t, i);
    KeyRowOnly(t, key, [], Some(1), i);
  }

  /** A delete that is whole, or lacks only its limit, removes the record's row and nothing else. */
  lemma DeleteMeaning(r: Record, t: Table, i: nat)
    requires r.WellFormed() && KeyReachable(r) && !r.KeyRejected()
    requires DeleteLength(r) <= 1022 || DeleteLength(r) == 1029 || DeleteLength(r) == 1030
    requires t.name == r.table && UniqueKey(t, KeyOf(r).name)
    requires i < |t.rows| && t.rows[i][KeyOf(r).name] == KeyOf(r).value
    ensures var sql := DeleteSent(r);
            Parse(sql).Some? && Execute(t, Parse(sql).value) == t.(rows := t.rows[..i] + t.rows[i + 1..])
  {
    DeleteTextMeansExact(r);
    KeyRowOnly(t, KeyOf(r), [], Parse(DeleteSent(r)).value.limit, i);
  }

  /** A delete cut right after its table name deletes every row. */
  lemma CutToTableDeletesAll(r: Record, t: Table)
    requires r.WellFormed() && !r.KeyRejected() && 0 <= r.KeyIndex() && FaithfulKey(r.KeyField().value)
    requires 1007 <= |r.table| <= 1008 && t.name == r.table
    ensures Parse(DeleteSent(r)).Some? && Execute(t, Parse(DeleteSent(r)).value).rows == []
  {
    CutDeleteReads(r);
    AllDeleted(t.rows);
  }

  lemma {:induction false} AllDeleted(rows: seq<Row>)
    ensures DeleteRows(rows, Everything, None) == []
  {
    if rows != [] {
      AllDeleted(rows[1..]);
    }
  }

  /** `after` is `t` with one more row, which holds exactly the columns of `fs`. */
  ghost predicate RecordInserted(t: Table, fs: seq<Field>, after: Table) {
    && after.name == t.name && |after.rows| == |t.rows| + 1 && after.rows[..|t.rows|] == t.rows
    && RowSet(map[], fs, after.rows[|t.rows|])
  }

  lemma ExecuteInsert(fs: seq<Field>, t: Table)
    requires NamesAreColumns(fs)
    ensures RecordInserted(t, fs, Execute(t, Insert(t.name, AssignsOf(fs))))
  {
    SetsRow(fs, map[]);
  }

  lemma InsertTextMeans(r: Record, lm: LongModulus)
    requires Buildable(r) && ChangedFields(r.fields) != [] && Whole(ChangedFields(r.fields))
    ensures Parse(InsertText(r.table, OperationText(ChangedFields(r.fields), lm)))
            == Some(Insert(r.table, AssignsOf(ChangedFields(r.fields))))
  {
    ChangedFieldsSupported(r);
    OperationRoundTrip(ChangedFields(r.fields), lm);
    ParseInsertText(r.table, OperationText(ChangedFields(r.fields), lm));
  }

  /** Executing the printed insert appends one row that holds exactly the changed columns. */
  lemma InsertMeaning(r: Record, lm: LongModulus, t: Table)
    requires Buildable(r) && NamesAreColumns(r.fields) && t.name == r.table
    requires ChangedFields(r.fields) != [] && Whole(ChangedFields(r.fields))
    ensures var sql := InsertText(r.table, OperationText(ChangedFields(r.fields), lm));
            Parse(sql).Some? && RecordInserted(t, ChangedFields(r.fields), Execute(t, Parse(sql).value))
  {
    ChangedFieldsMembers(r.fields);
    InsertTextMeans(r, lm);
    ExecuteInsert(ChangedFields(r.fields), t);
  }
}
