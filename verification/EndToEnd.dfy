/**
 The builders and the meaning of what they build, together: a record is sent, read and executed, with
 the key column named by the record's own indexes.
 */
module EndToEnd {
  import opened Fields
  import opened SqlText
  import opened SqlParser
  import opened SqlRoundTrip
  import opened SqlReading
  import opened SqlMeaning
  import opened SqlUtil

  /** Column `k` identifies the record: the auto-increment column if there is one, else the key column. */
  predicate Identifies(r: Record, k: int) {
    0 <= k && (k == r.autoIncIdx || (r.autoIncIdx < 0 && k == r.keyIdx))
  }

  /** A faithful value whose condition fits the fixed buffer. */
  predicate Reachable(f: Field) {
    FaithfulKey(f.value) && |ConditionText(f)| < FIXED_BUFFER - 1
  }

  lemma IdentifiesKey(r: Record, k: int)
    requires r.WellFormed() && Identifies(r, k)
    ensures !r.KeyRejected() && 0 <= r.KeyIndex() && k < |r.fields|
    ensures r.KeyField() == r.fields[k] && KeyOf(r) == Assign(r.fields[k].name, r.fields[k].value)
  {
    KeyChoice(r);
    KeyRejectedExact(r);
  }

  /**
   Sending an update of a record to a table in which its identifying column is unique: exactly the
   record's changed columns are set, in exactly the row with the record's value in that column.
   */
  method UpdateRecord(r: Record, lm: LongModulus, k: int, t: Table, i: nat) returns (after: Table)
    requires Buildable(r) && NamesAreColumns(r.fields) && Identifies(r, k) && Reachable(r.fields[k])
    requires ChangedFields(r.fields) != [] && Whole(ChangedFields(r.fields))
    requires t.name == r.table && UniqueKey(t, r.fields[k].name)
    requires i < |t.rows| && t.rows[i][r.fields[k].name] == r.fields[k].value
    ensures RecordUpdated(t, i, r.fields, after)
  {
    IdentifiesKey(r, k);
    var ok, sql := BuildUpdateSql(r, lm, "");
    UpdateMeaning(r, lm, t, i);
    after := Execute(t, Parse(sql).value);
  }

  /** Sending a delete: exactly the row with the record's value in its identifying column is gone. */
  method DeleteRecord(r: Record, k: int, t: Table, i: nat) returns (after: Table)
    requires r.WellFormed() && Identifies(r, k) && Reachable(r.fields[k])
    requires 29 + |r.table| + |ConditionText(r.fields[k])| <= 1022
    requires t.name == r.table && UniqueKey(t, r.fields[k].name)
    requires i < |t.rows| && t.rows[i][r.fields[k].name] == r.fields[k].value
    ensures after == t.(rows := t.rows[..i] + t.rows[i + 1..])
  {
    IdentifiesKey(r, k);
    var ok, sql := BuildDelSql(r, "");
    DeleteMeaning(r, t, i);
    after := Execute(t, Parse(sql).value);
  }

  /** Sending an insert: one more row, with exactly the record's changed columns. */
  method InsertRecord(r: Record, lm: LongModulus, k: int, t: Table) returns (after: Table)
    requires Buildable(r) && NamesAreColumns(r.fields) && Identifies(r, k)
    requires ChangedFields(r.fields) != [] && Whole(ChangedFields(r.fields))
    requires t.name == r.table
    ensures RecordInserted(t, ChangedFields(r.fields), after)
  {
    IdentifiesKey(r, k);
    var ok, sql := BuildInsertSql(r, lm, "");
    InsertMeaning(r, lm, t);
    after := Execute(t, Parse(sql).value);
  }
}
