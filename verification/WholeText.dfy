/**
 When the single-pass work buffer leaves the text whole, for a record, and for a schema with every
 value its columns permit.
 */
module WholeText {
  import opened CText
  import opened Escape
  import opened Fields
  import opened SqlText
  import opened SqlRoundTrip
  import opened WorkBuffer

  /** Conditions a caller can check field by field: no undefined behaviour, and the whole text. */
  lemma ModestRecordsAreWhole(r: Record)
    requires r.WellFormed()
    requires forall f :: f in r.fields && f.changed ==> f.len <= TWO_31 / 2 - 65 && Modest(f)
    requires forall f :: f in r.fields && f.changed && CaseOf(f.typ).TextCase? ==>
               f.value.s == "" || exists i :: 0 <= i < |f.value.s| && !IsSpecial(f.value.s[i])
    ensures Buildable(r) && Whole(ChangedFields(r.fields))
  {
    var fs := ChangedFields(r.fields);
    ChangedFieldsMembers(r.fields);
    WorkBufferSuffices(fs);
    forall f | f in fs ensures FormatSafe(f, Sizing(fs) + BUFFER_SLACK) {
      if CaseOf(f.typ).TextCase? && f.value.s != "" {
        SpecialCountBound(f.value.s);
      }
    }
  }

  // ---------- every value a schema permits ----------

  predicate IsText(f: Field) {
    CaseOf(f.typ).TextCase? || CaseOf(f.typ).BlobCase?
  }

  /** A value within its column, of which a string leaves room in its staging array. */
  predicate Permitted(f: Field) {
    && Supported(f)
    && (f.value.StrVal? ==> |f.value.s| <= f.len)
    && (CaseOf(f.typ).TextCase? ==> f.value.s == "" || SpecialCount(f.value.s) < |f.value.s|)
  }

  /** The columns of `fs` with permitted values in them. */
  predicate Filled(fs: seq<Field>, gs: seq<Field>) {
    |gs| == |fs| && forall i :: 0 <= i < |fs| ==> Refilled(fs[i], gs[i]) && Permitted(gs[i])
  }

  predicate Refilled(f: Field, g: Field) {
    g == f.(value := g.value)
  }

  predicate TextsWhole(gs: seq<Field>) {
    forall g :: g in gs && IsText(g) ==> AssignLength(g) < Sizing(gs) + BUFFER_SLACK
  }

  /** Whatever permitted values the columns hold, every string and blob is formatted whole. */
  ghost predicate AlwaysWhole(fs: seq<Field>) {
    forall gs :: Filled(fs, gs) ==> TextsWhole(gs)
  }

  /** The longest assignment a column permits: all bytes escaped, but for one of a string. */
  function WorstLength(f: Field): nat {
    |f.name| + 5
    + if f.len == 0 then 0 else if CaseOf(f.typ).BlobCase? then 2 * f.len else 2 * f.len - 1
  }

  function Quotes(n: nat): string {
    if n == 0 then "" else "'" + Quotes(n - 1)
  }

  lemma {:induction false} QuotesCount(n: nat, tail: string)
    ensures |Quotes(n)| == n && SpecialCount(Quotes(n) + tail) == n + SpecialCount(tail)
  {
    if n > 0 {
      QuotesCount(n - 1, tail);
      assert (Quotes(n) + tail)[1..] == Quotes(n - 1) + tail;
    } else {
      assert Quotes(0) + tail == tail;
    }
  }

  function WorstValue(f: Field): string {
    if f.len == 0 then "" else if CaseOf(f.typ).BlobCase? then Quotes(f.len) + "" else Quotes(f.len - 1) + "x"
  }

  lemma WorstReached(f: Field)
    requires Supported(f) && IsText(f)
    ensures var worst := f.(value := StrVal(WorstValue(f)));
            Permitted(worst) && AssignLength(worst) == WorstLength(f)
  {
    if f.len > 0 {
      QuotesCount(f.len, "");
      QuotesCount(f.len - 1, "x");
      assert "x"[1..] == "" && SpecialCount("x") == 0;
    }
  }

  lemma WorstBounds(f: Field, g: Field)
    requires Refilled(f, g) && Permitted(g) && IsText(g)
    ensures AssignLength(g) <= WorstLength(f)
  {
    SpecialCountBound(g.value.s);
  }

  lemma {:induction false} SizingOfColumns(fs: seq<Field>, gs: seq<Field>)
    requires |gs| == |fs| && forall i :: 0 <= i < |fs| ==> Refilled(fs[i], gs[i])
    ensures Sizing(gs) == Sizing(fs)
  {
    if fs != [] {
      SizingOfColumns(fs[..|fs| - 1], gs[..|fs| - 1]);
      assert Refilled(fs[|fs| - 1], gs[|fs| - 1]);
    }
  }

  /** Permitted values everywhere, and the longest in column `i`. */
  function WorstFill(fs: seq<Field>, i: nat): (gs: seq<Field>)
    requires i < |fs|
    ensures |gs| == |fs|
  {
    seq(|fs|, j requires 0 <= j < |fs| =>
      if j == i then fs[j].(value := StrVal(WorstValue(fs[j])))
      else if IsText(fs[j]) then fs[j].(value := StrVal(""))
      else fs[j])
  }

  lemma WorstFillFacts(fs: seq<Field>, i: nat)
    requires (forall f :: f in fs ==> Supported(f)) && i < |fs| && IsText(fs[i])
    ensures Filled(fs, WorstFill(fs, i))
    ensures AssignLength(WorstFill(fs, i)[i]) == WorstLength(fs[i])
  {
    var gs := WorstFill(fs, i);
    WorstReached(fs[i]);
    forall j | 0 <= j < |fs| ensures Refilled(fs[j], gs[j]) && Permitted(gs[j]) {
      assert Supported(fs[j]);
    }
  }

  /**
   When a schema is safe: every permitted value of every string and blob column is formatted whole
   if and only if each column's longest assignment is shorter than the buffer.
   */
  lemma SchemaWholeExact(fs: seq<Field>)
    requires forall f :: f in fs ==> Supported(f)
    ensures AlwaysWhole(fs) <==> forall f :: f in fs && IsText(f) ==> WorstLength(f) < Sizing(fs) + BUFFER_SLACK
  {
    if f :| f in fs && IsText(f) && WorstLength(f) >= Sizing(fs) + BUFFER_SLACK {
      var i :| 0 <= i < |fs| && fs[i] == f;
      var gs := WorstFill(fs, i);
      WorstFillFacts(fs, i);
      SizingOfColumns(fs, gs);
      assert gs[i] in gs && IsText(gs[i]) && !TextsWhole(gs);
    } else {
      forall gs | Filled(fs, gs) ensures TextsWhole(gs) {
        SizingOfColumns(fs, gs);
        forall g | g in gs && IsText(g) ensures AssignLength(g) < Sizing(gs) + BUFFER_SLACK {
          var i :| 0 <= i < |gs| && gs[i] == g;
          WorstBounds(fs[i], g);
          assert fs[i] in fs && IsText(fs[i]);
        }
      }
    }
  }

  /** A schema in which no column exceeds the running maximum: the bound is 148 with a number, 128 without. */
  lemma SchemaWholeNoneDoubled(fs: seq<Field>)
    requires (forall f :: f in fs ==> Supported(f)) && DoublingsInRange(fs)
    requires forall i :: !LastDoubled(fs, i)
    ensures AlwaysWhole(fs)
            <==> forall f :: f in fs && IsText(f) ==> WorstLength(f) < if HasNumber(fs) then 148 else 128
  {
    SizingClosedForm(fs);
    SchemaWholeExact(fs);
  }

  /**
   Otherwise, with column `i` the last to exceed the running maximum, the schema is safe if and only
   if no column's longest assignment reaches twice that column's length plus 128.
   */
  lemma SchemaWholeByLengths(fs: seq<Field>, i: int)
    requires (forall f :: f in fs ==> Supported(f)) && LastDoubled(fs, i) && fs[i].len < TWO_31 / 2
    ensures AlwaysWhole(fs) <==> forall f :: f in fs && IsText(f) ==> WorstLength(f) < 2 * fs[i].len + BUFFER_SLACK
  {
    LastDoubledSizing(fs, i);
    SchemaWholeExact(fs);
  }

  // ---------- where it is cut ----------

  /** A longer second column is not doubled; a text of more than the buffer is cut. */
  lemma SecondColumnCut(a: Field, b: Field, lm: LongModulus)
    requires Supported(a) && Supported(b) && CaseOf(a.typ).TextCase? && CaseOf(b.typ).TextCase?
    requires 0 < a.len < b.len <= 2 * a.len && b.len < TWO_31 / 8
    requires FormatSafe(a, 1) && FormatSafe(b, 1) && AssignLength(b) >= 2 * a.len + BUFFER_SLACK
    ensures Workable([a, b]) && OperationText([a, b], lm) != Join(Texts([a, b], lm))
  {
    OrderMatters(a, b);
    OperationWholeExact([a, b], lm);
    assert b in [a, b];
  }

  /**
   The single pass is not always enough: after a changed column of length `n` a column of length
   2n is not doubled, and a value of 2n bytes, all but one of them quotes, is cut.
   */
  lemma SizingCanCut(n: nat, lm: LongModulus)
    requires 62 <= n < TWO_31 / 16
    ensures var a := Field("a", String, false, n, true, StrVal(""));
            var b := Field("b", String, false, 2 * n, true, StrVal(Quotes(2 * n - 1) + "x"));
            && Supported(a) && Supported(b) && |b.value.s| == b.len && Workable([a, b])
            && OperationText([a, b], lm) != Join(Texts([a, b], lm))
  {
    var a := Field("a", String, false, n, true, StrVal(""));
    var b := Field("b", String, false, 2 * n, true, StrVal(Quotes(2 * n - 1) + "x"));
    QuotesCount(2 * n - 1, "x");
    assert "x"[1..] == "" && SpecialCount("x") == 0;
    EscapeTextFacts(b.value.s);
    AssignTextFacts(b, lm);
    SecondColumnCut(a, b, lm);
  }

  /**
   The largest column length doubles to -2 in 32 bits: the buffer has 126 bytes, and writing the
   blob is defined exactly when it fits there.
   */
  lemma LongBlobBuffer(f: Field)
    requires Supported(f) && f.typ.LongBlob? && f.len == TWO_32 - 1
    ensures Sizing([f]) + BUFFER_SLACK == 126
    ensures Workable([f]) <==> |f.name| + 6 + |EscapeText(f.value.s)| <= 126
  {
    assert [f][..0] == [] && Sizing([]) == 0;
    assert f in [f];
    EscapeTextFacts(f.value.s);
  }
}
