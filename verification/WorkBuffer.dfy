/**
 The single-pass sizing of the work buffer: how large it gets, which columns it covers, and when
 the doubling of a 32-bit length makes it too small.
 */
module WorkBuffer {
  import opened CText
  import opened Escape
  import opened Fields
  import opened SqlText

  /** The length test of the loop applies to a field unless it is a number met with maximum 0. */
  predicate Doubles(max: int, f: Field) {
    !(IsFieldNum(f.typ) && max == 0) && f.len > max % TWO_32
  }

  /** Every length the loop doubles is below 2^30, so that no doubling leaves the sint32 range. */
  predicate DoublingsInRange(fs: seq<Field>) {
    if fs == [] then true
    else
      var init, f := fs[..|fs| - 1], fs[|fs| - 1];
      DoublingsInRange(init) && (Doubles(Sizing(init), f) ==> f.len < TWO_31 / 2)
  }

  /** The running maximum never decreases while the doublings are in range. */
  lemma SizeStepGrows(max: int, f: Field)
    requires 0 <= max < TWO_31 && f.len < TWO_32
    requires Doubles(max, f) ==> f.len < TWO_31 / 2
    ensures max <= SizeStep(max, f) < TWO_31
    ensures max % 2 == 0 ==> SizeStep(max, f) % 2 == 0
    ensures !IsFieldNum(f.typ) ==> f.len <= SizeStep(max, f)
    ensures IsFieldNum(f.typ) && max % 2 == 0 ==> SizeStep(max, f) >= 2
  {
    assert max % TWO_32 == max;
    if Doubles(max, f) {
      SignedStays(2 * f.len, TWO_32);
    }
  }

  lemma {:induction false} SizingCovers(fs: seq<Field>)
    requires forall f :: f in fs ==> f.len < TWO_32
    requires DoublingsInRange(fs)
    ensures 0 <= Sizing(fs) < TWO_31 && Sizing(fs) % 2 == 0
    ensures forall f :: f in fs && !IsFieldNum(f.typ) ==> f.len <= Sizing(fs)
    ensures (exists f :: f in fs && IsFieldNum(f.typ)) ==> Sizing(fs) >= 2
  {
    if fs != [] {
      var init, last := fs[..|fs| - 1], fs[|fs| - 1];
      assert fs == init + [last];
      SizingCovers(init);
      SizeStepGrows(Sizing(init), last);
    }
  }

  /** The running maximum never decreases over the loop. */
  lemma {:induction false} SizingNeverDecreases(fs: seq<Field>, i: nat)
    requires forall f :: f in fs ==> f.len < TWO_32
    requires DoublingsInRange(fs) && i <= |fs|
    ensures Sizing(fs[..i]) <= Sizing(fs)
  {
    if i == |fs| {
      assert fs[..i] == fs;
    } else {
      var init := fs[..|fs| - 1];
      SizingInRange(init);
      SizeStepGrows(Sizing(init), fs[|fs| - 1]);
      SizingNeverDecreases(init, i);
      assert fs[..i] == init[..i];
    }
  }

  /** A column that `max` does not cover and that no later column can make covered. */
  predicate Stranded(max: int, f: Field) {
    !IsFieldNum(f.typ) && (f.len >= TWO_31 || max < 0)
  }

  /** A maximum gone negative compares as a large uint32: only a longer column replaces it. */
  lemma StrandedStays(max: int, f: Field, last: Field)
    requires -TWO_31 <= max < TWO_31 && Stranded(max, f)
    requires last.len < TWO_32 && (IsFieldNum(last.typ) ==> last.len < TWO_31 / 2)
    ensures -TWO_31 <= SizeStep(max, last) < TWO_31
    ensures Stranded(SizeStep(max, last), f) || Stranded(SizeStep(max, last), last)
  {
    if f.len < TWO_31 {
      assert max % TWO_32 == max + TWO_32;
    }
  }

  lemma DoublingStrands(max: int, last: Field)
    requires 0 <= max < TWO_31 && Doubles(max, last) && TWO_31 / 2 <= last.len < TWO_32
    requires !IsFieldNum(last.typ)
    ensures -TWO_31 <= SizeStep(max, last) < TWO_31 && Stranded(SizeStep(max, last), last)
  {
  }

  /** Once a doubling has left the range, some string or blob column stays uncovered for good. */
  lemma {:induction false} SizingNeverRecovers(fs: seq<Field>)
    requires forall f :: f in fs ==> f.len < TWO_32 && (IsFieldNum(f.typ) ==> f.len < TWO_31 / 2)
    requires !DoublingsInRange(fs)
    ensures -TWO_31 <= Sizing(fs) < TWO_31
    ensures exists f :: f in fs && Stranded(Sizing(fs), f)
  {
    var init, last := fs[..|fs| - 1], fs[|fs| - 1];
    assert fs == init + [last];
    if !DoublingsInRange(init) {
      SizingNeverRecovers(init);
      var f :| f in init && Stranded(Sizing(init), f);
      StrandedStays(Sizing(init), f, last);
      assert f in fs && last in fs;
    } else {
      SizingCovers(init);
      DoublingStrands(Sizing(init), last);
      assert last in fs;
    }
  }

  /** The final maximum is at least the length of every string and blob column. */
  predicate Covers(fs: seq<Field>) {
    forall f :: f in fs && !IsFieldNum(f.typ) ==> f.len <= Sizing(fs)
  }

  /**
   The running maximum covers every changed string and blob column if no doubling leaves the
   32-bit range, and, unless a numeric column has a length of 2^30 or more, only if.
   */
  lemma SizingCoversExact(fs: seq<Field>)
    requires forall f :: f in fs ==> f.len < TWO_32
    ensures DoublingsInRange(fs) ==> Covers(fs)
    ensures (forall f :: f in fs && IsFieldNum(f.typ) ==> f.len < TWO_31 / 2) ==>
              (Covers(fs) <==> DoublingsInRange(fs))
  {
    if DoublingsInRange(fs) {
      SizingCovers(fs);
    } else if forall f :: f in fs && IsFieldNum(f.typ) ==> f.len < TWO_31 / 2 {
      SizingNeverRecovers(fs);
      var f :| f in fs && Stranded(Sizing(fs), f);
      assert f.len > Sizing(fs);
    }
  }

  /** A numeric column that wide can wrap a maximum that has wrapped once back over the column it lost. */
  lemma WideNumberRecovers(text: Field, number: Field)
    requires !IsFieldNum(text.typ) && text.len == TWO_31 / 2
    requires IsFieldNum(number.typ) && number.len == TWO_31 + TWO_31 / 4 + 1
    ensures !DoublingsInRange([text, number]) && Covers([text, number])
  {
    OneThenAnother(text, number);
    WrapsDown(text);
    WrapsUp(number);
    assert forall f :: f in [text, number] ==> f == text || f == number;
  }

  lemma OneThenAnother(a: Field, b: Field)
    ensures Sizing([a]) == SizeStep(0, a) && Sizing([a, b]) == SizeStep(SizeStep(0, a), b)
    ensures DoublingsInRange([a, b]) ==> Doubles(0, a) ==> a.len < TWO_31 / 2
  {
    assert [a, b][..1] == [a] && [a][..0] == [];
    assert Sizing([]) == 0;
    assert DoublingsInRange([a, b]) ==> DoublingsInRange([a]);
  }

  lemma WrapsDown(f: Field)
    requires !IsFieldNum(f.typ) && f.len == TWO_31 / 2
    ensures Doubles(0, f) && SizeStep(0, f) == -TWO_31
  {
  }

  lemma WrapsUp(f: Field)
    requires IsFieldNum(f.typ) && f.len == TWO_31 + TWO_31 / 4 + 1
    ensures SizeStep(-TWO_31, f) == TWO_31 / 2 + 2
  {
    assert -TWO_31 % TWO_32 == TWO_31;
  }

  /** Column `i` exceeds the running maximum, and no later column exceeds its double. */
  predicate LastDoubled(fs: seq<Field>, i: int) {
    0 <= i < |fs| && Doubles(Sizing(fs[..i]), fs[i]) && forall j :: i < j < |fs| ==> fs[j].len <= 2 * fs[i].len
  }

  lemma StepStays(max: int, f: Field)
    requires 0 < max < TWO_31 && f.len <= max
    ensures SizeStep(max, f) == max && !Doubles(max, f)
  {
  }

  lemma StepDoubles(max: int, f: Field)
    requires Doubles(max, f) && f.len < TWO_31 / 2
    ensures SizeStep(max, f) == 2 * f.len > 0
  {
    SignedStays(2 * f.len, TWO_32);
  }

  lemma {:induction false} LastDoubledSizing(fs: seq<Field>, i: int)
    requires LastDoubled(fs, i) && fs[i].len < TWO_31 / 2
    ensures Sizing(fs) == 2 * fs[i].len > 0
  {
    var n := |fs| - 1;
    var init := fs[..n];
    if i == n {
      StepDoubles(Sizing(init), fs[n]);
    } else {
      assert init[..i] == fs[..i];
      LastDoubledSizing(init, i);
      StepStays(Sizing(init), fs[n]);
    }
  }

  predicate HasNumber(fs: seq<Field>) {
    exists f :: f in fs && IsFieldNum(f.typ)
  }

  /**
   The closed form of the loop while its doublings are in range: twice the last length that
   exceeded the running maximum; with no such length, 20 if there is a number and 0 if not.
   */
  lemma {:induction false} SizingClosedForm(fs: seq<Field>)
    requires DoublingsInRange(fs)
    ensures (exists i :: LastDoubled(fs, i) && Sizing(fs) == 2 * fs[i].len)
            || Sizing(fs) == if HasNumber(fs) then DEFAULT_NUM_LEN else 0
  {
    if fs != [] {
      var n := |fs| - 1;
      var init, last := fs[..n], fs[n];
      SizingClosedForm(init);
      if Doubles(Sizing(init), last) {
        assert LastDoubled(fs, n);
        LastDoubledSizing(fs, n);
      } else if i :| LastDoubled(init, i) && Sizing(init) == 2 * init[i].len {
        LastDoubledStays(fs, i);
      } else {
        NothingDoubled(fs);
      }
    }
  }

  lemma LastDoubledStays(fs: seq<Field>, i: int)
    requires fs != [] && DoublingsInRange(fs)
    requires var init := fs[..|fs| - 1];
             LastDoubled(init, i) && Sizing(init) == 2 * init[i].len && !Doubles(Sizing(init), fs[|fs| - 1])
    ensures LastDoubled(fs, i) && Sizing(fs) == 2 * fs[i].len
  {
    var init, last := fs[..|fs| - 1], fs[|fs| - 1];
    assert fs[..i] == init[..i];
    SizingInRange(init);
    assert Doubles(Sizing(init[..i]), init[i]) && init[i].len > 0;
    NotDoubled(Sizing(init), last);
    forall j | i < j < |fs| ensures fs[j].len <= 2 * fs[i].len {
      if j < |fs| - 1 {
        assert fs[j] == init[j];
      }
    }
  }

  lemma NotDoubled(max: int, f: Field)
    requires 0 < max < TWO_31 && !Doubles(max, f)
    ensures f.len <= max && SizeStep(max, f) == max
  {
  }

  lemma NothingDoubled(fs: seq<Field>)
    requires fs != []
    requires var init := fs[..|fs| - 1];
             && !Doubles(Sizing(init), fs[|fs| - 1])
             && Sizing(init) == if HasNumber(init) then DEFAULT_NUM_LEN else 0
    ensures Sizing(fs) == if HasNumber(fs) then DEFAULT_NUM_LEN else 0
  {
    var init, last := fs[..|fs| - 1], fs[|fs| - 1];
    assert fs == init + [last];
    if HasNumber(init) {
      var f :| f in init && IsFieldNum(f.typ);
      assert f in fs;
    } else if IsFieldNum(last.typ) {
      assert last in fs;
    }
  }

  lemma {:induction false} SizingInRange(fs: seq<Field>)
    requires DoublingsInRange(fs)
    ensures 0 <= Sizing(fs) < TWO_31
  {
    if fs != [] {
      var init, last := fs[..|fs| - 1], fs[|fs| - 1];
      SizingInRange(init);
      if Doubles(Sizing(init), last) {
        SignedStays(2 * last.len, TWO_32);
      }
    }
  }

  /** With lengths up to 2^30 - 65 the buffer can be allocated and is never wastefully large. */
  lemma {:induction false} SizingBound(fs: seq<Field>, longest: nat)
    requires forall f :: f in fs ==> f.len <= longest
    requires longest <= TWO_31 / 2 - 65
    ensures DoublingsInRange(fs)
    ensures 0 <= Sizing(fs) <= if 2 * longest < 20 then 20 else 2 * longest
    ensures 0 < Sizing(fs) + BUFFER_SLACK < TWO_31
  {
    if fs != [] {
      var init, last := fs[..|fs| - 1], fs[|fs| - 1];
      assert fs == init + [last];
      SizingBound(init, longest);
      StepBound(Sizing(init), last, longest);
    }
  }

  lemma StepBound(max: int, f: Field, longest: nat)
    requires f.len <= longest <= TWO_31 / 2 - 65
    requires 0 <= max <= if 2 * longest < 20 then 20 else 2 * longest
    ensures 0 <= SizeStep(max, f) <= if 2 * longest < 20 then 20 else 2 * longest
  {
    if Doubles(max, f) {
      SignedStays(2 * f.len, TWO_32);
    }
  }

  /** Only a length above the running maximum is doubled, so the result depends on the order. */
  lemma OrderMatters(short: Field, long: Field)
    requires !IsFieldNum(short.typ) && !IsFieldNum(long.typ)
    requires 0 < short.len < long.len <= 2 * short.len && long.len < TWO_31 / 2
    ensures Sizing([short, long]) == 2 * short.len < 2 * long.len == Sizing([long, short])
  {
    SignedStays(2 * short.len, TWO_32);
    SignedStays(2 * long.len, TWO_32);
    assert [short, long][..1] == [short] && [long, short][..1] == [long];
    assert Sizing([]) == 0;
    assert [short][..0] == [] && [long][..0] == [];
    assert Sizing([short]) == 2 * short.len && Sizing([long]) == 2 * long.len;
  }

  /** A field the buffer is meant for: a value within its column and few bytes to escape. */
  predicate Modest(f: Field) {
    match f.value
    case IntVal(_) => |f.name| <= 106
    case StrVal(s) => |s| <= f.len && |f.name| + SpecialCount(s) <= 122
  }

  /** The two bounds leave room for the value beside the slack: its bytes, or 20 digits beside the smallest maximum. */
  lemma ModestMeans(f: Field)
    ensures f.value.StrVal? ==>
              (Modest(f) <==> |f.value.s| <= f.len && AssignLength(f) < |f.value.s| + BUFFER_SLACK)
    ensures f.value.IntVal? ==> (Modest(f) <==> |f.name| + 3 + DEFAULT_NUM_LEN < 2 + BUFFER_SLACK)
  {
  }

  lemma ModestFits(f: Field, max: nat)
    requires Supported(f) && Modest(f)
    requires if IsFieldNum(f.typ) then max >= 2 else max >= f.len
    ensures AssignLength(f) < max + BUFFER_SLACK
    ensures CaseOf(f.typ).BlobCase? ==> FormatSafe(f, max + BUFFER_SLACK)
  {
    AssignTextFacts(f, TWO_64);
  }

  /** Modest fields are formatted whole, in any order, and blobs stay inside the buffer. */
  lemma WorkBufferSuffices(fs: seq<Field>)
    requires forall f :: f in fs ==> Supported(f) && f.len <= TWO_31 / 2 - 65 && Modest(f)
    ensures 0 < Sizing(fs) + BUFFER_SLACK < TWO_31
    ensures Whole(fs)
    ensures forall f :: f in fs && CaseOf(f.typ).BlobCase? ==> FormatSafe(f, Sizing(fs) + BUFFER_SLACK)
  {
    SizingBound(fs, TWO_31 / 2 - 65);
    SizingCovers(fs);
    forall f | f in fs
      ensures AssignLength(f) < Sizing(fs) + BUFFER_SLACK
      ensures CaseOf(f.typ).BlobCase? ==> FormatSafe(f, Sizing(fs) + BUFFER_SLACK)
    {
      ModestFits(f, Sizing(fs));
    }
  }
}
