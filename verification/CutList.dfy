/**
 What an assignment list that the work buffer has cut reads as: never the changed fields.  A cut
 that takes a string's closing quote, or a name's closing backtick, leaves too few of them for any
 reading, however the pieces are joined; a number that lost digits reads as another number.
 */
module CutList {
  import opened CText
  import opened Escape
  import opened Fields
  import opened SqlText
  import opened SqlParser
  import opened SqlRoundTrip
  import opened SqlReading

  /** The two bytes that are counted. */
  type Mark = c: char | c == '\'' || c == '`' witness '`'

  function Count(c: char, s: string): nat {
    if s == "" then 0 else (if s[0] == c then 1 else 0) + Count(c, s[1..])
  }

  lemma {:induction false} CountAppend(c: char, a: string, b: string)
    ensures Count(c, a + b) == Count(c, a) + Count(c, b)
  {
    if a == "" {
      assert a + b == b;
    } else {
      assert (a + b)[1..] == a[1..] + b;
      CountAppend(c, a[1..], b);
    }
  }

  lemma {:induction false} CountNone(c: char, s: string)
    requires c !in s
    ensures Count(c, s) == 0
  {
    if s != "" {
      CountNone(c, s[1..]);
    }
  }

  lemma CountCut(c: char, s: string, k: nat)
    requires k <= |s|
    ensures Count(c, s) == Count(c, s[..k]) + Count(c, s[k..])
  {
    assert s == s[..k] + s[k..];
    CountAppend(c, s[..k], s[k..]);
  }

  // ---------- what a reading needs ----------

  /** The marks any text of this assignment has: its name's backticks, its literal's quotes, its bytes. */
  function Need(c: Mark, a: Assign): nat {
    Count(c, a.name) + (if c == '`' then 2 else 0) + ValueNeed(c, a.value)
  }

  function ValueNeed(c: Mark, v: Value): nat {
    match v
    case IntVal(_) => 0
    case StrVal(s) => Count(c, s) + if c == '\'' then 2 else 0
  }

  function NeedAll(c: Mark, assigns: seq<Assign>): nat {
    if assigns == [] then 0 else Need(c, assigns[0]) + NeedAll(c, assigns[1..])
  }

  lemma UnescapeCount(c: Mark, letter: char)
    ensures Count(c, Unescape(letter)) <= Count(c, [letter])
  {
    assert [letter][1..] == "";
    if letter == c {
      assert Unescape(letter) == [letter];
    } else {
      CountNone(c, Unescape(letter));
    }
  }

  lemma {:induction false} QuotedNeeds(c: Mark, s: string)
    requires ScanQuoted(s).Some?
    ensures QuotedHas(c, s, ScanQuoted(s).value.0, ScanQuoted(s).value.1)
  {
    if s[0] == '\'' && (|s| == 1 || s[1] != '\'') {
    } else if s[0] == '\'' {
      QuotedNeeds(c, s[2..]);
      assert s[1..2] == "'";
      PairNeeds(c, s, "'");
    } else if s[0] == '\\' {
      QuotedNeeds(c, s[2..]);
      UnescapeCount(c, s[1]);
      assert s[1..2] == [s[1]];
      PairNeeds(c, s, Unescape(s[1]));
    } else {
      QuotedNeeds(c, s[1..]);
      CountAppend(c, [s[0]], ScanQuoted(s[1..]).value.0);
      assert [s[0]][1..] == "";
    }
  }

  predicate QuotedHas(c: Mark, s: string, value: string, rest: string) {
    Count(c, s) >= Count(c, value) + (if c == '\'' then 1 else 0) + Count(c, rest)
  }

  /** Two bytes of text that stand for `value`, before the rest of the string. */
  lemma PairNeeds(c: Mark, s: string, value: string)
    requires |s| >= 2 && ScanQuoted(s[2..]).Some? && Count(c, value) <= Count(c, s[1..2])
    requires QuotedHas(c, s[2..], ScanQuoted(s[2..]).value.0, ScanQuoted(s[2..]).value.1)
    ensures QuotedHas(c, s, value + ScanQuoted(s[2..]).value.0, ScanQuoted(s[2..]).value.1)
  {
    CountCut(c, s, 1);
    CountCut(c, s[1..], 1);
    assert s[1..][..1] == s[1..2] && s[1..][1..] == s[2..];
    CountAppend(c, value, ScanQuoted(s[2..]).value.0);
  }

  lemma LiteralNeeds(c: Mark, s: string)
    requires ScanLiteral(s).Some?
    ensures Count(c, s) >= ValueNeed(c, ScanLiteral(s).value.0) + Count(c, ScanLiteral(s).value.1)
  {
    var rest := ScanLiteral(s).value.1;
    if s != "" && s[0] == '\'' {
      QuotedNeeds(c, s[1..]);
    } else {
      assert rest == s[|s| - |rest|..];
      CountCut(c, s, |s| - |rest|);
    }
  }

  lemma {:induction false} NameNeeds(c: Mark, s: string)
    requires ScanToBacktick(s).Some?
    ensures var (name, rest) := ScanToBacktick(s).value;
            Count(c, s) == Count(c, name) + (if c == '`' then 1 else 0) + Count(c, rest)
  {
    if s[0] != '`' {
      NameNeeds(c, s[1..]);
      CountAppend(c, [s[0]], ScanToBacktick(s[1..]).value.0);
      assert [s[0]][1..] == "";
    }
  }

  /** Whatever text reads as an assignment has at least the assignment's marks. */
  lemma AssignNeeds(c: Mark, s: string)
    requires ScanAssign(s).Some?
    ensures Count(c, s) >= Need(c, ScanAssign(s).value.0) + Count(c, ScanAssign(s).value.1)
  {
    NameNeeds(c, s[1..]);
    var afterName := ScanToBacktick(s[1..]).value.1;
    CountCut(c, afterName, 1);
    LiteralNeeds(c, afterName[1..]);
  }

  lemma {:induction false} AssignsNeed(c: Mark, s: string)
    requires ScanAssigns(s).Some?
    ensures Count(c, s) >= NeedAll(c, ScanAssigns(s).value.0) + Count(c, ScanAssigns(s).value.1)
    decreases |s|
  {
    AssignNeeds(c, s);
    var (first, rest) := ScanAssign(s).value;
    if rest != "" && rest[0] == ',' {
      AssignsNeed(c, rest[1..]);
      var others := ScanAssigns(rest[1..]).value.0;
      assert ([first] + others)[1..] == others;
    } else {
      assert [first][1..] == [];
    }
  }

  // ---------- what the printed text has ----------

  lemma {:induction false} EscapeCount(c: Mark, s: string)
    ensures Count(c, EscapeText(s)) == Count(c, s)
  {
    if s != "" {
      EscapeCount(c, s[1..]);
      CountAppend(c, EscapeChar(s[0]), EscapeText(s[1..]));
      if IsSpecial(s[0]) {
        assert EscapeChar(s[0])[1..] == [EscapeLetter(s[0])] && [EscapeLetter(s[0])][1..] == "";
      } else {
        assert EscapeChar(s[0])[1..] == "";
      }
    }
  }

  lemma HeadCount(c: Mark, name: string)
    ensures Count(c, "`" + name + "`=") == Count(c, name) + if c == '`' then 2 else 0
  {
    CountAppend(c, "`" + name, "`=");
    CountAppend(c, "`", name);
    assert "`="[1..] == "=" && "="[1..] == "" && "`"[1..] == "";
  }

  /** A whole assignment has exactly the marks it needs. */
  lemma TextCount(c: Mark, f: Field, lm: LongModulus)
    requires Supported(f)
    ensures Count(c, AssignText(f, lm)) == Need(c, Assign(f.name, f.value))
  {
    HeadCount(c, f.name);
    CountAppend(c, "`" + f.name + "`=", LiteralText(f, lm));
    match f.value {
      case IntVal(i) =>
        IntegerFidelity(f.typ, f.unsigned, lm, i, "");
        NumberCount(c, i);
      case StrVal(s) =>
        QuotedCount(c, EscapeText(s));
        EscapeCount(c, s);
    }
  }

  lemma QuotedCount(c: Mark, s: string)
    ensures Count(c, "'" + s + "'") == Count(c, s) + if c == '\'' then 2 else 0
  {
    CountAppend(c, "'" + s, "'");
    CountAppend(c, "'", s);
    assert "'"[1..] == "";
  }

  lemma NumberCount(c: Mark, n: int)
    ensures Count(c, Dec(n)) == 0
  {
    DecNatDigits(if n < 0 then -n else n);
    CountNone(c, Dec(n));
  }

  // ---------- what a cut takes ----------

  /** The cut takes a mark: a string's closing quote, or the closing backtick of the name. */
  predicate LosesMark(c: Mark, f: Field, size: nat) {
    && AssignLength(f) >= size
    && if c == '\'' then f.value.StrVal? else size < |f.name| + 3
  }

  lemma CutCount(c: Mark, f: Field, lm: LongModulus, size: nat)
    requires Supported(f) && size > 0
    ensures Count(c, Truncate(AssignText(f, lm), size)) <= Need(c, Assign(f.name, f.value))
    ensures LosesMark(c, f, size) ==> Count(c, Truncate(AssignText(f, lm), size)) < Need(c, Assign(f.name, f.value))
  {
    TextCount(c, f, lm);
    AssignTextFacts(f, lm);
    TruncateCount(c, AssignText(f, lm), size);
    if LosesMark(c, f, size) {
      var i := MarkPlace(c, f, lm);
      TruncateLoses(c, AssignText(f, lm), size, i);
    }
  }

  lemma TruncateCount(c: Mark, text: string, size: nat)
    requires size > 0
    ensures Count(c, Truncate(text, size)) <= Count(c, text)
  {
    if |text| >= size {
      CountCut(c, text, size - 1);
    }
  }

  lemma TruncateLoses(c: Mark, text: string, size: nat, i: nat)
    requires 0 < size <= |text| && size - 1 <= i < |text| && text[i] == c
    ensures Count(c, Truncate(text, size)) < Count(c, text)
  {
    CountCut(c, text, size - 1);
    CountCut(c, text[size - 1..], i - (size - 1));
    assert text[size - 1..][i - (size - 1)..][0] == c;
  }

  /** Where the closing quote of a string's assignment is, or the closing backtick of its name. */
  lemma MarkPlace(c: Mark, f: Field, lm: LongModulus) returns (i: nat)
    requires Supported(f) && (c == '\'' ==> f.value.StrVal?)
    ensures i < |AssignText(f, lm)| && AssignText(f, lm)[i] == c
    ensures i == if c == '\'' then AssignLength(f) - 1 else |f.name| + 1
  {
    var head, literal := "`" + f.name + "`=", LiteralText(f, lm);
    AssignTextFacts(f, lm);
    assert AssignText(f, lm) == head + literal;
    if c == '\'' {
      i := |head + literal| - 1;
      assert literal[|literal| - 1] == '\'';
    } else {
      i := |f.name| + 1;
      assert head[i] == '`';
    }
  }

  lemma {:induction false} JoinCount(c: Mark, texts: seq<string>)
    ensures Count(c, Join(texts)) == TotalCount(c, texts)
  {
    if |texts| == 1 {
      assert texts[1..] == [];
    } else if |texts| > 1 {
      JoinCount(c, texts[1..]);
      CountAppend(c, texts[0] + ",", Join(texts[1..]));
      CountAppend(c, texts[0], ",");
      assert ","[1..] == "";
    }
  }

  function TotalCount(c: Mark, texts: seq<string>): nat {
    if texts == [] then 0 else Count(c, texts[0]) + TotalCount(c, texts[1..])
  }

  lemma {:induction false} NeedAllCons(c: Mark, fs: seq<Field>)
    requires fs != []
    ensures NeedAll(c, AssignsOf(fs)) == Need(c, Assign(fs[0].name, fs[0].value)) + NeedAll(c, AssignsOf(fs[1..]))
  {
    assert AssignsOf(fs)[1..] == AssignsOf(fs[1..]);
  }

  lemma {:induction false} TotalCountCons(c: Mark, fs: seq<Field>, lm: LongModulus, size: nat)
    requires fs != [] && size > 0
    ensures TotalCount(c, CutTexts(fs, lm, size))
            == Count(c, Truncate(AssignText(fs[0], lm), size)) + TotalCount(c, CutTexts(fs[1..], lm, size))
  {
    assert CutTexts(fs, lm, size)[1..] == CutTexts(fs[1..], lm, size);
  }

  lemma {:induction false} CutListAtMost(c: Mark, fs: seq<Field>, lm: LongModulus, size: nat)
    requires size > 0 && forall f :: f in fs ==> Supported(f)
    ensures TotalCount(c, CutTexts(fs, lm, size)) <= NeedAll(c, AssignsOf(fs))
  {
    if fs != [] {
      CutCount(c, fs[0], lm, size);
      CutListAtMost(c, fs[1..], lm, size);
      NeedAllCons(c, fs);
      TotalCountCons(c, fs, lm, size);
    }
  }

  lemma {:induction false} CutListLess(c: Mark, fs: seq<Field>, lm: LongModulus, size: nat, i: nat)
    requires size > 0 && forall f :: f in fs ==> Supported(f)
    requires i < |fs| && LosesMark(c, fs[i], size)
    ensures TotalCount(c, CutTexts(fs, lm, size)) < NeedAll(c, AssignsOf(fs))
  {
    if i == 0 {
      CutFirstLess(c, fs, lm, size);
    } else {
      CutListLess(c, fs[1..], lm, size, i - 1);
      CutRestLess(c, fs, lm, size);
    }
  }

  lemma {:induction false} CutFirstLess(c: Mark, fs: seq<Field>, lm: LongModulus, size: nat)
    requires size > 0 && fs != [] && (forall f :: f in fs ==> Supported(f)) && LosesMark(c, fs[0], size)
    ensures TotalCount(c, CutTexts(fs, lm, size)) < NeedAll(c, AssignsOf(fs))
  {
    CutCount(c, fs[0], lm, size);
    CutListAtMost(c, fs[1..], lm, size);
    NeedAllCons(c, fs);
    TotalCountCons(c, fs, lm, size);
  }

  lemma {:induction false} CutRestLess(c: Mark, fs: seq<Field>, lm: LongModulus, size: nat)
    requires size > 0 && fs != [] && Supported(fs[0])
    requires TotalCount(c, CutTexts(fs[1..], lm, size)) < NeedAll(c, AssignsOf(fs[1..]))
    ensures TotalCount(c, CutTexts(fs, lm, size)) < NeedAll(c, AssignsOf(fs))
  {
    CutCount(c, fs[0], lm, size);
    NeedAllCons(c, fs);
    TotalCountCons(c, fs, lm, size);
  }

  // ---------- cut numbers ----------

  /** Whole, or a number cut behind the backticks of its name. */
  predicate WholeOrNumber(f: Field, size: nat) {
    AssignLength(f) < size || (f.value.IntVal? && size >= |f.name| + 3)
  }

  predicate AllWholeOrNumber(fs: seq<Field>, size: nat) {
    fs == [] || (Supported(fs[0]) && WholeOrNumber(fs[0], size) && AllWholeOrNumber(fs[1..], size))
  }

  lemma {:induction false} AllAreWholeOrNumber(fs: seq<Field>, size: nat)
    requires forall j :: 0 <= j < |fs| ==> Supported(fs[j]) && WholeOrNumber(fs[j], size)
    ensures AllWholeOrNumber(fs, size)
  {
    if fs != [] {
      AllAreWholeOrNumber(fs[1..], size);
    }
  }

  predicate Ends(rest: string) {
    rest == "" || rest[0] == ' ' || rest[0] == ','
  }

  lemma CutNumberDiffers(f: Field, lm: LongModulus, size: nat, rest: string)
    requires Supported(f) && size > 0 && WholeOrNumber(f, size) && AssignLength(f) >= size && Ends(rest)
    ensures var scan := ScanAssign(Truncate(AssignText(f, lm), size) + rest);
            scan.Some? ==> scan.value.0 != Assign(f.name, f.value)
  {
    NumberText(f, lm);
    CutNumberTextDiffers(f.name, f.value.i, size - 1, rest);
  }

  lemma NumberText(f: Field, lm: LongModulus)
    requires Supported(f) && f.value.IntVal?
    ensures AssignText(f, lm) == "`" + f.name + "`=" + Dec(f.value.i)
  {
    IntegerFidelity(f.typ, f.unsigned, lm, f.value.i, "");
  }

  lemma CutNumberTextDiffers(name: string, n: int, k: nat, rest: string)
    requires '`' !in name && |name| + 2 <= k < |name| + 3 + |Dec(n)| && Ends(rest)
    ensures var scan := ScanAssign(("`" + name + "`=" + Dec(n))[..k] + rest);
            scan.Some? ==> scan.value.0 != Assign(name, IntVal(n))
  {
    var head, kept := "`" + name + "`=", k - |name| - 3;
    if kept < 0 {
      assert (head + Dec(n))[..k] == head[..|name| + 2];
      NameWithoutEquals(name, rest);
    } else {
      assert (head + Dec(n))[..k] + rest == head + (Dec(n)[..kept] + rest);
      ScanAssignHead(name, Dec(n)[..kept] + rest);
      CutDigitsDiffer(n, kept, rest);
    }
  }

  lemma NameWithoutEquals(name: string, rest: string)
    requires '`' !in name && Ends(rest)
    ensures ScanAssign(("`" + name + "`=")[..|name| + 2] + rest) == None
  {
    var s := ("`" + name + "`=")[..|name| + 2] + rest;
    assert s[1..] == name + "`" + rest;
    ScanToBacktickFound(name, rest);
  }

  lemma CutDigitsDiffer(n: int, kept: nat, rest: string)
    requires kept < |Dec(n)| && Ends(rest)
    ensures var scan := ScanLiteral(Dec(n)[..kept] + rest); scan.Some? ==> scan.value.0 != IntVal(n)
  {
    var cut := Dec(n)[..kept] + rest;
    DecPrefixScan(n, kept, rest);
    DecPrefixValue(n, kept);
    if kept > 0 {
      DecRoundTrip(n, "");
      assert cut[0] == Dec(n)[0];
    }
  }

  /** The cut list and what follows it, from the front. */
  function ListText(fs: seq<Field>, lm: LongModulus, size: nat, rest: string): string
    requires fs != [] && size > 0
    decreases |fs|, 1
  {
    Truncate(AssignText(fs[0], lm), size) + Tail(fs, lm, size, rest)
  }

  function Tail(fs: seq<Field>, lm: LongModulus, size: nat, rest: string): string
    requires fs != [] && size > 0
    decreases |fs|, 0
  {
    if |fs| == 1 then rest else "," + ListText(fs[1..], lm, size, rest)
  }

  lemma {:induction false} ListTextIs(fs: seq<Field>, lm: LongModulus, size: nat, rest: string)
    requires fs != [] && size > 0
    ensures Join(CutTexts(fs, lm, size)) + rest == ListText(fs, lm, size, rest)
  {
    if |fs| > 1 {
      ListTextIs(fs[1..], lm, size, rest);
      assert CutTexts(fs, lm, size)[1..] == CutTexts(fs[1..], lm, size);
      Regroup(Truncate(AssignText(fs[0], lm), size), ",", Join(CutTexts(fs[1..], lm, size)), rest);
    }
  }

  /** Up to the first cut number the list reads as it should, and there it does not. */
  lemma {:induction false} CutNumbersDiffer(fs: seq<Field>, lm: LongModulus, size: nat, rest: string, i: nat)
    requires size > 0 && (rest == "" || rest[0] == ' ') && AllWholeOrNumber(fs, size)
    requires i < |fs| && AssignLength(fs[i]) >= size
    ensures ReadsOther(ListText(fs, lm, size, rest), AssignsOf(fs))
  {
    if AssignLength(fs[0]) >= size {
      FirstNumberDiffers(fs, lm, size, Tail(fs, lm, size, rest));
    } else {
      assert fs[1..][i - 1] == fs[i];
      CutNumbersDiffer(fs[1..], lm, size, rest, i - 1);
      FirstReadsOthersDiffer(fs, lm, size, ListText(fs[1..], lm, size, rest));
    }
  }

  lemma {:induction false} FirstNumberDiffers(fs: seq<Field>, lm: LongModulus, size: nat, tail: string)
    requires fs != [] && size > 0 && Supported(fs[0]) && WholeOrNumber(fs[0], size) && AssignLength(fs[0]) >= size
    requires Ends(tail)
    ensures ReadsOther(Truncate(AssignText(fs[0], lm), size) + tail, AssignsOf(fs))
  {
    CutNumberDiffers(fs[0], lm, size, tail);
    FirstDiffers(Truncate(AssignText(fs[0], lm), size) + tail, Assign(fs[0].name, fs[0].value), AssignsOf(fs[1..]));
    assert AssignsOf(fs) == [Assign(fs[0].name, fs[0].value)] + AssignsOf(fs[1..]);
  }

  lemma {:induction false} FirstReadsOthersDiffer(fs: seq<Field>, lm: LongModulus, size: nat, others: string)
    requires fs != [] && size > 0 && Supported(fs[0]) && AssignLength(fs[0]) < size
    requires ReadsOther(others, AssignsOf(fs[1..]))
    ensures ReadsOther(Truncate(AssignText(fs[0], lm), size) + ("," + others), AssignsOf(fs))
  {
    var tail := "," + others;
    assert tail[1..] == others;
    AssignTextFacts(fs[0], lm);
    AssignRoundTrip(fs[0], lm, tail);
    OthersDiffer(AssignText(fs[0], lm) + tail, Assign(fs[0].name, fs[0].value), tail, AssignsOf(fs[1..]));
    assert AssignsOf(fs) == [Assign(fs[0].name, fs[0].value)] + AssignsOf(fs[1..]);
  }

  /** The text does not read as these assignments, whatever would follow them. */
  predicate ReadsOther(text: string, assigns: seq<Assign>) {
    ScanAssigns(text).Some? ==> ScanAssigns(text).value.0 != assigns
  }

  lemma FirstDiffers(text: string, a: Assign, others: seq<Assign>)
    requires ScanAssign(text).Some? ==> ScanAssign(text).value.0 != a
    ensures ReadsOther(text, [a] + others)
  {
    if ScanAssigns(text).Some? {
      assert ScanAssigns(text).value.0[0] == ScanAssign(text).value.0;
    }
  }

  lemma OthersDiffer(text: string, a: Assign, tail: string, others: seq<Assign>)
    requires ScanAssign(text) == Some((a, tail)) && tail != "" && tail[0] == ','
    requires ReadsOther(tail[1..], others)
    ensures ReadsOther(text, [a] + others)
  {
    if ScanAssigns(text).Some? {
      var got := ScanAssigns(tail[1..]).value.0;
      assert ([a] + got)[1..] == got && ([a] + others)[1..] == others;
    }
  }

  // ---------- the list ----------

  /**
   A cut list never reads as the changed fields before a text that has as many quotes and backticks
   as what followed the list.
   */
  lemma CutListReads(fs: seq<Field>, lm: LongModulus, rest: string)
    requires fs != [] && (forall f :: f in fs ==> Supported(f)) && Workable(fs) && !Whole(fs)
    requires rest == "" || rest[0] == ' '
    ensures var scan := ScanAssigns(OperationText(fs, lm) + rest);
            scan.Some? && scan.value.0 == AssignsOf(fs) ==>
              Count('\'', scan.value.1) < Count('\'', rest) || Count('`', scan.value.1) < Count('`', rest)
  {
    var size := Sizing(fs) + BUFFER_SLACK;
    if i :| 0 <= i < |fs| && LosesMark('\'', fs[i], size) {
      MarksMissing('\'', fs, lm, rest, i);
    } else if i :| 0 <= i < |fs| && LosesMark('`', fs[i], size) {
      MarksMissing('`', fs, lm, rest, i);
    } else {
      var i := OnlyNumbersCut(fs, size);
      CutNumbersDiffer(fs, lm, size, rest, i);
      ListTextIs(fs, lm, size, rest);
    }
  }

  lemma OnlyNumbersCut(fs: seq<Field>, size: nat) returns (i: nat)
    requires forall f :: f in fs ==> Supported(f)
    requires exists f :: f in fs && AssignLength(f) >= size
    requires forall c: Mark, j :: 0 <= j < |fs| ==> !LosesMark(c, fs[j], size)
    ensures i < |fs| && AssignLength(fs[i]) >= size
    ensures AllWholeOrNumber(fs, size)
  {
    var f :| f in fs && AssignLength(f) >= size;
    i :| i < |fs| && fs[i] == f;
    forall j | 0 <= j < |fs| ensures WholeOrNumber(fs[j], size) {
      assert !LosesMark('\'', fs[j], size) && !LosesMark('`', fs[j], size);
    }
    AllAreWholeOrNumber(fs, size);
  }

  lemma MarksMissing(c: Mark, fs: seq<Field>, lm: LongModulus, rest: string, i: nat)
    requires fs != [] && (forall f :: f in fs ==> Supported(f)) && Workable(fs)
    requires i < |fs| && LosesMark(c, fs[i], Sizing(fs) + BUFFER_SLACK)
    ensures var scan := ScanAssigns(OperationText(fs, lm) + rest);
            scan.Some? && scan.value.0 == AssignsOf(fs) ==> Count(c, scan.value.1) < Count(c, rest)
  {
    var size := Sizing(fs) + BUFFER_SLACK;
    CutListLess(c, fs, lm, size, i);
    JoinCount(c, CutTexts(fs, lm, size));
    CountAppend(c, OperationText(fs, lm), rest);
    if ScanAssigns(OperationText(fs, lm) + rest).Some? {
      AssignsNeed(c, OperationText(fs, lm) + rest);
    }
  }

  /** The operation text parses back to the changed fields if and only if nothing of it was cut. */
  lemma OperationReadsExact(fs: seq<Field>, lm: LongModulus)
    requires fs != [] && (forall f :: f in fs ==> Supported(f)) && Workable(fs)
    ensures ParseAssigns(OperationText(fs, lm)) == Some(AssignsOf(fs)) <==> Whole(fs)
  {
    if Whole(fs) {
      OperationRoundTrip(fs, lm);
    } else {
      CutListReads(fs, lm, "");
      assert OperationText(fs, lm) + "" == OperationText(fs, lm);
    }
  }

  // ---------- the statements ----------

  /** The insert is the intended statement if and only if no assignment was cut. */
  lemma InsertTextMeansExact(r: Record, lm: LongModulus)
    requires Buildable(r) && ChangedFields(r.fields) != []
    ensures Parse(InsertText(r.table, OperationText(ChangedFields(r.fields), lm)))
            == Some(Insert(r.table, AssignsOf(ChangedFields(r.fields))))
            <==> Whole(ChangedFields(r.fields))
  {
    ChangedFieldsSupported(r);
    OperationReadsExact(ChangedFields(r.fields), lm);
    ParseInsertText(r.table, OperationText(ChangedFields(r.fields), lm));
  }

  /** The WHERE part of a record has no more marks than the intended condition needs. */
  lemma WhereCount(c: Mark, r: Record)
    requires r.WellFormed() && !r.KeyRejected() && 0 <= r.KeyIndex()
    ensures Count(c, WhereText(Condition(r))) <= Need(c, KeyOf(r))
  {
    var f := r.KeyField();
    CountNone(c, " where ");
    CountNone(c, " limit 1");
    CountAppend(c, " where ", Condition(r) + " limit 1");
    CountAppend(c, Condition(r), " limit 1");
    CountCut(c, ConditionText(f), |Condition(r)|);
    CondIsPrefix(f);
    ConditionCount(c, f);
  }

  lemma ConditionCount(c: Mark, f: Field)
    requires Supported(f)
    ensures Count(c, ConditionText(f)) <= Need(c, Assign(f.name, f.value))
  {
    CondIsPrefix(f);
    HeadCount(c, f.name);
    CountAppend(c, "`" + f.name + "`=", KeyLiteral(f.value));
    match f.value {
      case IntVal(i) => NumberCount(c, GetInt(i));
      case StrVal(s) =>
        QuotedCount(c, CStr(s));
        CStrCount(c, s);
    }
  }

  lemma {:induction false} CStrCount(c: Mark, s: string)
    ensures Count(c, CStr(s)) <= Count(c, s)
  {
    if s != "" && s[0] != NUL {
      CStrCount(c, s[1..]);
      assert CStr(s)[1..] == CStr(s[1..]);
    }
  }

  lemma WhereNeeds(c: Mark, text: string, key: Assign)
    requires ParseWhere(text).Some? && ParseWhere(text).value.0 == Equals(key)
    ensures Count(c, text) >= Need(c, key)
  {
    ParseWhereEquals(text);
    AssignNeeds(c, text[7..]);
    CountCut(c, text, 7);
  }

  /** What follows a text that reads as assignments must read as the key: a cut list leaves too little for it. */
  lemma CutUpdateReads(r: Record, lm: LongModulus)
    requires Buildable(r) && !r.KeyRejected() && 0 <= r.KeyIndex()
    requires ChangedFields(r.fields) != [] && !Whole(ChangedFields(r.fields))
    ensures var p := Parse(UpdateText(r.table, OperationText(ChangedFields(r.fields), lm), Condition(r)));
            p.Some? && p.value.sets == AssignsOf(ChangedFields(r.fields)) ==> p.value.where != Equals(KeyOf(r))
  {
    var fs, where := ChangedFields(r.fields), WhereText(Condition(r));
    var text := OperationText(fs, lm) + where;
    ChangedFieldsSupported(r);
    CutListReads(fs, lm, where);
    ScanToBacktickFound(r.table, " set " + text);
    ExpectFound(" set ", text);
    ParseDispatch(r.table + "`" + (" set " + text));
    WhereCount('\'', r);
    WhereCount('`', r);
    if ScanAssigns(text).Some? && ParseWhere(ScanAssigns(text).value.1).Some?
       && ParseWhere(ScanAssigns(text).value.1).value.0 == Equals(KeyOf(r)) {
      WhereNeeds('\'', ScanAssigns(text).value.1, KeyOf(r));
      WhereNeeds('`', ScanAssigns(text).value.1, KeyOf(r));
    }
  }

  /**
   The update is the intended statement if and only if no assignment was cut and the key can be
   reached: a faithful literal and an uncut condition.
   */
  lemma UpdateTextMeansExact(r: Record, lm: LongModulus)
    requires Buildable(r) && !r.KeyRejected() && 0 <= r.KeyIndex() && ChangedFields(r.fields) != []
    ensures Parse(UpdateText(r.table, OperationText(ChangedFields(r.fields), lm), Condition(r)))
            == Some(Update(r.table, AssignsOf(ChangedFields(r.fields)), Equals(KeyOf(r)), Some(1)))
            <==> Whole(ChangedFields(r.fields)) && KeyReachable(r)
  {
    if !Whole(ChangedFields(r.fields)) {
      CutUpdateReads(r, lm);
    } else if KeyReachable(r) {
      UpdateTextMeans(r, lm);
    } else {
      UpdateReads(r, lm);
      WhereExact(r, WhereText(Condition(r)));
    }
  }
}
