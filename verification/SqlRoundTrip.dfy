/**
 What the printed text means to a reader: assignment lists read back as the changed fields, and
 the WHERE condition reads back as the key exactly when its literal is faithful and uncut.
 */
module SqlRoundTrip {
  import opened CText
  import opened Escape
  import opened Fields
  import opened SqlText
  import opened SqlParser

  function AssignsOf(fs: seq<Field>): (assigns: seq<Assign>)
    ensures |assigns| == |fs|
    ensures forall i :: 0 <= i < |fs| ==> assigns[i] == Assign(fs[i].name, fs[i].value)
  {
    if fs == [] then [] else [Assign(fs[0].name, fs[0].value)] + AssignsOf(fs[1..])
  }

  // ---------- assignment lists ----------

  lemma AssignRoundTrip(f: Field, lm: LongModulus, rest: string)
    requires Supported(f)
    requires rest == "" || rest[0] == ',' || rest[0] == ' '
    ensures ScanAssign(AssignText(f, lm) + rest) == Some((Assign(f.name, f.value), rest))
  {
    var literal := LiteralText(f, lm);
    match f.value {
      case IntVal(i) =>
        IntegerFidelity(f.typ, f.unsigned, lm, i, rest);
        DecRoundTrip(i, rest);
        assert ScanLiteral(literal + rest) == Some((f.value, rest));
      case StrVal(s) =>
        assert (literal + rest)[1..] == EscapeText(s) + "'" + rest;
        EscapeRoundTrip(s, rest);
    }
    ScanAssignFound(f.name, literal, f.value, rest);
    assert AssignText(f, lm) + rest == "`" + f.name + "`=" + literal + rest;
  }

  lemma Regroup(a: string, b: string, c: string, d: string)
    ensures a + b + c + d == a + (b + (c + d))
  {
  }

  lemma AssignsStep(text: string, a: Assign, others: string, assigns: seq<Assign>, rest: string)
    requires ScanAssign(text + ("," + (others + rest))) == Some((a, "," + (others + rest)))
    requires ScanAssigns(others + rest) == Some((assigns, rest))
    ensures ScanAssigns(text + "," + others + rest) == Some(([a] + assigns, rest))
  {
    var tail := "," + (others + rest);
    assert tail[1..] == others + rest;
    ScanAssignsStep(text + tail, a, tail);
    Regroup(text, ",", others, rest);
  }

  /** The comma-joined assignments of any fields read back as those fields, values and order. */
  lemma {:induction false} AssignsRoundTrip(fs: seq<Field>, lm: LongModulus, rest: string)
    requires fs != [] && forall f :: f in fs ==> Supported(f)
    requires rest == "" || rest[0] == ' '
    ensures ScanAssigns(Join(Texts(fs, lm)) + rest) == Some((AssignsOf(fs), rest))
  {
    if |fs| == 1 {
      AssignRoundTrip(fs[0], lm, rest);
      ScanAssignsStep(AssignText(fs[0], lm) + rest, Assign(fs[0].name, fs[0].value), rest);
      assert Join(Texts(fs, lm)) == AssignText(fs[0], lm);
      assert AssignsOf(fs) == [Assign(fs[0].name, fs[0].value)];
    } else {
      var first, others := AssignText(fs[0], lm), Join(Texts(fs[1..], lm));
      AssignsRoundTrip(fs[1..], lm, rest);
      AssignRoundTrip(fs[0], lm, "," + (others + rest));
      AssignsStep(first, Assign(fs[0].name, fs[0].value), others, AssignsOf(fs[1..]), rest);
      assert Join(Texts(fs, lm)) == AssignText(fs[0], lm) + "," + Join(Texts(fs[1..], lm));
    }
  }

  lemma MembersOfCons<T>(head: T, tail: seq<T>)
    ensures forall x :: x in [head] + tail <==> x == head || x in tail
  {
  }

  function TotalLength(texts: seq<string>): nat {
    if texts == [] then 0 else |texts[0]| + TotalLength(texts[1..])
  }

  lemma {:induction false} JoinLength(texts: seq<string>)
    requires texts != []
    ensures |Join(texts)| == TotalLength(texts) + |texts| - 1
  {
    if |texts| > 1 {
      JoinLength(texts[1..]);
    } else {
      assert texts[1..] == [];
    }
  }

  lemma {:induction false} CutNeverLonger(fs: seq<Field>, lm: LongModulus, size: nat)
    requires size > 0 && forall f :: f in fs ==> Supported(f)
    ensures TotalLength(CutTexts(fs, lm, size)) <= TotalLength(Texts(fs, lm))
  {
    if fs != [] {
      CutNeverLonger(fs[1..], lm, size);
    }
  }

  lemma {:induction false} CutIsShorter(fs: seq<Field>, lm: LongModulus, size: nat, i: nat)
    requires size > 0 && forall f :: f in fs ==> Supported(f)
    requires i < |fs| && AssignLength(fs[i]) >= size
    ensures TotalLength(CutTexts(fs, lm, size)) < TotalLength(Texts(fs, lm))
  {
    if i == 0 {
      AssignTextFacts(fs[0], lm);
      CutNeverLonger(fs[1..], lm, size);
    } else {
      CutIsShorter(fs[1..], lm, size, i - 1);
    }
  }

  /**
   The exact reach of the single-pass work buffer: the operation text is complete if and only if
   every changed field's assignment is shorter than the buffer.
   */
  lemma OperationWholeExact(fs: seq<Field>, lm: LongModulus)
    requires fs != [] && (forall f :: f in fs ==> Supported(f)) && Workable(fs)
    ensures OperationText(fs, lm) == Join(Texts(fs, lm))
            <==> Whole(fs)
  {
    var size := Sizing(fs) + BUFFER_SLACK;
    if Whole(fs) {
      CutIsWhole(fs, lm, size);
    } else {
      var i :| 0 <= i < |fs| && AssignLength(fs[i]) >= size;
      CutIsShorter(fs, lm, size, i);
      JoinLength(CutTexts(fs, lm, size));
      JoinLength(Texts(fs, lm));
    }
  }

  lemma {:induction false} CutIsWhole(fs: seq<Field>, lm: LongModulus, size: nat)
    requires size > 0 && forall f :: f in fs ==> Supported(f) && AssignLength(f) < size
    ensures CutTexts(fs, lm, size) == Texts(fs, lm)
  {
    if fs != [] {
      AssignTextFacts(fs[0], lm);
      CutIsWhole(fs[1..], lm, size);
    }
  }

  /** Print, then parse: the changed fields in index order with their stored values. */
  lemma OperationRoundTrip(fs: seq<Field>, lm: LongModulus)
    requires fs != [] && (forall f :: f in fs ==> Supported(f)) && Workable(fs) && Whole(fs)
    ensures ParseAssigns(OperationText(fs, lm)) == Some(AssignsOf(fs))
  {
    OperationWholeExact(fs, lm);
    AssignsRoundTrip(fs, lm, "");
    assert Join(Texts(fs, lm)) + "" == Join(Texts(fs, lm));
  }

  // ---------- the condition ----------

  /** A string that reads back unchanged when put between quotes as it is. */
  predicate PlainLiteral(s: string) {
    if s == "" then true
    else if s[0] == '\\' then |s| >= 2 && (s[1] == '%' || s[1] == '_') && PlainLiteral(s[2..])
    else s[0] != '\'' && s[0] != NUL && PlainLiteral(s[1..])
  }

  /** No quote, no NUL, and no backslash except before `%` or `_`. */
  predicate PlainBytes(s: string) {
    && NUL !in s && '\'' !in s
    && forall i :: 0 <= i < |s| && s[i] == '\\' ==> i + 1 < |s| && (s[i + 1] == '%' || s[i + 1] == '_')
  }

  lemma PlainBytesPair(s: string)
    requires |s| >= 2 && s[0] == '\\' && (s[1] == '%' || s[1] == '_')
    ensures PlainBytes(s) <==> PlainBytes(s[2..])
  {
    var t := s[2..];
    assert s == s[..2] + t;
    assert forall i :: 2 <= i < |s| ==> s[i] == t[i - 2];
    if PlainBytes(s) {
      assert forall i :: 0 <= i < |t| ==> t[i] == s[i + 2];
    }
  }

  lemma PlainBytesChar(s: string)
    requires s != "" && s[0] != '\\'
    ensures PlainBytes(s) <==> s[0] != '\'' && s[0] != NUL && PlainBytes(s[1..])
  {
    var t := s[1..];
    assert s == [s[0]] + t;
    assert forall i :: 1 <= i < |s| ==> s[i] == t[i - 1];
    if PlainBytes(s) {
      assert forall i :: 0 <= i < |t| ==> t[i] == s[i + 1];
    }
  }

  /** The recursive predicate in terms of the bytes. */
  lemma {:induction false} PlainLiteralMeaning(s: string)
    ensures PlainLiteral(s) <==> PlainBytes(s)
  {
    if s != "" {
      if s[0] != '\\' {
        PlainLiteralMeaning(s[1..]);
        PlainBytesChar(s);
      } else if |s| >= 2 && (s[1] == '%' || s[1] == '_') {
        PlainLiteralMeaning(s[2..]);
        PlainBytesPair(s);
      }
    }
  }

  predicate FaithfulKey(v: Value) {
    match v
    case IntVal(i) => i < TWO_63
    case StrVal(s) => PlainLiteral(s)
  }

  /** The reader stops at a quote, so never inside a text without one. */
  lemma {:induction false} ScanStopsAtQuote(s: string, rest: string)
    requires '\'' !in rest
    ensures var scan := ScanQuoted(s + rest); scan.Some? ==> |scan.value.1| >= |rest|
    decreases |s| + |rest|
  {
    var text := s + rest;
    var k := if text != "" && (text[0] == '\\' || (text[0] == '\'' && |text| > 1 && text[1] == '\'')) then 2 else 1;
    if k <= |s| {
      assert text[k..] == s[k..] + rest;
      ScanStopsAtQuote(s[k..], rest);
    } else if k <= |text| {
      assert text[k..] == "" + rest[k - |s|..];
      ScanStopsAtQuote("", rest[k - |s|..]);
      NoQuoteNoEnd(rest[k - |s|..]);
    }
  }

  lemma {:induction false} NoQuoteNoEnd(s: string)
    requires '\'' !in s
    ensures ScanQuoted(s) == None
  {
    if s != "" && s[0] != '\\' {
      NoQuoteNoEnd(s[1..]);
    } else if |s| > 1 {
      NoQuoteNoEnd(s[2..]);
    }
  }

  /**
   A string put between quotes as it is reads back as itself when it is plain; otherwise, if the
   reader finds an end at all, it has read something shorter.
   */
  ghost predicate QuotedExactly(s: string, rest: string) {
    var scan := ScanQuoted(s + "'" + rest);
    if PlainLiteral(s) then scan == Some((s, rest))
    else scan.Some? ==> |scan.value.0| < |s|
  }

  lemma {:induction false} QuotedExact(s: string, rest: string)
    requires NUL !in s && '\'' !in rest
    ensures QuotedExactly(s, rest)
  {
    if s == "" {
      ScanQuotedEnd(rest);
      assert s + "'" + rest == "'" + rest;
    } else if s[0] == '\\' && |s| > 1 && (s[1] == '%' || s[1] == '_') {
      QuotedExact(s[2..], rest);
      QuotedPair(s, rest);
    } else if s[0] == '\\' {
      BackslashIsNotPlain(s, rest);
    } else if s[0] == '\'' {
      QuoteIsNotPlain(s, rest);
    } else {
      QuotedExact(s[1..], rest);
      QuotedChar(s, rest);
    }
  }

  lemma QuotedPair(s: string, rest: string)
    requires |s| > 1 && s[0] == '\\' && (s[1] == '%' || s[1] == '_') && QuotedExactly(s[2..], rest)
    ensures QuotedExactly(s, rest)
  {
    ScanQuotedEscape(s[1], s[2..] + "'" + rest);
    assert s + "'" + rest == ['\\', s[1]] + (s[2..] + "'" + rest);
    assert s == Unescape(s[1]) + s[2..];
  }

  lemma QuotedChar(s: string, rest: string)
    requires s != "" && s[0] != '\\' && s[0] != '\'' && s[0] != NUL && QuotedExactly(s[1..], rest)
    ensures QuotedExactly(s, rest)
  {
    ScanQuotedPlain(s[0], s[1..] + "'" + rest);
    assert s + "'" + rest == [s[0]] + (s[1..] + "'" + rest);
    assert s == [s[0]] + s[1..];
  }

  lemma BackslashIsNotPlain(s: string, rest: string)
    requires s != "" && s[0] == '\\' && (|s| > 1 ==> s[1] != '%' && s[1] != '_') && '\'' !in rest
    ensures QuotedExactly(s, rest)
  {
    var text := s + "'" + rest;
    var letter, tail := text[1], text[2..];
    assert text == ['\\', letter] + tail;
    ScanQuotedEscape(letter, tail);
    if |s| == 1 {
      assert tail == rest;
      NoQuoteNoEnd(rest);
    } else {
      assert tail == (s[2..] + "'") + rest;
      ScanStopsAtQuote(s[2..] + "'", rest);
    }
  }

  lemma QuoteIsNotPlain(s: string, rest: string)
    requires s != "" && s[0] == '\'' && '\'' !in rest
    ensures QuotedExactly(s, rest)
  {
    var text := s + "'" + rest;
    if |s| == 1 {
      assert text[2..] == rest;
      NoQuoteNoEnd(rest);
    } else if s[1] == '\'' {
      assert text[2..] == (s[2..] + "'") + rest;
      ScanStopsAtQuote(s[2..] + "'", rest);
    }
  }


  // ---------- the WHERE condition ----------

  /** The literal of the condition: `GetInt` in decimal, or the key's bytes with no escaping. */
  function KeyLiteral(v: Value): string {
    match v
    case IntVal(i) => Dec(GetInt(i))
    case StrVal(s) => "'" + CStr(s) + "'"
  }

  lemma {:induction false} NoBacktickNoName(s: string)
    requires '`' !in s
    ensures ScanToBacktick(s) == None
  {
    if s != "" {
      NoBacktickNoName(s[1..]);
    }
  }

  /** A text cut before the equals sign is no assignment, nor with a tail that cannot mend it. */
  lemma ScanAssignCutHead(name: string, k: nat, tail: string)
    requires '`' !in name && k < |name| + 3
    requires '`' !in tail && (tail == "" || tail[0] != '=')
    ensures ScanAssign(("`" + name + "`=")[..k] + tail) == None
  {
    var s := ("`" + name + "`=")[..k] + tail;
    if k == |name| + 2 {
      assert s[1..] == name + "`" + tail;
      ScanToBacktickFound(name, tail);
    } else if k > 0 {
      assert s[1..] == name[..k - 1] + tail;
      NoBacktickNoName(s[1..]);
    } else {
      assert s == tail;
    }
  }

  lemma {:induction false} DigitsValuePrefix(s: string, k: nat)
    requires k <= |s| && AllDigits(s)
    ensures DigitsValue(s[..k]) <= DigitsValue(s)
  {
    if k == |s| {
      assert s[..k] == s;
    } else {
      var init := s[..|s| - 1];
      DigitsValuePrefix(init, k);
      assert init[..k] == s[..k];
    }
  }

  /** Digits cut short denote a smaller number. */
  lemma DecNatCut(n: nat, k: nat)
    requires 0 < k < |DecNat(n)|
    ensures AllDigits(DecNat(n)[..k])
    ensures DigitsValue(DecNat(n)[..k]) < n
  {
    DecNatDigits(n);
    var s := DecNat(n);
    DecNatDigits(n / 10);
    assert s[..|s| - 1] == DecNat(n / 10) && s[..|s| - 1][..k] == s[..k];
    DigitsValuePrefix(DecNat(n / 10), k);
  }

  lemma ScanIntCut(m: nat, k: nat)
    requires 0 < k < |DecNat(m)|
    ensures AllDigits(DecNat(m)[..k])
    ensures var v := DigitsValue(DecNat(m)[..k]);
            v < m && ScanInt(DecNat(m)[..k]) == Some((v, "")) && ScanInt("-" + DecNat(m)[..k]) == Some((-v, ""))
  {
    var digits := DecNat(m)[..k];
    DecNatCut(m, k);
    ScanIntDigits(digits, "");
    assert digits + "" == digits && "-" + digits + "" == "-" + digits;
  }

  lemma DecCut(n: int, k: nat)
    requires k < |Dec(n)|
    ensures var scan := ScanInt(Dec(n)[..k]); scan.Some? ==> scan.value.0 != n && (n < 0 ==> scan.value.0 <= 0)
  {
    if n >= 0 && k > 0 {
      ScanIntCut(n, k);
    } else if k > 0 {
      MinusCut(-n, k - 1);
      assert Dec(n)[..k] == "-" + DecNat(-n)[..k - 1];
    }
  }

  lemma MinusCut(m: nat, j: nat)
    requires j < |DecNat(m)|
    ensures var scan := ScanInt("-" + DecNat(m)[..j]); scan.Some? ==> scan.value.0 <= 0 && scan.value.0 + m > 0
  {
    if j > 0 {
      ScanIntCut(m, j);
    } else {
      ScanIntMinus("");
      assert "-" + DecNat(m)[..0] == "-" + "";
    }
  }

  /** A literal cut anywhere before its end reads as something else, or not at all. */
  lemma KeyLiteralCut(f: Field, k: nat)
    requires Supported(f) && k < |KeyLiteral(f.value)|
    ensures var scan := ScanLiteral(KeyLiteral(f.value)[..k]); scan.Some? ==> scan.value.0 != f.value
  {
    var cut := KeyLiteral(f.value)[..k];
    match f.value {
      case IntVal(i) =>
        DecCut(GetInt(i), k);
        DecRoundTrip(GetInt(i), "");
        if k > 0 {
          assert cut[0] == Dec(GetInt(i))[0];
        }
        KeyNumber(f);
      case StrVal(s) =>
        CStrNulFree(s);
        if k > 0 {
          assert cut[0] == '\'';
        }
    }
  }

  /** The printed key number is the stored one exactly when it is below 2^63; else it is negative. */
  lemma KeyNumber(f: Field)
    requires Supported(f) && f.value.IntVal?
    ensures f.value.i < TWO_63 ==> GetInt(f.value.i) == f.value.i
    ensures f.value.i >= TWO_63 ==> GetInt(f.value.i) < 0
  {
    if f.value.i < TWO_63 {
      SignedStays(f.value.i, TWO_64);
    } else {
      assert f.value.i % TWO_64 == f.value.i;
    }
  }

  lemma KeyLiteralExact(f: Field, rest: string)
    requires Supported(f) && '\'' !in rest && (rest == "" || rest[0] == ' ')
    ensures var scan := ScanLiteral(KeyLiteral(f.value) + rest);
            && (FaithfulKey(f.value) ==> scan == Some((f.value, rest)))
            && (scan.Some? && scan.value.0 == f.value ==> FaithfulKey(f.value))
  {
    match f.value {
      case IntVal(i) =>
        KeyNumber(f);
        DecRoundTrip(GetInt(i), rest);
      case StrVal(s) =>
        CStrNulFree(s);
        QuotedExact(CStr(s), rest);
        PlainLiteralMeaning(s);
        assert (KeyLiteral(f.value) + rest)[1..] == CStr(s) + "'" + rest;
    }
  }

  /**
   The WHERE condition reads back as "the key column has the record's key value" if and only if
   the key's literal is faithful and the condition fits the fixed buffer.
   */
  lemma ConditionFaithfulExact(f: Field)
    requires Supported(f)
    ensures ParseAssign(Truncate(ConditionText(f), FIXED_BUFFER - 1)) == Some(Assign(f.name, f.value))
            <==> FaithfulKey(f.value) && |ConditionText(f)| < FIXED_BUFFER - 1
  {
    var head, literal := "`" + f.name + "`=", KeyLiteral(f.value);
    assert ConditionText(f) == head + literal;
    var text := Truncate(ConditionText(f), FIXED_BUFFER - 1);
    if |ConditionText(f)| < FIXED_BUFFER - 1 {
      ScanAssignHead(f.name, literal);
      KeyLiteralExact(f, "");
      assert literal + "" == literal;
    } else if |text| < |head| {
      ScanAssignCutHead(f.name, |text|, "");
      assert text == head[..|text|] + "";
    } else {
      var k := |text| - |head|;
      assert text == head + literal[..k];
      ScanAssignHead(f.name, literal[..k]);
      KeyLiteralCut(f, k);
    }
  }

  /** In place, before ` limit 1`: a faithful condition reads as the key assignment. */
  lemma ConditionRoundTrip(f: Field, rest: string)
    requires Supported(f) && FaithfulKey(f.value) && '\'' !in rest && (rest == "" || rest[0] == ' ')
    ensures ScanAssign(ConditionText(f) + rest) == Some((Assign(f.name, f.value), rest))
  {
    var head, literal := "`" + f.name + "`=", KeyLiteral(f.value);
    assert ConditionText(f) + rest == head + (literal + rest);
    ScanAssignHead(f.name, literal + rest);
    KeyLiteralExact(f, rest);
  }

  // ---------- the condition inside a cut statement ----------

  lemma NumberPrefixExact(f: Field, m: nat, cut: string)
    requires Supported(f) && f.value.IntVal? && m <= |KeyLiteral(f.value)|
    requires cut <= KeyLiteral(f.value)[..m] + " limit 1"
    requires ScanInt(cut).Some? && ScanInt(cut).value.0 == f.value.i
    ensures m == |KeyLiteral(f.value)| && FaithfulKey(f.value) && cut == KeyLiteral(f.value) + ScanInt(cut).value.1
  {
    KeyNumber(f);
    NumberCutExact(GetInt(f.value.i), f.value.i, m, cut);
  }

  lemma {:induction false} NumberCutExact(n: int, v: int, m: nat, cut: string)
    requires m <= |Dec(n)| && cut <= Dec(n)[..m] + " limit 1" && (v == n || (n < 0 && v > 0))
    requires ScanInt(cut).Some? && ScanInt(cut).value.0 == v
    ensures m == |Dec(n)| && v == n && cut == Dec(n) + ScanInt(cut).value.1
  {
    var k := if |cut| <= m then |cut| else m;
    CutSplit(Dec(n), m, cut, " limit 1");
    PrefixIsWhole(n, v, k, cut[k..], cut);
  }

  lemma {:induction false} CutSplit(first: string, m: nat, cut: string, second: string)
    requires m <= |first| && cut <= first[..m] + second
    ensures var k := if |cut| <= m then |cut| else m;
            cut == first[..k] + cut[k..] && cut[k..] <= second
  {
    PrefixOfTwo(cut, first[..m], second);
    if |cut| <= m {
      assert cut[|cut|..] == "";
    }
  }

  /** A prefix of a printed number that reads as a non-negative or the same number is all of it. */
  lemma {:induction false} PrefixIsWhole(n: int, v: int, k: nat, tail: string, cut: string)
    requires k <= |Dec(n)| && Stops(tail) && (v == n || (n < 0 && v > 0)) && cut == Dec(n)[..k] + tail
    requires ScanInt(cut).Some? && ScanInt(cut).value.0 == v
    ensures k == |Dec(n)| && v == n && cut == Dec(n) + ScanInt(cut).value.1
  {
    DecPrefixScan(n, k, tail);
    DecPrefixValue(n, k);
    assert Dec(n)[..|Dec(n)|] == Dec(n);
  }

  /** A prefix of two texts is a prefix of the first, or the first and a prefix of the second. */
  lemma PrefixOfTwo(cut: string, first: string, second: string)
    requires cut <= first + second
    ensures |cut| <= |first| ==> cut == first[..|cut|]
    ensures |cut| >= |first| ==> cut == first + cut[|first|..] && cut[|first|..] <= second
  {
  }

  /** A text after a number that no reader takes for more of it. */
  predicate Stops(tail: string) {
    tail == "" || (!IsDigit(tail[0]) && tail[0] != '-')
  }

  lemma DigitsPrefixScan(m: nat, j: nat, tail: string)
    requires 0 < j <= |DecNat(m)| && Stops(tail)
    ensures AllDigits(DecNat(m)[..j])
    ensures ScanInt(DecNat(m)[..j] + tail) == Some((DigitsValue(DecNat(m)[..j]), tail))
    ensures ScanInt("-" + DecNat(m)[..j] + tail) == Some((-DigitsValue(DecNat(m)[..j]), tail))
  {
    DecNatDigits(m);
    ScanIntDigits(DecNat(m)[..j], tail);
  }

  /** The value of the first `k` characters of a printed number, if they have any. */
  function PrefixValue(n: int, k: nat): Option<int>
    requires k <= |Dec(n)|
  {
    match ScanInt(Dec(n)[..k]) case Some((v, _)) => Some(v) case None => None
  }

  /** A prefix of a number before such a text is read up to there, or not at all. */
  lemma DecPrefixScan(n: int, k: nat, tail: string)
    requires k <= |Dec(n)| && Stops(tail)
    ensures ScanInt(Dec(n)[..k] + tail) == match PrefixValue(n, k) case Some(v) => Some((v, tail)) case None => None
  {
    var cut := Dec(n)[..k];
    if k == 0 {
      assert cut + tail == tail;
    } else if n >= 0 {
      DigitsPrefixScan(n, k, tail);
      DigitsPrefixScan(n, k, "");
      assert cut + "" == cut;
    } else {
      MinusPrefixScan(-n, k - 1, tail);
      assert cut == "-" + DecNat(-n)[..k - 1];
    }
  }

  lemma MinusPrefixScan(m: nat, j: nat, tail: string)
    requires j <= |DecNat(m)| && Stops(tail)
    ensures var cut := "-" + DecNat(m)[..j];
            ScanInt(cut + tail)
            == match ScanInt(cut) case Some((v, _)) => Some((v, tail)) case None => None
  {
    var cut := "-" + DecNat(m)[..j];
    if j > 0 {
      DigitsPrefixScan(m, j, tail);
      DigitsPrefixScan(m, j, "");
      assert cut + "" == cut;
    } else {
      assert cut == "-";
      ScanIntMinus(tail);
      ScanIntMinus("");
      assert "-" + "" == cut;
    }
  }

  lemma DecPrefixValue(n: int, k: nat)
    requires k <= |Dec(n)|
    ensures var scan := ScanInt(Dec(n)[..k]);
            scan.Some? ==> (scan.value.0 == n <==> k == |Dec(n)|) && (n < 0 ==> scan.value.0 <= 0)
  {
    if k < |Dec(n)| {
      DecCut(n, k);
    } else {
      DecRoundTrip(n, "");
      assert Dec(n)[..k] == Dec(n) && Dec(n) + "" == Dec(n);
    }
  }

  lemma StringPrefixExact(f: Field, m: nat, cut: string)
    requires Supported(f) && f.value.StrVal? && m <= |KeyLiteral(f.value)|
    requires cut <= KeyLiteral(f.value)[..m] + " limit 1"
    requires ScanLiteral(cut).Some? && ScanLiteral(cut).value.0 == f.value
    ensures m == |KeyLiteral(f.value)| && FaithfulKey(f.value)
    ensures cut == KeyLiteral(f.value) + ScanLiteral(cut).value.1
  {
    var literal := KeyLiteral(f.value);
    PrefixOfTwo(cut, literal[..m], " limit 1");
    if |cut| <= m && |cut| < |literal| {
      assert cut == literal[..|cut|];
      KeyLiteralCut(f, |cut|);
    } else if m < |literal| {
      OpenStringDiffers(f.value.s, m, cut[m..]);
    } else {
      assert literal[..m] == literal;
      KeyLiteralExact(f, cut[m..]);
    }
  }

  /** A string literal that lost its closing quote does not read as the string, whatever follows. */
  lemma OpenStringDiffers(s: string, m: nat, tail: string)
    requires 0 < m < |CStr(s)| + 2 && '\'' !in tail
    ensures var scan := ScanLiteral(("'" + CStr(s) + "'")[..m] + tail);
            scan.Some? ==> scan.value.0 != StrVal(s)
  {
    assert ("'" + CStr(s) + "'")[..m] == "'" + CStr(s)[..m - 1];
    OpenLiteralShorter(CStr(s)[..m - 1], tail);
    CStrNulFree(s);
  }

  /** A literal without its closing quote reads as something shorter, or not at all. */
  lemma OpenLiteralShorter(s: string, tail: string)
    requires '\'' !in tail
    ensures var scan := ScanLiteral("'" + s + tail);
            scan.Some? ==> scan.value.0.StrVal? && |scan.value.0.s| < |s|
  {
    var text := "'" + s + tail;
    assert text[1..] == s + tail;
    ScanStopsAtQuote(s, tail);
  }

  /**
   Whatever prefix of the condition and ` limit 1` a cut leaves: if it still reads as the key
   assignment, then the condition was not cut and the key is faithful.
   */
  lemma ConditionPrefixExact(f: Field, text: string)
    requires Supported(f)
    requires text <= Truncate(ConditionText(f), FIXED_BUFFER - 1) + " limit 1"
    requires ScanAssign(text).Some? && ScanAssign(text).value.0 == Assign(f.name, f.value)
    ensures FaithfulKey(f.value) && |ConditionText(f)| < FIXED_BUFFER - 1
    ensures text == ConditionText(f) + ScanAssign(text).value.1
  {
    var cond := Truncate(ConditionText(f), FIXED_BUFFER - 1);
    CondIsPrefix(f);
    if |cond| < |f.name| + 3 || |text| < |f.name| + 3 {
      CutInHead(f.name, KeyLiteral(f.value), cond, text);
    } else {
      PrefixPastHead(f, cond, text);
    }
  }

  lemma PrefixPastHead(f: Field, cond: string, text: string)
    requires Supported(f) && cond <= ConditionText(f) && text <= cond + " limit 1"
    requires |cond| >= |f.name| + 3 && |text| >= |f.name| + 3
    requires ScanAssign(text).Some? && ScanAssign(text).value.0 == Assign(f.name, f.value)
    ensures cond == ConditionText(f) && FaithfulKey(f.value)
    ensures text == ConditionText(f) + ScanAssign(text).value.1
  {
    var head, literal := "`" + f.name + "`=", KeyLiteral(f.value);
    var m, cut := |cond| - |head|, text[|head|..];
    CondIsPrefix(f);
    CutInLiteral(head, literal, cond, text);
    ScanAssignHead(f.name, cut);
    LiteralPrefixExact(f, m, cut);
    AddAssociates(head, literal, ScanLiteral(cut).value.1);
  }

  lemma AddAssociates(a: string, b: string, c: string)
    ensures a + (b + c) == a + b + c
  {
  }

  lemma CondIsPrefix(f: Field)
    ensures ConditionText(f) == "`" + f.name + "`=" + KeyLiteral(f.value)
    ensures Truncate(ConditionText(f), FIXED_BUFFER - 1) <= ConditionText(f)
  {
  }

  lemma CutInHead(name: string, literal: string, cond: string, text: string)
    requires '`' !in name && cond <= "`" + name + "`=" + literal && text <= cond + " limit 1"
    requires |cond| < |name| + 3 || |text| < |name| + 3
    ensures ScanAssign(text) == None
  {
    var k := if |text| < |cond| then |text| else |cond|;
    var tail := text[k..];
    assert text == ("`" + name + "`=")[..k] + tail && tail <= " limit 1";
    ScanAssignCutHead(name, k, tail);
  }

  lemma CutInLiteral(head: string, literal: string, cond: string, text: string)
    requires cond <= head + literal && text <= cond + " limit 1"
    requires |cond| >= |head| && |text| >= |head|
    ensures cond == head + literal[..|cond| - |head|]
    ensures text == head + text[|head|..]
    ensures text[|head|..] <= literal[..|cond| - |head|] + " limit 1"
  {
  }

  lemma LiteralPrefixExact(f: Field, m: nat, cut: string)
    requires Supported(f) && m <= |KeyLiteral(f.value)|
    requires cut <= KeyLiteral(f.value)[..m] + " limit 1"
    requires ScanLiteral(cut).Some? && ScanLiteral(cut).value.0 == f.value
    ensures m == |KeyLiteral(f.value)| && FaithfulKey(f.value)
    ensures cut == KeyLiteral(f.value) + ScanLiteral(cut).value.1
  {
    if f.value.IntVal? {
      NumberPrefixExact(f, m, cut);
    } else {
      StringPrefixExact(f, m, cut);
    }
  }
}
