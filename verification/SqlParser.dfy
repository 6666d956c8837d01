/**
 A reader for a part of SQL, written from sections 9.1 and 13.2 of the MySQL 5.7 Reference Manual:
 backtick names, decimal literals, quoted strings with backslash escapes and doubled quotes, an
 optional WHERE with a comparison or a bare column, and an optional row limit.  It has no boolean
 operators: a text that needs them does not parse here, whatever it means to the server.
 */
module SqlParser {
  import opened CText
  import opened Escape
  import opened Fields

  datatype Assign = Assign(name: string, value: Value)

  /** What a statement applies to: all rows, rows with a non-zero column, or rows with a column's value. */
  datatype Cond = Everything | Column(name: string) | Equals(key: Assign)

  datatype Statement =
    | Update(table: string, sets: seq<Assign>, where: Cond, limit: Option<nat>)
    | Delete(table: string, where: Cond, limit: Option<nat>)
    | Insert(table: string, sets: seq<Assign>)

  // ---------- tokens ----------

  function Expect(s: string, word: string): Option<string> {
    if word <= s then Some(s[|word|..]) else None
  }

  /** The bytes up to the next backtick, and the text after it. */
  function ScanToBacktick(s: string): (scan: Option<(string, string)>)
    ensures scan.Some? ==> |scan.value.1| < |s|
  {
    if s == "" then None
    else if s[0] == '`' then Some(("", s[1..]))
    else
      match ScanToBacktick(s[1..])
      case Some((name, rest)) => Some(([s[0]] + name, rest))
      case None => None
  }

  /** The bytes an escape sequence stands for; `\%` and `\_` keep their backslash. */
  function Unescape(letter: char): string {
    match letter
    case '0' => [NUL]
    case 'n' => "\n"
    case 'r' => "\r"
    case 't' => "\t"
    case 'b' => ['\U{8}']
    case 'Z' => [CTRL_Z]
    case '%' => "\\%"
    case '_' => "\\_"
    case _ => [letter]
  }

  /** The value of a quoted string whose opening quote has been read, and the text after it. */
  function ScanQuoted(s: string): (scan: Option<(string, string)>)
    ensures scan.Some? ==> |scan.value.0| + |scan.value.1| < |s|
  {
    if s == "" then None
    else if s[0] == '\'' && (|s| == 1 || s[1] != '\'') then Some(("", s[1..]))
    else if s[0] == '\'' then Prepend("'", ScanQuoted(s[2..]))
    else if s[0] == '\\' then
      if |s| == 1 then None else Prepend(Unescape(s[1]), ScanQuoted(s[2..]))
    else Prepend([s[0]], ScanQuoted(s[1..]))
  }

  function Prepend(front: string, scanned: Option<(string, string)>): Option<(string, string)> {
    match scanned
    case Some((value, rest)) => Some((front + value, rest))
    case None => None
  }

  function ScanLiteral(s: string): (scan: Option<(Value, string)>)
    ensures scan.Some? ==> |scan.value.1| < |s|
  {
    if s != "" && s[0] == '\'' then
      match ScanQuoted(s[1..])
      case Some((value, rest)) => Some((StrVal(value), rest))
      case None => None
    else
      match ScanInt(s)
      case Some((i, rest)) => Some((IntVal(i), rest))
      case None => None
  }

  // ---------- phrases ----------

  function ScanAssign(s: string): (scan: Option<(Assign, string)>)
    ensures scan.Some? ==> |scan.value.1| < |s|
  {
    if s == "" || s[0] != '`' then None
    else
      match ScanToBacktick(s[1..])
      case None => None
      case Some((name, afterName)) =>
        match Expect(afterName, "=")
        case None => None
        case Some(afterEq) =>
          match ScanLiteral(afterEq)
          case None => None
          case Some((value, rest)) => Some((Assign(name, value), rest))
  }

  /** One or more assignments separated by commas. */
  function ScanAssigns(s: string): Option<(seq<Assign>, string)>
    decreases |s|
  {
    match ScanAssign(s)
    case None => None
    case Some((first, rest)) =>
      if rest != "" && rest[0] == ',' then
        match ScanAssigns(rest[1..])
        case None => None
        case Some((others, end)) => Some(([first] + others, end))
      else Some(([first], rest))
  }

  function ParseAssigns(s: string): Option<seq<Assign>> {
    match ScanAssigns(s)
    case Some((sets, "")) => Some(sets)
    case _ => None
  }

  function ParseAssign(s: string): Option<Assign> {
    match ScanAssign(s)
    case Some((a, "")) => Some(a)
    case _ => None
  }

  // ---------- statements ----------

  function SkipBlanks(s: string): (t: string)
    ensures |t| <= |s|
  {
    if s != "" && s[0] == ' ' then SkipBlanks(s[1..]) else s
  }

  /** What may follow a condition, to the end of the text: nothing, or a row limit. */
  function ParseLimit(s: string): Option<Option<nat>> {
    if SkipBlanks(s) == "" then Some(None)
    else if s[0] != ' ' then None
    else
      match Expect(SkipBlanks(s), "limit ")
      case None => None
      case Some(afterWord) =>
        match ScanDigits(SkipBlanks(afterWord))
        case None => None
        case Some((n, rest)) => if SkipBlanks(rest) == "" then Some(Some(n)) else None
  }

  /** A comparison, or else a bare column. */
  function ScanCond(s: string): Option<(Cond, string)> {
    match ScanAssign(s)
    case Some((key, rest)) => Some((Equals(key), rest))
    case None =>
      if s == "" || s[0] != '`' then None
      else
        match ScanToBacktick(s[1..])
        case Some((name, rest)) => Some((Column(name), rest))
        case None => None
  }

  function ParseCond(s: string): Option<(Cond, Option<nat>)> {
    match ScanCond(s)
    case None => None
    case Some((w, rest)) =>
      match ParseLimit(rest)
      case None => None
      case Some(limit) => Some((w, limit))
  }

  /** An optional `where <condition>` and an optional limit, to the end of the text. */
  function ParseWhere(s: string): Option<(Cond, Option<nat>)> {
    match ParseLimit(s)
    case Some(limit) => Some((Everything, limit))
    case None =>
      match Expect(s, " where ")
      case None => None
      case Some(afterWhere) => ParseCond(afterWhere)
  }

  function ParseUpdate(s: string): Option<Statement> {
    match ScanToBacktick(s)
    case None => None
    case Some((table, afterTable)) =>
      match Expect(afterTable, " set ")
      case None => None
      case Some(afterSet) =>
        match ScanAssigns(afterSet)
        case None => None
        case Some((sets, afterSets)) =>
          match ParseWhere(afterSets)
          case Some((w, limit)) => Some(Update(table, sets, w, limit))
          case None => None
  }

  function ParseDelete(s: string): Option<Statement> {
    match ScanToBacktick(s)
    case None => None
    case Some((table, afterTable)) =>
      match ParseWhere(afterTable)
      case Some((w, limit)) => Some(Delete(table, w, limit))
      case None => None
  }

  function ParseInsert(s: string): Option<Statement> {
    match ScanToBacktick(s)
    case None => None
    case Some((table, afterTable)) =>
      match Expect(afterTable, " set ")
      case None => None
      case Some(afterSet) =>
        match ParseAssigns(afterSet)
        case Some(sets) => Some(Insert(table, sets))
        case None => None
  }

  function Parse(s: string): Option<Statement> {
    match Expect(s, "update `")
    case Some(rest) => ParseUpdate(rest)
    case None =>
      match Expect(s, "delete from `")
      case Some(rest) => ParseDelete(rest)
      case None =>
        match Expect(s, "insert into `")
        case Some(rest) => ParseInsert(rest)
        case None => None
  }

  // ---------- facts about the tokens ----------

  lemma ExpectFound(word: string, rest: string)
    ensures Expect(word + rest, word) == Some(rest)
  {
    assert word <= word + rest;
    assert (word + rest)[|word|..] == rest;
  }

  lemma {:induction false} ScanToBacktickFound(name: string, rest: string)
    requires '`' !in name
    ensures ScanToBacktick(name + "`" + rest) == Some((name, rest))
  {
    var s := name + "`" + rest;
    if name == "" {
      assert s[1..] == rest;
    } else {
      assert s[1..] == name[1..] + "`" + rest;
      ScanToBacktickFound(name[1..], rest);
      assert name == [name[0]] + name[1..];
    }
  }

  lemma ScanQuotedEscape(letter: char, tail: string)
    ensures ScanQuoted(['\\', letter] + tail) == Prepend(Unescape(letter), ScanQuoted(tail))
  {
    assert (['\\', letter] + tail)[2..] == tail;
  }

  lemma ScanQuotedPlain(c: char, tail: string)
    requires c != '\'' && c != '\\'
    ensures ScanQuoted([c] + tail) == Prepend([c], ScanQuoted(tail))
  {
    assert ([c] + tail)[1..] == tail;
  }

  lemma ScanQuotedEnd(rest: string)
    requires rest == "" || rest[0] != '\''
    ensures ScanQuoted("'" + rest) == Some(("", rest))
  {
    assert ("'" + rest)[1..] == rest;
  }

  lemma EscapeStep(c: char, tail: string, value: string, rest: string)
    requires ScanQuoted(tail) == Some((value, rest))
    ensures ScanQuoted(EscapeChar(c) + tail) == Some(([c] + value, rest))
  {
    if IsSpecial(c) {
      ScanQuotedEscape(EscapeLetter(c), tail);
    } else {
      ScanQuotedPlain(c, tail);
    }
  }

  /** Escaping and reading a quoted string are inverse, for every byte string. */
  lemma {:induction false} EscapeRoundTrip(s: string, rest: string)
    requires rest == "" || rest[0] != '\''
    ensures ScanQuoted(EscapeText(s) + "'" + rest) == Some((s, rest))
  {
    if s == "" {
      ScanQuotedEnd(rest);
      assert EscapeText(s) + "'" + rest == "'" + rest;
    } else {
      var tail := EscapeText(s[1..]) + "'" + rest;
      EscapeRoundTrip(s[1..], rest);
      EscapeStep(s[0], tail, s[1..], rest);
      assert EscapeText(s) + "'" + rest == EscapeChar(s[0]) + tail;
      assert s == [s[0]] + s[1..];
    }
  }

  /** `name=` and anything: the assignment is whatever the literal reads as. */
  lemma ScanAssignHead(name: string, tail: string)
    requires '`' !in name
    ensures ScanAssign("`" + name + "`=" + tail)
            == match ScanLiteral(tail)
               case Some((value, rest)) => Some((Assign(name, value), rest))
               case None => None
  {
    var s := "`" + name + "`=" + tail;
    assert s[1..] == name + "`" + ("=" + tail);
    ScanToBacktickFound(name, "=" + tail);
    ExpectFound("=", tail);
  }

  /** A name and a literal that reads back make an assignment that reads back. */
  lemma ScanAssignFound(name: string, literal: string, value: Value, rest: string)
    requires '`' !in name
    requires ScanLiteral(literal + rest) == Some((value, rest))
    ensures ScanAssign("`" + name + "`=" + literal + rest) == Some((Assign(name, value), rest))
  {
    ScanAssignHead(name, literal + rest);
    assert "`" + name + "`=" + literal + rest == "`" + name + "`=" + (literal + rest);
  }

  /** A comma after an assignment continues the list; any other text ends it. */
  lemma ScanAssignsStep(s: string, a: Assign, rest: string)
    requires ScanAssign(s) == Some((a, rest))
    ensures rest == "" || rest[0] != ',' ==> ScanAssigns(s) == Some(([a], rest))
    ensures rest != "" && rest[0] == ',' && ScanAssigns(rest[1..]).Some?
            ==> ScanAssigns(s) == Some(([a] + ScanAssigns(rest[1..]).value.0, ScanAssigns(rest[1..]).value.1))
  {
  }

  /** Of the text ` limit 1` a prefix is a limit only if whole, and no limit only up to its blank. */
  lemma LimitPrefix(tail: string)
    requires tail <= " limit 1"
    ensures ParseLimit(tail) == if |tail| == 8 then Some(Some(1)) else if |tail| <= 1 then Some(None) else None
  {
    if |tail| <= 1 {
      assert tail == "" || tail == " ";
      assert SkipBlanks("") == "" && SkipBlanks(" ") == "";
    } else {
      assert SkipBlanks(tail) == tail[1..] by {
        assert tail[1] == 'l';
      }
      if |tail| >= 7 {
        assert tail[1..] == "limit " + tail[7..];
        ExpectFound("limit ", tail[7..]);
        assert tail[7..] == if |tail| == 8 then "1" else "";
        ScanDigitsFound("1", "");
        assert "1" + "" == "1" && DigitsValue("1") == 1;
      }
    }
  }

  /** After the word `where` comes a condition. */
  lemma ParseWhereIsCond(rest: string)
    ensures ParseWhere(" where " + rest) == ParseCond(rest)
  {
    var text := " where " + rest;
    assert text[1..][0] == 'w';
    assert SkipBlanks(text) == text[1..];
    ExpectFound(" where ", rest);
  }

  /** A text that reads as a comparison starts with the word `where`. */
  lemma ParseWhereEquals(s: string)
    requires ParseWhere(s).Some? && ParseWhere(s).value.0 != Everything
    ensures " where " <= s && ParseWhere(s) == ParseCond(s[7..])
  {
  }
}
