/**
 `mysql_escape_string` and `mysql_real_escape_string` as one function, by section 9.1.1 of the
 MySQL 5.7 Reference Manual: seven bytes become a backslash and a letter, all others stay.
 */
module Escape {
  import opened CText

  const CTRL_Z: char := '\U{1A}'

  predicate IsSpecial(c: char) {
    c == NUL || c == '\n' || c == '\r' || c == CTRL_Z || c == '\\' || c == '\'' || c == '"'
  }

  /** The letter that stands for a special byte after the backslash. */
  function EscapeLetter(c: char): char
    requires IsSpecial(c)
  {
    if c == NUL then '0'
    else if c == '\n' then 'n'
    else if c == '\r' then 'r'
    else if c == CTRL_Z then 'Z'
    else c
  }

  function EscapeChar(c: char): string {
    if IsSpecial(c) then ['\\', EscapeLetter(c)] else [c]
  }

  function EscapeText(s: string): string {
    if s == "" then "" else EscapeChar(s[0]) + EscapeText(s[1..])
  }

  function SpecialCount(s: string): nat {
    if s == "" then 0 else (if IsSpecial(s[0]) then 1 else 0) + SpecialCount(s[1..])
  }

  /** Reading from the left and skipping the byte after each backslash, no quote is met. */
  ghost predicate QuotesEscaped(s: string) {
    if s == "" then true
    else if s[0] == '\\' then |s| >= 2 && QuotesEscaped(s[2..])
    else s[0] != '\'' && s[0] != '"' && QuotesEscaped(s[1..])
  }

  /**
   The escaped text grows by one byte per special byte, holds no NUL (so `%s` and `<<` never cut
   it short), no line end, no Ctrl-Z and no quote that a reader would take for the end of the literal.
   */
  lemma {:induction false} EscapeTextFacts(s: string)
    ensures |EscapeText(s)| == |s| + SpecialCount(s)
    ensures NUL !in EscapeText(s) && '\n' !in EscapeText(s) && '\r' !in EscapeText(s) && CTRL_Z !in EscapeText(s)
    ensures QuotesEscaped(EscapeText(s))
  {
    if s != "" {
      EscapeTextFacts(s[1..]);
      var e := EscapeText(s);
      if IsSpecial(s[0]) {
        assert e[2..] == EscapeText(s[1..]);
      } else {
        assert e[1..] == EscapeText(s[1..]);
      }
    }
  }

  /** The table of the manual: seven bytes have an escape sequence, and every other byte stands for itself. */
  lemma EscapeTable(c: char)
    ensures EscapeText("\0") == "\\0" && EscapeText("\n") == "\\n" && EscapeText("\r") == "\\r"
    ensures EscapeText([CTRL_Z]) == "\\Z" && EscapeText("\\") == "\\\\"
    ensures EscapeText("'") == "\\'" && EscapeText("\"") == "\\\""
    ensures c !in "\0\n\r\\'\"" && c != CTRL_Z ==> EscapeText([c]) == [c]
  {
    EscapeOne('\0');
    EscapeOne('\n');
    EscapeOne('\r');
    EscapeOne(CTRL_Z);
    EscapeOne('\\');
    EscapeOne('\'');
    EscapeOne('"');
    EscapeOne(c);
  }

  lemma EscapeOne(c: char)
    ensures EscapeText([c]) == EscapeChar(c)
  {
    assert [c][1..] == "";
    assert EscapeChar(c) + "" == EscapeChar(c);
  }

  lemma {:induction false} SpecialCountBound(s: string)
    ensures SpecialCount(s) <= |s|
    ensures SpecialCount(s) == |s| <==> forall i :: 0 <= i < |s| ==> IsSpecial(s[i])
  {
    if s != "" {
      SpecialCountBound(s[1..]);
      if IsSpecial(s[0]) && SpecialCount(s[1..]) == |s| - 1 {
        forall i | 0 <= i < |s| ensures IsSpecial(s[i]) {
          if i > 0 { assert s[i] == s[1..][i - 1]; }
        }
      }
    }
  }

  /**
   The staging array has twice the value's length and must take the escaped text and its NUL.
   It is large enough exactly when some byte of the value needs no escaping.
   */
  lemma StagingArrayExact(s: string)
    requires s != ""
    ensures |EscapeText(s)| + 1 <= 2 * |s| <==> exists i :: 0 <= i < |s| && !IsSpecial(s[i])
  {
    EscapeTextFacts(s);
    SpecialCountBound(s);
  }

  lemma {:induction false} EscapeTextAppend(s: string, c: char)
    ensures EscapeText(s + [c]) == EscapeText(s) + EscapeChar(c)
  {
    if s == "" {
      assert s + [c] == [c];
    } else {
      assert (s + [c])[1..] == s[1..] + [c];
      EscapeTextAppend(s[1..], c);
    }
  }

  lemma {:induction false} EscapeTextPrefix(s: string, n: nat)
    requires n <= |s|
    ensures |EscapeText(s[..n])| <= |EscapeText(s)|
    decreases |s| - n
  {
    if n == |s| {
      assert s[..n] == s;
    } else {
      assert s[..n + 1] == s[..n] + [s[n]];
      EscapeTextAppend(s[..n], s[n]);
      EscapeTextPrefix(s, n + 1);
    }
  }

  /** Writes one byte's escape sequence at `pos`; returns the position after it. */
  method PutEscaped(to: array<char>, pos: nat, c: char) returns (next: nat)
    requires pos + |EscapeChar(c)| <= to.Length
    modifies to
    ensures next == pos + |EscapeChar(c)|
    ensures to[..next] == old(to[..pos]) + EscapeChar(c)
  {
    if IsSpecial(c) {
      to[pos] := '\\';
      to[pos + 1] := EscapeLetter(c);
      next := pos + 2;
    } else {
      to[pos] := c;
      next := pos + 1;
    }
  }

  /** Writes the escaped text of `from` and a NUL into `to` from offset `at`; returns its length. */
  method EscapeInto(to: array<char>, at: nat, from: string) returns (length: nat)
    requires at + |EscapeText(from)| + 1 <= to.Length
    modifies to
    ensures length == |EscapeText(from)|
    ensures to[..at + length] == old(to[..at]) + EscapeText(from)
    ensures to[at + length] == NUL
  {
    var pos := at;
    for i := 0 to |from|
      invariant pos == at + |EscapeText(from[..i])| < to.Length
      invariant to[..pos] == old(to[..at]) + EscapeText(from[..i])
    {
      assert from[..i + 1] == from[..i] + [from[i]];
      EscapeTextAppend(from[..i], from[i]);
      EscapeTextPrefix(from, i + 1);
      pos := PutEscaped(to, pos, from[i]);
    }
    assert from[..|from|] == from;
    ghost var done := to[..pos];
    to[pos] := NUL;
    assert to[..pos] == done;
    length := pos - at;
  }
}
