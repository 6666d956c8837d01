/**
 The C side of text: strings that end at the first NUL byte, `snprintf`, decimal printing,
 and the wrap-around of fixed-width integers.  A byte is a `char`; only NUL is special here.
 */
module CText {
  datatype Option<+T> = None | Some(value: T)

  const NUL: char := '\0'
  const TWO_31 := 0x8000_0000
  const TWO_32 := 0x1_0000_0000
  const TWO_63 := 0x8000_0000_0000_0000
  const TWO_64 := 0x1_0000_0000_0000_0000

  // ---------- fixed-width integers ----------

  /** The value a signed integer type of `modulus` bit patterns keeps of `x` (two's complement). */
  function ToSigned(x: int, modulus: int): int
    requires modulus > 0
  {
    var u := x % modulus;
    if 2 * u < modulus then u else u - modulus
  }

  lemma SignedStays(x: int, modulus: int)
    requires modulus == TWO_32 || modulus == TWO_64
    requires -modulus <= 2 * x < modulus
    ensures ToSigned(x, modulus) == x
  {
    if modulus == TWO_32 {
      assert x % TWO_32 == if x < 0 then x + TWO_32 else x;
    } else {
      assert x % TWO_64 == if x < 0 then x + TWO_64 else x;
    }
  }

  // ---------- C strings ----------

  /** The C string held in `s`: everything before the first NUL. */
  function CStr(s: string): string {
    if s == "" || s[0] == NUL then "" else [s[0]] + CStr(s[1..])
  }

  /** What `snprintf` leaves of `text` in `size` bytes: at most `size - 1` characters and a NUL. */
  function Truncate(text: string, size: nat): string
    requires size > 0
  {
    if |text| < size then text else text[..size - 1]
  }

  lemma {:induction false} CStrStops(s: string, rest: string)
    requires NUL !in s
    ensures CStr(s + [NUL] + rest) == s
  {
    var whole := s + [NUL] + rest;
    if s != "" {
      assert whole[1..] == s[1..] + [NUL] + rest;
      CStrStops(s[1..], rest);
    }
  }

  lemma {:induction false} CStrWhole(s: string)
    requires NUL !in s
    ensures CStr(s) == s
  {
    if s != "" {
      CStrWhole(s[1..]);
    }
  }

  lemma {:induction false} CStrNulFree(s: string)
    ensures NUL !in CStr(s)
    ensures |CStr(s)| <= |s|
    ensures CStr(s) == s <==> NUL !in s
  {
    if s != "" && s[0] != NUL {
      CStrNulFree(s[1..]);
      assert s == [s[0]] + s[1..];
    }
  }

  /** A buffer whose first NUL is at `n` holds the C string of its first `n` bytes. */
  lemma CStrOfBuffer(buf: string, n: nat)
    requires n < |buf| && buf[n] == NUL && NUL !in buf[..n]
    ensures CStr(buf) == buf[..n]
  {
    assert buf == buf[..n] + [NUL] + buf[n + 1..];
    CStrStops(buf[..n], buf[n + 1..]);
  }

  /** `snprintf(buf, size, ...)` where the conversions produce `text`. */
  method Snprintf(buf: array<char>, size: nat, text: string)
    requires 0 < size <= buf.Length && NUL !in text
    modifies buf
    ensures CStr(buf[..]) == Truncate(text, size)
    ensures buf[..|Truncate(text, size)|] == Truncate(text, size)
  {
    var n := |Truncate(text, size)|;
    for i := 0 to n
      invariant buf[..i] == text[..i]
    {
      buf[i] := text[i];
    }
    buf[n] := NUL;
    assert buf[..][..n] == text[..n] == Truncate(text, size);
    CStrOfBuffer(buf[..], n);
  }

  // ---------- decimal numbers ----------

  function Digit(d: nat): char
    requires d < 10
  {
    ('0' as int + d) as char
  }

  predicate IsDigit(c: char) {
    '0' <= c <= '9'
  }

  function DecNat(n: nat): string {
    if n < 10 then [Digit(n)] else DecNat(n / 10) + [Digit(n % 10)]
  }

  /** `%d`, `%ld`, `%lld`, `%lu` and `%llu` of the value `n`. */
  function Dec(n: int): string {
    if n < 0 then "-" + DecNat(-n) else DecNat(n)
  }

  /** The number of digits at the front of `s`. */
  function DigitRun(s: string): nat
    ensures DigitRun(s) <= |s|
    ensures AllDigits(s[..DigitRun(s)])
  {
    if s == "" || !IsDigit(s[0]) then 0 else 1 + DigitRun(s[1..])
  }

  predicate AllDigits(s: string) {
    forall i :: 0 <= i < |s| ==> IsDigit(s[i])
  }

  /** The number a string of digits denotes. */
  function DigitsValue(s: string): (v: int)
    requires AllDigits(s)
    ensures v >= 0
  {
    if s == "" then 0
    else
      assert IsDigit(s[|s| - 1]);
      DigitsValue(s[..|s| - 1]) * 10 + (s[|s| - 1] as int - '0' as int)
  }

  /** Reads a run of digits at the front of `s`; returns its value and the text after it. */
  function ScanDigits(s: string): Option<(int, string)> {
    var k := DigitRun(s);
    if k == 0 then None else Some((DigitsValue(s[..k]), s[k..]))
  }

  /** Reads a decimal number, signed or not, at the front of `s`. */
  function ScanInt(s: string): Option<(int, string)> {
    if s == "" || s[0] != '-' then ScanDigits(s)
    else
      match ScanDigits(s[1..])
      case Some((v, rest)) => Some((-v, rest))
      case None => None
  }

  lemma {:induction false} DecNatDigits(n: nat)
    ensures |DecNat(n)| > 0
    ensures AllDigits(DecNat(n))
    ensures DigitsValue(DecNat(n)) == n
  {
    if n >= 10 {
      DecNatDigits(n / 10);
      var s := DecNat(n);
      assert s[..|s| - 1] == DecNat(n / 10);
    } else {
      assert DecNat(n)[..0] == "";
    }
  }

  lemma {:induction false} DigitRunStops(s: string, rest: string)
    requires AllDigits(s)
    requires rest == "" || !IsDigit(rest[0])
    ensures DigitRun(s + rest) == |s|
  {
    if s == "" {
      assert s + rest == rest;
    } else {
      assert (s + rest)[1..] == s[1..] + rest;
      DigitRunStops(s[1..], rest);
    }
  }

  /** A run of digits, signed or not, reads as its value. */
  lemma ScanIntDigits(digits: string, rest: string)
    requires digits != "" && AllDigits(digits)
    requires rest == "" || !IsDigit(rest[0])
    ensures ScanInt(digits + rest) == Some((DigitsValue(digits), rest))
    ensures ScanInt("-" + digits + rest) == Some((-DigitsValue(digits), rest))
  {
    ScanDigitsFound(digits, rest);
    ScanIntUnsigned(digits + rest);
    ScanIntMinus(digits + rest);
    assert "-" + digits + rest == "-" + (digits + rest);
  }

  lemma ScanIntUnsigned(body: string)
    requires body != "" && IsDigit(body[0])
    ensures ScanInt(body) == ScanDigits(body)
  {
  }

  lemma ScanIntMinus(body: string)
    ensures ScanInt("-" + body)
            == match ScanDigits(body) case Some((v, rest)) => Some((-v, rest)) case None => None
  {
    assert ("-" + body)[1..] == body;
  }

  lemma ScanDigitsFound(digits: string, rest: string)
    requires digits != "" && AllDigits(digits)
    requires rest == "" || !IsDigit(rest[0])
    ensures ScanDigits(digits + rest) == Some((DigitsValue(digits), rest))
  {
    DigitRunStops(digits, rest);
    var body := digits + rest;
    assert body[..|digits|] == digits && body[|digits|..] == rest;
  }

  /** Decimal printing and reading are inverse, whatever text that is not a digit follows. */
  lemma DecRoundTrip(n: int, rest: string)
    requires rest == "" || !IsDigit(rest[0])
    ensures ScanInt(Dec(n) + rest) == Some((n, rest))
    ensures NUL !in Dec(n)
    ensures Dec(n)[0] == '-' || IsDigit(Dec(n)[0])
  {
    if n < 0 {
      DecNatDigits(-n);
      ScanIntDigits(DecNat(-n), rest);
    } else {
      DecNatDigits(n);
      ScanIntDigits(DecNat(n), rest);
    }
  }

  lemma DecNatLength(n: nat, k: nat, bound: nat)
    requires k > 0 && n < bound && bound == Pow10(k)
    ensures |DecNat(n)| <= k
    decreases k
  {
    if n >= 10 {
      DecNatLength(n / 10, k - 1, Pow10(k - 1));
    }
  }

  function Pow10(k: nat): nat {
    if k == 0 then 1 else 10 * Pow10(k - 1)
  }

  /** Every 64-bit integer, signed or unsigned, prints in at most 20 characters. */
  lemma DecLength64(n: int)
    requires -TWO_63 <= n < TWO_64
    ensures |Dec(n)| <= 20
  {
    assert Pow10(5) == 100_000;
    assert Pow10(10) == 10_000_000_000;
    assert Pow10(15) == 1_000_000_000_000_000;
    assert Pow10(19) == 10_000_000_000_000_000_000;
    if n < 0 {
      DecNatLength(-n, 19, Pow10(19));
    } else {
      assert Pow10(20) == 100_000_000_000_000_000_000;
      DecNatLength(n, 20, Pow10(20));
    }
  }
}
