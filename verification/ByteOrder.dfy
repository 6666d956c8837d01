/**
 Little-endian stores and loads: the byte-by-byte forms of `my_byteorder.h` and
 `byte_order_generic.h`, the single-word forms of `byte_order_generic_x86.h`, and one base-256
 encoding that all of them are.  A shift by 8k is a division or multiplication by 256^k.
 */
module ByteOrder {
  import opened CText

  type byte = x: int | 0 <= x < 256

  const TWO_8 := 0x100
  const TWO_16 := 0x1_0000
  const TWO_24 := 0x100_0000
  const TWO_40 := 0x100_0000_0000
  const TWO_48 := 0x1_0000_0000_0000

  function Pow256(n: nat): (p: int)
    ensures p > 0
  {
    if n == 0 then 1 else 256 * Pow256(n - 1)
  }

  /** The `n` low bytes of `v`, low byte first. */
  function Encode(v: nat, n: nat): (bytes: seq<byte>)
    ensures |bytes| == n
  {
    if n == 0 then [] else [v % 256] + Encode(v / 256, n - 1)
  }

  function Decode(bytes: seq<byte>): nat {
    if bytes == [] then 0 else bytes[0] + 256 * Decode(bytes[1..])
  }

  // ---------- the encoding ----------

  lemma ModUnique(v: int, m: int, q: int, r: int)
    requires m > 0 && v == m * q + r && 0 <= r < m
    ensures v % m == r && v / m == q
  {
    var d := v / m - q;
    assert m * d == r - v % m;
    assert d >= 1 ==> m * d >= m;
    assert d <= -1 ==> m * d <= -m;
  }

  lemma ModStep(v: nat, p: int)
    requires p > 0
    ensures v % (256 * p) == v % 256 + 256 * ((v / 256) % p)
  {
    var q, r := v / 256, v % 256;
    var a, b := q / p, q % p;
    assert q == p * a + b && 0 <= b < p;
    assert v == 256 * q + r;
    assert 256 * (p * a) == (256 * p) * a;
    ModUnique(v, 256 * p, a, r + 256 * b);
  }

  /** Storing `n` bytes and loading them gives the value modulo 256^n. */
  lemma {:induction false} StoreThenLoad(v: nat, n: nat)
    ensures Decode(Encode(v, n)) == v % Pow256(n)
  {
    if n > 0 {
      StoreThenLoad(v / 256, n - 1);
      ModStep(v, Pow256(n - 1));
      assert Encode(v, n)[1..] == Encode(v / 256, n - 1);
    }
  }

  /** `v >> 8n` */
  function Shift(v: nat, n: nat): nat {
    if n == 0 then v else Shift(v / 256, n - 1)
  }

  lemma {:induction false} EncodeSplit(v: nat, n: nat, m: nat)
    ensures Encode(v, n + m) == Encode(v, n) + Encode(Shift(v, n), m)
  {
    if n > 0 {
      EncodeSplit(v / 256, n - 1, m);
    }
  }

  lemma ShiftBy(v: nat)
    ensures Shift(v, 1) == v / TWO_8 && Shift(v, 2) == v / TWO_16 && Shift(v, 3) == v / TWO_24
    ensures Shift(v, 4) == v / TWO_32 && Shift(v, 5) == v / TWO_40
  {
    assert v / 256 / 256 == v / TWO_16;
    assert v / TWO_16 / 256 == v / TWO_24;
    assert v / TWO_24 / 256 == v / TWO_32;
    assert v / TWO_32 / 256 == v / TWO_40;
    ShiftStep(v, 1);
    ShiftStep(v, 2);
    ShiftStep(v, 3);
    ShiftStep(v, 4);
  }

  lemma {:induction false} ShiftStep(v: nat, n: nat)
    ensures Shift(v, n + 1) == Shift(v, n) / 256
  {
    if n > 0 {
      ShiftStep(v / 256, n - 1);
    }
  }

  /** One more byte of the encoding is the next shift's low byte. */
  lemma EncodeAppend(v: nat, n: nat)
    ensures Encode(v, n + 1) == Encode(v, n) + [Shift(v, n) % 256]
  {
    EncodeSplit(v, n, 1);
    assert Encode(Shift(v, n), 1) == [Shift(v, n) % 256] + Encode(Shift(v, n) / 256, 0);
  }

  /** Loading bytes and storing them restores the bytes. */
  lemma {:induction false} LoadThenStore(bytes: seq<byte>)
    ensures Encode(Decode(bytes), |bytes|) == bytes
    ensures Decode(bytes) < Pow256(|bytes|)
  {
    if bytes != [] {
      LoadThenStore(bytes[1..]);
      LowByte(bytes[0], Decode(bytes[1..]));
      assert bytes == [bytes[0]] + bytes[1..];
    }
  }

  lemma LowByte(b: byte, rest: nat)
    ensures (b + 256 * rest) % 256 == b && (b + 256 * rest) / 256 == rest
  {
  }

  lemma Powers()
    ensures Pow256(1) == TWO_8 && Pow256(2) == TWO_16 && Pow256(3) == TWO_24 && Pow256(4) == TWO_32
    ensures Pow256(5) == TWO_40 && Pow256(6) == TWO_48 && Pow256(8) == TWO_64
  {
    assert Pow256(2) == TWO_16;
    assert Pow256(4) == TWO_32;
    assert Pow256(6) == TWO_48;
  }

  // ---------- loads ----------

  function Uint2Korr(a: seq<byte>): int
    requires |a| >= 2
  {
    (a[0] + a[1] * TWO_8) % TWO_16
  }

  function Sint2Korr(a: seq<byte>): int
    requires |a| >= 2
  {
    ToSigned(a[0] + a[1] * TWO_8, TWO_16)
  }

  function Uint3Korr(a: seq<byte>): int
    requires |a| >= 3
  {
    (a[0] + a[1] * TWO_8 + a[2] * TWO_16) % TWO_32
  }

  /** The bitwise or, bit by bit. */
  function BitOr(x: nat, y: nat): nat {
    if x == 0 then y
    else if y == 0 then x
    else (if x % 2 == 1 || y % 2 == 1 then 1 else 0) + 2 * BitOr(x / 2, y / 2)
  }

  /** The word of `sint3korr`: the sign bit of the third byte chooses whether the fourth is all ones. */
  function Sint3Word(c: byte, b: byte, a: byte): nat {
    if c >= 128 then BitOr(BitOr(BitOr(255 * TWO_24, c * TWO_16), b * TWO_8), a)
    else BitOr(BitOr(c * TWO_16, b * TWO_8), a)
  }

  function Sint3Korr(a: seq<byte>): int
    requires |a| >= 3
  {
    ToSigned(Sint3Word(a[2], a[1], a[0]), TWO_32)
  }

  function Uint4Korr(a: seq<byte>): int
    requires |a| >= 4
  {
    (a[0] + a[1] * TWO_8 + a[2] * TWO_16 + a[3] * TWO_24) % TWO_32
  }

  function Sint4Korr(a: seq<byte>): int
    requires |a| >= 4
  {
    ToSigned(a[0] + a[1] * TWO_8 + a[2] * TWO_16 + ToSigned(a[3] * TWO_24, TWO_32), TWO_32)
  }

  function Uint5Korr(a: seq<byte>): int
    requires |a| >= 5
  {
    (Uint4Korr(a) + a[4] * TWO_32) % TWO_64
  }

  function Uint6Korr(a: seq<byte>): int
    requires |a| >= 6
  {
    (Uint4Korr(a) + a[4] * TWO_32 + a[5] * TWO_40) % TWO_64
  }

  function Uint8Korr(a: seq<byte>): int
    requires |a| >= 8
  {
    (Uint4Korr(a) + Uint4Korr(a[4..]) * TWO_32) % TWO_64
  }

  function Sint8Korr(a: seq<byte>): int
    requires |a| >= 8
  {
    ToSigned(Uint8Korr(a), TWO_64)
  }

  /** The x86 loads read `n` bytes as one little-endian word, signed or not. */
  function WordLoad(a: seq<byte>, n: nat, signed: bool): int
    requires n <= |a|
  {
    if signed then ToSigned(Decode(a[..n]), Pow256(n)) else Decode(a[..n])
  }

  function Pow2(k: nat): (p: int)
    ensures p > 0
  {
    if k == 0 then 1 else 2 * Pow2(k - 1)
  }

  /** An even number has no lowest bit to share. */
  lemma {:induction false} OrStep(a: nat, y: nat)
    ensures BitOr(2 * a, y) == y % 2 + 2 * BitOr(a, y / 2)
  {
    if a > 0 && y > 0 {
      assert 2 * a / 2 == a && 2 * a % 2 == 0;
    }
  }

  predicate HasBit(x: nat, k: nat) {
    if k == 0 then x % 2 == 1 else HasBit(x / 2, k - 1)
  }

  lemma OrHalves(x: nat, y: nat)
    requires x != 0 && y != 0
    ensures BitOr(x, y) / 2 == BitOr(x / 2, y / 2)
    ensures BitOr(x, y) % 2 == 1 <==> x % 2 == 1 || y % 2 == 1
  {
    var bit := if x % 2 == 1 || y % 2 == 1 then 1 else 0;
    LowBit(bit, BitOr(x / 2, y / 2));
  }

  lemma LowBit(bit: nat, rest: nat)
    requires bit <= 1
    ensures (bit + 2 * rest) / 2 == rest && (bit + 2 * rest) % 2 == bit
  {
  }

  /** Every bit of the or is there exactly when it is in one of the two, or in both. */
  lemma {:induction false} OrHasBits(x: nat, y: nat, k: nat)
    ensures HasBit(BitOr(x, y), k) <==> HasBit(x, k) || HasBit(y, k)
    decreases k
  {
    if x == 0 || y == 0 {
      ZeroHasNoBit(k);
    } else {
      OrHalves(x, y);
      if k > 0 {
        OrHasBits(x / 2, y / 2, k - 1);
      }
    }
  }

  lemma {:induction false} ZeroHasNoBit(k: nat)
    ensures !HasBit(0, k)
  {
    if k > 0 {
      ZeroHasNoBit(k - 1);
    }
  }

  lemma Twice(x: nat, p: nat)
    ensures x * (2 * p) == 2 * (x * p)
  {
  }

  /** The bitwise or of values in disjoint places is their sum. */
  lemma {:induction false} OrIsSum(x: nat, y: nat, k: nat)
    requires y < Pow2(k)
    ensures BitOr(x * Pow2(k), y) == x * Pow2(k) + y
  {
    if k > 0 {
      Twice(x, Pow2(k - 1));
      OrIsSum(x, y / 2, k - 1);
      OrStep(x * Pow2(k - 1), y);
    }
  }

  /** One more byte, or byte with those below it, or-ed into its free place. */
  lemma OrPlace(acc: nat, x: nat, y: nat, k: nat, or: nat)
    requires acc == x * Pow2(k) && y < Pow2(k) && or == BitOr(acc, y)
    ensures or == acc + y
  {
    OrIsSum(x, y, k);
  }

  lemma Pow2Bytes()
    ensures Pow2(8) == TWO_8 && Pow2(16) == TWO_16 && Pow2(24) == TWO_24
  {
    assert Pow2(8) == TWO_8;
    assert Pow2(16) == TWO_16;
  }

  /** The or of three bytes below what is above them. */
  lemma {:induction false} OrOfBytes(top: nat, c: byte, b: byte, a: byte, or2: nat, or3: nat, or: nat)
    requires or2 == BitOr(top * TWO_24, c * TWO_16) && or3 == BitOr(or2, b * TWO_8) && or == BitOr(or3, a)
    ensures or == top * TWO_24 + c * TWO_16 + b * TWO_8 + a
  {
    Pow2Bytes();
    OrPlace(top * TWO_24, top, c * TWO_16, 24, or2);
    OrPlace(or2, top * TWO_8 + c, b * TWO_8, 16, or3);
    OrPlace(or3, (top * TWO_8 + c) * TWO_8 + b, a, 8, or);
  }

  /** So the signed 3-byte load adds its shifted bytes, and fills the top byte for a negative number. */
  lemma {:induction false} Sint3OrIsSum(c: byte, b: byte, a: byte)
    ensures Sint3Word(c, b, a) == (if c >= 128 then 255 * TWO_24 else 0) + c * TWO_16 + b * TWO_8 + a
  {
    if c >= 128 {
      var or2 := BitOr(255 * TWO_24, c * TWO_16);
      OrOfBytes(255, c, b, a, or2, BitOr(or2, b * TWO_8), Sint3Word(c, b, a));
    } else {
      OrOfBytes(0, c, b, a, c * TWO_16, BitOr(c * TWO_16, b * TWO_8), Sint3Word(c, b, a));
    }
  }

  lemma DecodeStep(a: seq<byte>, k: nat)
    requires k < |a|
    ensures Decode(a[k..]) == a[k] + 256 * Decode(a[k + 1..])
  {
    assert a[k..][1..] == a[k + 1..];
  }

  lemma DecodeUpTo4(a: seq<byte>)
    ensures |a| == 2 ==> Decode(a) == a[0] + a[1] * TWO_8
    ensures |a| == 3 ==> Decode(a) == a[0] + a[1] * TWO_8 + a[2] * TWO_16
    ensures |a| >= 4 ==> Decode(a) == a[0] + a[1] * TWO_8 + a[2] * TWO_16 + a[3] * TWO_24 + TWO_32 * Decode(a[4..])
  {
    assert a[0..] == a;
    if |a| >= 2 {
      DecodeStep(a, 0);
      DecodeStep(a, 1);
    }
    if |a| >= 3 {
      DecodeStep(a, 2);
    }
    if |a| >= 4 {
      DecodeStep(a, 3);
    }
  }

  lemma Korr4(a: seq<byte>)
    requires |a| >= 4
    ensures Decode(a) == Uint4Korr(a) + TWO_32 * Decode(a[4..])
  {
    DecodeUpTo4(a);
  }

  lemma Korr2(a: seq<byte>)
    requires |a| == 2
    ensures Uint2Korr(a) == Decode(a) && Sint2Korr(a) == ToSigned(Decode(a), TWO_16)
  {
    DecodeUpTo4(a);
  }

  /** A 24-bit pattern with its sign bit spread over the top byte keeps its signed value. */
  lemma SignSpreads(u: nat, word: nat)
    requires u < TWO_24 && word == (if 2 * u >= TWO_24 then 255 * TWO_24 else 0) + u
    ensures ToSigned(word, TWO_32) == ToSigned(u, TWO_24)
  {
  }

  lemma Korr3Unsigned(a: seq<byte>)
    requires |a| == 3
    ensures Uint3Korr(a) == Decode(a)
  {
    DecodeUpTo4(a);
  }

  lemma Korr3(a: seq<byte>)
    requires |a| == 3
    ensures Uint3Korr(a) == Decode(a) && Sint3Korr(a) == ToSigned(Decode(a), TWO_24)
  {
    Korr3Unsigned(a);
    Sint3IsSigned(a);
  }

  lemma Sint3IsSigned(a: seq<byte>)
    requires |a| >= 3
    ensures Sint3Korr(a) == ToSigned(Uint3Korr(a), TWO_24)
  {
    Sint3WordIsSigned(a[2], a[1], a[0], Sint3Word(a[2], a[1], a[0]));
    Uint3IsSum(a);
  }

  lemma Uint3IsSum(a: seq<byte>)
    requires |a| >= 3
    ensures Uint3Korr(a) == a[2] * TWO_16 + a[1] * TWO_8 + a[0]
  {
    ThreeBytes(a[2], a[1], a[0]);
  }

  lemma {:induction false} Sint3WordIsSigned(c: byte, b: byte, a: byte, word: nat)
    requires word == Sint3Word(c, b, a)
    ensures ToSigned(word, TWO_32) == ToSigned(c * TWO_16 + b * TWO_8 + a, TWO_24)
  {
    Sint3OrIsSum(c, b, a);
    ThreeBytes(c, b, a);
    SignSpreads(c * TWO_16 + b * TWO_8 + a, word);
  }

  lemma ThreeBytes(c: byte, b: byte, a: byte)
    ensures var u := c * TWO_16 + b * TWO_8 + a;
            u < TWO_24 && u % TWO_32 == u && (2 * u >= TWO_24 <==> c >= 128)
  {
  }

  lemma Korr5(a: seq<byte>)
    requires |a| == 5
    ensures Uint5Korr(a) == Decode(a)
  {
    Korr4(a);
    DecodeStep(a, 4);
    assert Decode(a[5..]) == 0;
    InRange(Uint4Korr(a), a[4], 0);
  }

  lemma Korr6(a: seq<byte>)
    requires |a| == 6
    ensures Uint6Korr(a) == Decode(a)
  {
    Korr4(a);
    DecodeStep(a, 4);
    DecodeStep(a, 5);
    assert Decode(a[6..]) == 0;
    InRange(Uint4Korr(a), a[4], a[5]);
  }

  lemma InRange(low: nat, e: byte, f: byte)
    requires low < TWO_32
    ensures var v := low + e * TWO_32 + f * TWO_40; v % TWO_64 == v
  {
  }

  lemma Korr8(a: seq<byte>)
    requires |a| == 8
    ensures Uint8Korr(a) == Decode(a)
  {
    Korr4(a);
    Korr4(a[4..]);
    assert a[4..][4..] == [];
  }

  lemma Sint4Wraps(a: seq<byte>)
    requires |a| == 4
    ensures Sint4Korr(a) == ToSigned(Uint4Korr(a), TWO_32)
  {
    var low, high := a[0] + a[1] * TWO_8 + a[2] * TWO_16, a[3] * TWO_24;
    assert ToSigned(high, TWO_32) == if high < TWO_31 then high else high - TWO_32;
    assert Uint4Korr(a) == low + high;
    if high >= TWO_31 {
      assert (low + high - TWO_32) % TWO_32 == low + high;
    }
  }

  /** Every byte-by-byte load of exactly its bytes is the base-256 value of them. */
  lemma KorrIsDecode(a: seq<byte>)
    ensures |a| == 2 ==> Uint2Korr(a) == Decode(a) && Sint2Korr(a) == ToSigned(Decode(a), TWO_16)
    ensures |a| == 3 ==> Uint3Korr(a) == Decode(a) && Sint3Korr(a) == ToSigned(Decode(a), TWO_24)
    ensures |a| == 4 ==> Uint4Korr(a) == Decode(a) && Sint4Korr(a) == ToSigned(Decode(a), TWO_32)
    ensures |a| == 5 ==> Uint5Korr(a) == Decode(a)
    ensures |a| == 6 ==> Uint6Korr(a) == Decode(a)
    ensures |a| == 8 ==> Uint8Korr(a) == Decode(a) && Sint8Korr(a) == ToSigned(Decode(a), TWO_64)
  {
    if |a| == 2 {
      Korr2(a);
    } else if |a| == 3 {
      Korr3(a);
    } else if |a| == 4 {
      Korr4(a);
      Sint4Wraps(a);
    } else if |a| == 5 {
      Korr5(a);
    } else if |a| == 6 {
      Korr6(a);
    } else if |a| == 8 {
      Korr8(a);
    }
  }

  /** The x86 loads compute what the generic loads compute. */
  lemma X86LoadsAgree(a: seq<byte>)
    ensures |a| >= 2 ==> WordLoad(a, 2, false) == Uint2Korr(a) && WordLoad(a, 2, true) == Sint2Korr(a)
    ensures |a| >= 4 ==> WordLoad(a, 4, false) == Uint4Korr(a) && WordLoad(a, 4, true) == Sint4Korr(a)
    ensures |a| >= 8 ==> WordLoad(a, 8, false) == Uint8Korr(a) && WordLoad(a, 8, true) == Sint8Korr(a)
  {
    if |a| >= 2 {
      Word2Agrees(a);
    }
    if |a| >= 4 {
      Word4Agrees(a);
    }
    if |a| >= 8 {
      Word8Agrees(a);
    }
  }

  lemma Word2Agrees(a: seq<byte>)
    requires |a| >= 2
    ensures WordLoad(a, 2, false) == Uint2Korr(a) && WordLoad(a, 2, true) == Sint2Korr(a)
  {
    Powers();
    Korr2(a[..2]);
  }

  lemma Word4Agrees(a: seq<byte>)
    requires |a| >= 4
    ensures WordLoad(a, 4, false) == Uint4Korr(a) && WordLoad(a, 4, true) == Sint4Korr(a)
  {
    Powers();
    KorrIsDecode(a[..4]);
  }

  lemma Word8Agrees(a: seq<byte>)
    requires |a| >= 8
    ensures WordLoad(a, 8, false) == Uint8Korr(a) && WordLoad(a, 8, true) == Sint8Korr(a)
  {
    Powers();
    Korr8(a[..8]);
    assert a[..8][4..] == a[4..8];
  }

  lemma Sint3Bits(u: nat)
    requires u < TWO_24
    ensures Sint3Korr(Encode(u, 3)) == ToSigned(u, TWO_24)
  {
    assert Decode(Encode(u, 3)) == u by {
      StoreThenLoad(u, 3);
      Powers();
    }
    Korr3(Encode(u, 3));
  }

  lemma {:induction false} EncodeLow(v: nat, n: nat)
    ensures Encode(v % Pow256(n), n) == Encode(v, n)
  {
    StoreThenLoad(v, n);
    LoadThenStore(Encode(v, n));
  }

  /** The signed 3-byte load inverts the 3-byte store on its whole range. */
  lemma Sint3Inverse(v: int)
    requires -TWO_24 <= 2 * v < TWO_24
    ensures Sint3Korr(Encode(v % TWO_32, 3)) == v
  {
    var u := if v < 0 then v + TWO_24 else v;
    var w := if v < 0 then v + TWO_32 else v;
    assert v % TWO_32 == w;
    assert w % TWO_24 == u;
    Powers();
    EncodeLow(w, 3);
    Sint3Bits(u);
  }

  // ---------- stores ----------

  /** `after` is `before` with the `n` low bytes of `v` at `at`, and no other byte changed. */
  ghost predicate Stored(before: seq<byte>, after: seq<byte>, at: nat, v: nat, n: nat) {
    at + n <= |before| && after == before[..at] + Encode(v, n) + before[at + n..]
  }

  /** Single-byte writes of the shifted value leave its encoding. */
  lemma ShiftsAreEncode(v: nat)
    ensures Encode(v, 1) == Encode(v, 0) + [v % 256]
    ensures Encode(v, 2) == Encode(v, 1) + [v / TWO_8 % 256]
    ensures Encode(v, 3) == Encode(v, 2) + [v / TWO_16 % 256]
    ensures Encode(v, 4) == Encode(v, 3) + [v / TWO_24 % 256]
    ensures Encode(v, 5) == Encode(v, 4) + [v / TWO_32 % 256]
    ensures Encode(v, 6) == Encode(v, 5) + [v / TWO_40 % 256]
  {
    ShiftBy(v);
    EncodeAppend(v, 0);
    EncodeAppend(v, 1);
    EncodeAppend(v, 2);
    EncodeAppend(v, 3);
    EncodeAppend(v, 4);
    EncodeAppend(v, 5);
  }

  /** The next single-byte write of a store: `b` is byte `k` of `v`. */
  method PutByte(t: array<byte>, at: nat, k: nat, b: byte, ghost before: seq<byte>, ghost v: nat)
    requires at + k < t.Length && |before| == t.Length
    requires Stored(before, t[..], at, v, k) && Encode(v, k + 1) == Encode(v, k) + [b]
    modifies t
    ensures Stored(before, t[..], at, v, k + 1)
  {
    t[at + k] := b;
    assert t[..at + k] == before[..at] + Encode(v, k);
    assert t[at + k + 1..] == before[at + k + 1..];
    assert t[..] == t[..at + k] + [b] + t[at + k + 1..];
  }

  method Int2Store(t: array<byte>, at: nat, a: nat)
    requires at + 2 <= t.Length && a < TWO_16
    modifies t
    ensures Stored(old(t[..]), t[..], at, a, 2)
  {
    ghost var before := t[..];
    ShiftsAreEncode(a);
    PutByte(t, at, 0, a % 256, before, a);
    PutByte(t, at, 1, a / TWO_8 % 256, before, a);
  }

  method Int3Store(t: array<byte>, at: nat, a: nat)
    requires at + 3 <= t.Length && a < TWO_32
    modifies t
    ensures Stored(old(t[..]), t[..], at, a, 3)
  {
    ghost var before := t[..];
    ShiftsAreEncode(a);
    PutByte(t, at, 0, a % 256, before, a);
    PutByte(t, at, 1, a / TWO_8 % 256, before, a);
    PutByte(t, at, 2, a / TWO_16 % 256, before, a);
  }

  method Int4Store(t: array<byte>, at: nat, a: nat)
    requires at + 4 <= t.Length && a < TWO_32
    modifies t
    ensures Stored(old(t[..]), t[..], at, a, 4)
  {
    ghost var before := t[..];
    ShiftsAreEncode(a);
    PutByte(t, at, 0, a % 256, before, a);
    PutByte(t, at, 1, a / TWO_8 % 256, before, a);
    PutByte(t, at, 2, a / TWO_16 % 256, before, a);
    PutByte(t, at, 3, a / TWO_24 % 256, before, a);
  }

  method Int5Store(t: array<byte>, at: nat, a: nat)
    requires at + 5 <= t.Length && a < TWO_64
    modifies t
    ensures Stored(old(t[..]), t[..], at, a, 5)
  {
    ghost var before := t[..];
    ShiftsAreEncode(a);
    PutByte(t, at, 0, a % 256, before, a);
    PutByte(t, at, 1, a / TWO_8 % 256, before, a);
    PutByte(t, at, 2, a / TWO_16 % 256, before, a);
    PutByte(t, at, 3, a / TWO_24 % 256, before, a);
    PutByte(t, at, 4, a / TWO_32 % 256, before, a);
  }

  method Int6Store(t: array<byte>, at: nat, a: nat)
    requires at + 6 <= t.Length && a < TWO_64
    modifies t
    ensures Stored(old(t[..]), t[..], at, a, 6)
  {
    ghost var before := t[..];
    ShiftsAreEncode(a);
    PutByte(t, at, 0, a % 256, before, a);
    PutByte(t, at, 1, a / TWO_8 % 256, before, a);
    PutByte(t, at, 2, a / TWO_16 % 256, before, a);
    PutByte(t, at, 3, a / TWO_24 % 256, before, a);
    PutByte(t, at, 4, a / TWO_32 % 256, before, a);
    PutByte(t, at, 5, a / TWO_40 % 256, before, a);
  }

  /** Two four-byte stores of the low and the high word. */
  method Int8Store(t: array<byte>, at: nat, a: nat)
    requires at + 8 <= t.Length && a < TWO_64
    modifies t
    ensures Stored(old(t[..]), t[..], at, a, 8)
  {
    var low, high := a % TWO_32, a / TWO_32;
    ghost var before := t[..];
    Int4Store(t, at, low);
    ghost var middle := t[..];
    Int4Store(t, at + 4, high);
    EncodeHalves(a);
    StoredTwice(before, middle, t[..], at, low, high);
  }

  lemma EncodeHalves(v: nat)
    ensures Encode(v, 8) == Encode(v % TWO_32, 4) + Encode(v / TWO_32, 4)
  {
    Powers();
    EncodeLow(v, 4);
    EncodeSplit(v, 4, 4);
    ShiftBy(v);
  }

  lemma StoredTwice(before: seq<byte>, middle: seq<byte>, after: seq<byte>, at: nat, low: nat, high: nat)
    requires Stored(before, middle, at, low, 4) && Stored(middle, after, at + 4, high, 4)
    ensures after == before[..at] + (Encode(low, 4) + Encode(high, 4)) + before[at + 8..]
  {
    assert middle[..at + 4] == before[..at] + Encode(low, 4);
    assert middle[at + 8..] == before[at + 8..];
  }

  /** The x86 stores write one little-endian word of `n` bytes. */
  method WordStore(t: array<byte>, at: nat, a: nat, n: nat)
    requires at + n <= t.Length && a < Pow256(n)
    modifies t
    ensures Stored(old(t[..]), t[..], at, a, n)
  {
    var word := Encode(a, n);
    forall i | 0 <= i < n {
      t[at + i] := word[i];
    }
    assert t[at..at + n] == word;
  }

  lemma SignedOfLow(v: int, m: int)
    requires m == TWO_16 || m == TWO_24 || m == TWO_32 || m == TWO_64
    ensures ToSigned(v % m, m) == ToSigned(v, m)
  {
  }

  /** What any of the stores leaves decodes to the value modulo 256^n; no other byte is changed. */
  lemma StoredDecodes(before: seq<byte>, after: seq<byte>, at: nat, v: nat, n: nat)
    requires Stored(before, after, at, v, n)
    ensures |after| == |before| && Decode(after[at..at + n]) == v % Pow256(n)
    ensures after[..at] == before[..at] && after[at + n..] == before[at + n..]
  {
    assert after[at..at + n] == Encode(v, n);
    StoreThenLoad(v, n);
  }

  /**
   After any store the matching load at that place returns the value modulo 256^n, and the signed
   load its two's complement reading, however much of the value the store dropped.
   */
  lemma StoredLoads(before: seq<byte>, after: seq<byte>, at: nat, v: nat, n: nat)
    requires Stored(before, after, at, v, n)
    ensures var a := after[at..at + n];
            && (n == 2 ==> Uint2Korr(a) == v % TWO_16 && Sint2Korr(a) == ToSigned(v, TWO_16))
            && (n == 3 ==> Uint3Korr(a) == v % TWO_24 && Sint3Korr(a) == ToSigned(v, TWO_24))
            && (n == 4 ==> Uint4Korr(a) == v % TWO_32 && Sint4Korr(a) == ToSigned(v, TWO_32))
            && (n == 5 ==> Uint5Korr(a) == v % TWO_40)
            && (n == 6 ==> Uint6Korr(a) == v % TWO_48)
            && (n == 8 ==> Uint8Korr(a) == v % TWO_64 && Sint8Korr(a) == ToSigned(v, TWO_64))
  {
    StoredDecodes(before, after, at, v, n);
    Powers();
    KorrIsDecode(after[at..at + n]);
    if n == 2 || n == 3 || n == 4 || n == 8 {
      SignedOfLow(v, Pow256(n));
    }
  }
}
