/**
 Both variants of `skip_trailing_space`: eight bytes at a time at any alignment, and aligned
 machine words between two byte-wise ends.  Both are the plain byte loop.
 */
module SkipSpace {
  import opened ByteOrder

  const SPACE: byte := 0x20

  function Spaces(n: nat): (s: seq<byte>)
    ensures |s| == n && forall i :: 0 <= i < n ==> s[i] == SPACE
  {
    if n == 0 then [] else [SPACE] + Spaces(n - 1)
  }

  predicate AllSpaces(s: seq<byte>) {
    forall i :: 0 <= i < |s| ==> s[i] == SPACE
  }

  /** The byte loop: drop spaces from the end one by one; the length of what stays. */
  function ByteLoop(s: seq<byte>): (end: nat)
    ensures end <= |s|
  {
    if s == [] || s[|s| - 1] != SPACE then |s| else ByteLoop(s[..|s| - 1])
  }

  /** Only spaces from `end` on, and no space just before it. */
  predicate IsEnd(s: seq<byte>, end: nat) {
    end <= |s| && AllSpaces(s[end..]) && (end == 0 || s[end - 1] != SPACE)
  }

  /** There is exactly one such end, and the byte loop finds it. */
  lemma {:induction false} ByteLoopExact(s: seq<byte>, end: nat)
    ensures IsEnd(s, end) <==> end == ByteLoop(s)
  {
    if s != [] && s[|s| - 1] == SPACE {
      var init := s[..|s| - 1];
      ByteLoopExact(init, end);
      if end < |s| {
        assert s[end..] == init[end..] + [SPACE];
      }
    } else if end < |s| {
      assert s[end..][|s| - 1 - end] == s[|s| - 1];
    }
  }

  // ---------- words of spaces ----------

  lemma AllSpacesIs(s: seq<byte>)
    ensures AllSpaces(s) <==> s == Spaces(|s|)
  {
  }

  /** A little-endian word equals the word of spaces exactly when all its bytes are spaces. */
  lemma SpaceWordExact(word: seq<byte>)
    ensures Decode(word) == Decode(Spaces(|word|)) <==> AllSpaces(word)
  {
    AllSpacesIs(word);
    LoadThenStore(word);
    LoadThenStore(Spaces(|word|));
  }

  const SPACES_4 := 0x2020_2020
  const SPACES_8 := 0x2020_2020_2020_2020

  lemma SpaceConstants()
    ensures Decode(Spaces(4)) == SPACES_4
    ensures Decode(Spaces(8)) == SPACES_8
  {
    SpacesStep(0);
    SpacesStep(1);
    SpacesStep(2);
    SpacesStep(3);
    SpacesStep(4);
    SpacesStep(5);
    SpacesStep(6);
    SpacesStep(7);
  }

  lemma SpacesStep(n: nat)
    ensures Decode(Spaces(n + 1)) == SPACE + 256 * Decode(Spaces(n))
    ensures Decode(Spaces(0)) == 0
  {
    assert Spaces(n + 1)[1..] == Spaces(n);
  }

  lemma SpacesBefore(s: seq<byte>, from: nat, end: nat)
    requires from <= end <= |s| && AllSpaces(s[from..end]) && AllSpaces(s[end..])
    ensures AllSpaces(s[from..])
  {
    assert s[from..] == s[from..end] + s[end..];
  }

  // ---------- the two variants ----------

  /** The variant that reads eight bytes wherever they are. */
  method SkipTrailingSpace(buf: array<byte>) returns (end: nat)
    ensures IsEnd(buf[..], end)
    ensures end == ByteLoop(buf[..])
  {
    end := buf.Length;
    while end >= 8
      invariant end <= buf.Length && AllSpaces(buf[..][end..])
    {
      var word := buf[end - 8..end];
      KorrIsDecode(word);
      SpaceConstants();
      SpaceWordExact(word);
      if Uint8Korr(word) != SPACES_8 {
        break;
      }
      assert buf[..][end - 8..end] == word;
      SpacesBefore(buf[..], end - 8, end);
      end := end - 8;
    }
    end := SkipBytes(buf, end, 0);
    ByteLoopExact(buf[..], end);
  }

  /** The byte-wise loop both variants end with, down to `low`. */
  method SkipBytes(buf: array<byte>, from: nat, low: nat) returns (end: nat)
    requires low <= from <= buf.Length && AllSpaces(buf[..][from..])
    ensures low <= end <= from && AllSpaces(buf[..][end..])
    ensures end == low || buf[end - 1] != SPACE
  {
    end := from;
    while end > low && buf[end - 1] == SPACE
      invariant low <= end <= from && AllSpaces(buf[..][end..])
    {
      assert buf[..][end - 1..end] == [buf[end - 1]];
      SpacesBefore(buf[..], end - 1, end);
      end := end - 1;
    }
  }

  /** The value of a machine word in memory, in either byte order. */
  function WordValue(word: seq<byte>, bigEndian: bool): nat {
    Decode(if bigEndian then Reversed(word) else word)
  }

  function Reversed(s: seq<byte>): (r: seq<byte>)
    ensures |r| == |s| && forall i :: 0 <= i < |s| ==> r[i] == s[|s| - 1 - i]
  {
    seq(|s|, i requires 0 <= i < |s| => s[|s| - 1 - i])
  }

  lemma WordValueExact(word: seq<byte>, bigEndian: bool)
    ensures WordValue(word, bigEndian) == Decode(Spaces(|word|)) <==> AllSpaces(word)
  {
    if bigEndian {
      SpaceWordExact(Reversed(word));
      assert forall i :: 0 <= i < |word| ==> word[i] == Reversed(word)[|word| - 1 - i];
    } else {
      SpaceWordExact(word);
    }
  }

  /**
   The variant for machines that must read aligned words: `addr` is the buffer's address and
   `size` the size of an unsigned int, 4 or 8.
   */
  method SkipTrailingSpaceAligned(buf: array<byte>, addr: nat, size: nat, bigEndian: bool) returns (end: nat)
    requires size == 4 || size == 8
    ensures IsEnd(buf[..], end)
    ensures end == ByteLoop(buf[..])
  {
    var spaceInt := if size == 4 then SPACES_4 else SPACES_8;
    end := buf.Length;
    if buf.Length > 20 {
      var endWords := (addr + end) / size * size - addr;
      var startWords := (addr + size - 1) / size * size - addr;
      WordBounds(addr, end, size);
      end := SkipBytes(buf, end, endWords);
      if buf[end - 1] == SPACE && startWords < endWords {
        end := SkipWords(buf, addr, end, startWords, size, spaceInt, bigEndian);
      }
    }
    end := SkipBytes(buf, end, 0);
    ByteLoopExact(buf[..], end);
  }

  /** Rounding the end down and the start up to word boundaries stays inside a buffer of over 20 bytes. */
  lemma WordBounds(addr: nat, end: nat, size: nat)
    requires (size == 4 || size == 8) && end > 20
    ensures var endWords := (addr + end) / size * size - addr;
            0 < endWords <= end && (addr + endWords) % size == 0
    ensures var startWords := (addr + size - 1) / size * size - addr;
            0 <= startWords < size && (addr + startWords) % size == 0
  {
    RoundDown(addr + end, size, (addr + end) / size * size);
    RoundDown(addr + size - 1, size, (addr + size - 1) / size * size);
  }

  lemma RoundDown(x: nat, size: nat, down: int)
    requires size > 0 && down == x / size * size
    ensures x - size < down <= x && down % size == 0
  {
    var q := x / size;
    assert down == size * q && x == size * q + x % size;
    ModUnique(down, size, q, 0);
  }

  /** The aligned loop: both ends lie on word boundaries, so every read is inside the buffer. */
  method SkipWords(buf: array<byte>, addr: nat, from: nat, low: nat, size: nat, spaceInt: nat, bigEndian: bool)
    returns (end: nat)
    requires (size == 4 && spaceInt == SPACES_4) || (size == 8 && spaceInt == SPACES_8)
    requires low <= from <= buf.Length && (addr + from) % size == 0 && (addr + low) % size == 0
    requires AllSpaces(buf[..][from..])
    ensures low <= end <= from && AllSpaces(buf[..][end..])
  {
    SpaceConstants();
    end := from;
    if end > low {
      AlignedGap(addr, low, end, size);
    }
    while end > low && WordValue(buf[end - size..end], bigEndian) == spaceInt
      invariant low <= end <= from && (addr + end) % size == 0
      invariant end > low ==> end >= low + size
      invariant AllSpaces(buf[..][end..])
    {
      AlignedGap(addr, low, end, size);
      WordValueExact(buf[end - size..end], bigEndian);
      assert buf[..][end - size..end] == buf[end - size..end];
      SpacesBefore(buf[..], end - size, end);
      end := end - size;
    }
  }

  /** Two word boundaries are a whole number of words apart. */
  lemma AlignedGap(addr: nat, low: nat, end: nat, size: nat)
    requires (size == 4 || size == 8) && low < end
    requires (addr + end) % size == 0 && (addr + low) % size == 0
    ensures low + size <= end && (addr + end - size) % size == 0
    ensures low < end - size ==> low + size <= end - size
  {
    var upper, lower := (addr + end) / size, (addr + low) / size;
    assert addr + end == size * upper && addr + low == size * lower;
    NextMultiple(size, lower, upper);
    assert size * (upper - 1) == size * upper - size;
    ModUnique(addr + end - size, size, upper - 1, 0);
    if low < end - size {
      NextMultiple(size, lower, upper - 1);
    }
  }

  lemma NextMultiple(size: nat, lower: int, upper: int)
    requires size > 0 && size * lower < size * upper
    ensures size * lower + size <= size * upper
  {
    var gap := upper - lower;
    assert size * gap == size * upper - size * lower;
    assert gap > 0;
    assert size * (gap - 1) >= 0;
  }
}
