/**
 Deadlines of `my_global.h` and `thr_cond.h`, `HAVE_STRUCT_TIMESPEC` branch: the system clock counts
 100 ns units, a `timespec` counts seconds and nanoseconds, a wait counts milliseconds.
 */
module Timespec {
  import opened CText

  const NS_PER_S := 1_000_000_000
  const UNITS_PER_S := 10_000_000
  const NS_PER_MS := 1_000_000

  /** The contents of a `timespec`. */
  datatype Time = Time(sec: int, nsec: int) {
    predicate Normal() {
      0 <= nsec < NS_PER_S
    }

    /** All of it in nanoseconds. */
    function Total(): int {
      sec * NS_PER_S + nsec
    }
  }

  class TimespecCell {
    var tvSec: int
    var tvNsec: int

    function Value(): Time
      reads this
    {
      Time(tvSec, tvNsec)
    }

    /**
     `set_timespec_nsec` with `clock` what `my_getsystime` returned and `narrow` when `time_t` is
     smaller than 64 bits: always a normal time, and the exact instant if and only if the 64-bit
     sum of the 100 ns units does not overflow and its seconds need no clamping.
     */
    method SetTimespecNsec(clock: nat, nsec: nat, narrow: bool)
      requires clock < TWO_64 && nsec < TWO_64
      modifies this
      ensures Value().Normal() && tvSec >= 0 && (narrow ==> tvSec < TWO_31)
      ensures Value().Total() == 100 * clock + nsec
              <==> clock + nsec / 100 < TWO_64 && (narrow ==> clock + nsec / 100 < TWO_31 * UNITS_PER_S)
      ensures Value().Total() <= 100 * clock + nsec
      ensures !narrow ==> Value().Total() == 100 * ((clock + nsec / 100) % TWO_64) + nsec % 100
      ensures narrow && (clock + nsec / 100) % TWO_64 >= TWO_31 * UNITS_PER_S ==> tvSec == TWO_31 - 1
    {
      var now := (clock + nsec / 100) % TWO_64;
      var seconds := now / UNITS_PER_S;
      if narrow {
        seconds := if seconds < TWO_31 - 1 then seconds else TWO_31 - 1;
      }
      tvSec := seconds;
      tvNsec := now % UNITS_PER_S * 100 + nsec % 100;
      SplitUnits(now, nsec);
    }

    /** `set_timespec`: the same for whole seconds; their nanoseconds must fit 64 bits too. */
    method SetTimespec(clock: nat, sec: nat, narrow: bool)
      requires clock < TWO_64 && sec < TWO_64
      modifies this
      ensures Value().Normal() && tvSec >= 0
      ensures Value().Total() == 100 * clock + sec * NS_PER_S
              <==> && sec * NS_PER_S < TWO_64 && clock + sec * UNITS_PER_S < TWO_64
                   && (narrow ==> clock + sec * UNITS_PER_S < TWO_31 * UNITS_PER_S)
    {
      SetTimespecNsec(clock, sec * NS_PER_S % TWO_64, narrow);
      if sec * NS_PER_S < TWO_64 {
        assert sec * NS_PER_S % TWO_64 == sec * NS_PER_S;
        assert sec * NS_PER_S / 100 == sec * UNITS_PER_S;
      }
    }
  }

  /** Seconds and the rest of the units make the units, and the nanoseconds below one unit. */
  lemma SplitUnits(now: nat, nsec: nat)
    ensures var t := Time(now / UNITS_PER_S, now % UNITS_PER_S * 100 + nsec % 100);
            t.Normal() && t.Total() == 100 * now + nsec % 100
  {
  }

  /** `cmp_timespec` */
  function CmpTimespec(t1: Time, t2: Time): int {
    if t1.sec > t2.sec || (t1.sec == t2.sec && t1.nsec > t2.nsec) then 1
    else if t1.sec < t2.sec || (t1.sec == t2.sec && t1.nsec < t2.nsec) then -1
    else 0
  }

  /** `diff_timespec`, in unsigned 64-bit arithmetic */
  function DiffTimespec(t1: Time, t2: Time): int {
    ((t1.sec - t2.sec) * NS_PER_S + t1.nsec - t2.nsec) % TWO_64
  }

  /** On normal times the comparison is the order of the instants. */
  lemma CmpIsOrder(t1: Time, t2: Time)
    requires t1.Normal() && t2.Normal()
    ensures CmpTimespec(t1, t2) == 1 <==> t1.Total() > t2.Total()
    ensures CmpTimespec(t1, t2) == -1 <==> t1.Total() < t2.Total()
    ensures CmpTimespec(t1, t2) == 0 <==> t1 == t2
    ensures CmpTimespec(t1, t2) == 0 <==> t1.Total() == t2.Total()
    ensures CmpTimespec(t1, t2) == -CmpTimespec(t2, t1)
  {
  }

  /** The difference is the distance of the instants exactly when the first is not the earlier one. */
  lemma DiffIsDistance(t1: Time, t2: Time)
    requires t1.Normal() && t2.Normal()
    ensures DiffTimespec(t1, t2) == t1.Total() - t2.Total() <==> 0 <= t1.Total() - t2.Total() < TWO_64
    ensures 0 <= DiffTimespec(t1, t2) < TWO_64
    ensures (DiffTimespec(t1, t2) - (t1.Total() - t2.Total())) % TWO_64 == 0
    ensures CmpTimespec(t1, t2) >= 0 && t1.Total() - t2.Total() < TWO_64
            ==> t2.Total() + DiffTimespec(t1, t2) == t1.Total()
  {
    CmpIsOrder(t1, t2);
    assert (t1.sec - t2.sec) * NS_PER_S + t1.nsec - t2.nsec == t1.Total() - t2.Total();
  }

  /** `get_milliseconds`: the milliseconds left at `clock`, in a 32-bit result. */
  function GetMilliseconds(deadline: Time, clock: nat): int {
    var future := (deadline.sec * 1000 + deadline.nsec / NS_PER_MS) % TWO_64;
    var now := clock / 10000;
    if future < now then 0 else (future - now) % TWO_32
  }

  /** A deadline whose milliseconds a `time_t` can count. */
  predicate Countable(t: Time) {
    t.Normal() && 0 <= t.sec && t.sec * 1000 + 999 < TWO_63
  }

  lemma MillisecondsOf(t: Time)
    requires Countable(t)
    ensures (t.sec * 1000 + t.nsec / NS_PER_MS) % TWO_64 == t.Total() / NS_PER_MS
  {
    var ms := t.sec * 1000 + t.nsec / NS_PER_MS;
    assert 0 <= ms < TWO_64;
    assert t.Total() == ms * NS_PER_MS + t.nsec % NS_PER_MS;
  }

  /**
   While the wait fits 32 bits the result is within 1 ms of the time left, it is zero once the
   deadline has come, and a later reading of the clock never gives a longer wait.
   */
  lemma MillisecondsLeft(t: Time, clock: nat, later: nat)
    requires Countable(t) && clock <= later
    requires t.Total() / NS_PER_MS - clock / 10000 < TWO_32
    ensures t.Total() > 100 * clock ==>
              -NS_PER_MS < GetMilliseconds(t, clock) * NS_PER_MS - (t.Total() - 100 * clock) < NS_PER_MS
    ensures t.Total() <= 100 * clock ==> GetMilliseconds(t, clock) == 0
    ensures 0 <= GetMilliseconds(t, later) <= GetMilliseconds(t, clock)
  {
    MillisecondsOf(t);
  }

  /** A wait too long for 32 bits is cut: the result is right if and only if the wait fits. */
  lemma MillisecondsExact(t: Time, clock: nat)
    requires Countable(t)
    ensures var left := t.Total() / NS_PER_MS - clock / 10000;
            && (GetMilliseconds(t, clock) == (if left < 0 then 0 else left) <==> left < TWO_32)
            && (left >= 0 ==> (GetMilliseconds(t, clock) - left) % TWO_32 == 0)
  {
    MillisecondsOf(t);
  }

  /** A timeout of `nsec` set at `clock` and waited for at `later` ends within 1 ms of its time. */
  method SetAndWait(cell: TimespecCell, clock: nat, nsec: nat, narrow: bool, later: nat) returns (wait: int)
    requires clock <= later && clock < TWO_64 && nsec < TWO_64 && clock + nsec / 100 < TWO_64
    requires narrow ==> clock + nsec / 100 < TWO_31 * UNITS_PER_S
    requires nsec / NS_PER_MS + 1 < TWO_32
    modifies cell
    ensures nsec > 100 * (later - clock) ==>
              -NS_PER_MS < wait * NS_PER_MS - (nsec - 100 * (later - clock)) < NS_PER_MS
    ensures nsec <= 100 * (later - clock) ==> wait == 0
  {
    cell.SetTimespecNsec(clock, nsec, narrow);
    ghost var t := cell.Value();
    assert t.sec * NS_PER_S <= 100 * TWO_64;
    MillisecondsLeft(t, later, later);
    wait := GetMilliseconds(cell.Value(), later);
  }
}
