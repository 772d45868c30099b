/** Absolute deadlines of my_pthread.h, on the microsecond clock of my_sys.h.
    ulonglong arithmetic wraps at 2^64. */
module Deadlines {
  import opened Bits

  const NANOS: nat := 1_000_000_000
  const HRTIME_RESOLUTION: nat := 1_000_000

  /** The value of a timespec. */
  datatype Instant = Instant(sec: nat, nsec: nat) {
    predicate Normalized() { nsec < NANOS }

    function TotalNanos(): nat { sec * NANOS + nsec }
  }

  class Timespec {
    var tvSec: nat
    var tvNsec: nat

    function Value(): Instant
      reads this
    {
      Instant(tvSec, tvNsec)
    }

    /** set_timespec_time_nsec */
    method SetTimeNsec(nsec: nat)
      modifies this
      ensures Value().Normalized() && Value().TotalNanos() == Cast(64, nsec)
      ensures tvNsec < 1_000_000_000 && tvSec * 1_000_000_000 + tvNsec == nsec % 0x1_0000_0000_0000_0000
    {
      WordOf64();
      var now := Cast(64, nsec);
      tvSec := now / NANOS;
      tvNsec := now % NANOS;
    }

    /** set_timespec_nsec; clock is my_hrtime_coarse().val in microseconds */
    method SetNsec(clock: nat, nsec: nat)
      modifies this
      ensures Value() == Deadline(clock, nsec)
      ensures Value().Normalized()
    {
      DeadlineParts(clock, nsec);
      SetTimeNsec(clock * 1000 + nsec);
      NormalFormIsUnique(Value(), Deadline(clock, nsec));
    }

    /** set_timespec: sec seconds from now, while 64 bits hold the nanoseconds. */
    method Set(clock: nat, sec: nat)
      modifies this
      ensures Value() == Deadline(clock, Cast(64, sec * NANOS))
      ensures Value().Normalized()
      ensures Value().TotalNanos() == clock * 1000 + sec * NANOS <==> clock * 1000 + sec * NANOS < Pow2(64)
      ensures clock * 1000 + sec * 1_000_000_000 < 0x1_0000_0000_0000_0000 ==>
                tvSec == clock / 1_000_000 + sec && tvNsec == clock % 1_000_000 * 1000
    {
      if clock * 1000 + sec * 1_000_000_000 < 0x1_0000_0000_0000_0000 { DeadlineInSeconds(clock, sec); }
      SetNsec(clock, Cast(64, sec * NANOS));
      DeadlineParts(clock, Cast(64, sec * NANOS));
      if clock * 1000 + sec * NANOS < Pow2(64) {
        SmallMod(sec * NANOS, Pow2(64));
        DeadlineIsExact(clock, sec * NANOS);
      }
    }
  }

  /** The normalized instant that the sum, kept in 64 bits, denotes. */
  function Deadline(clock: nat, nsec: nat): Instant {
    var now := Cast(64, clock * 1000 + nsec);
    Instant(now / NANOS, now % NANOS)
  }

  lemma DeadlineParts(clock: nat, nsec: nat)
    ensures Deadline(clock, nsec).Normalized()
    ensures Deadline(clock, nsec).TotalNanos() == Cast(64, clock * 1000 + nsec)
  {}

  /** The deadline is now plus the timeout exactly when the sum stays below 2^64. */
  lemma DeadlineIsExact(clock: nat, nsec: nat)
    ensures Deadline(clock, nsec).TotalNanos() == clock * 1000 + nsec
       <==> clock * 1000 + nsec < Pow2(64)
  {
    DeadlineParts(clock, nsec);
    if clock * 1000 + nsec < Pow2(64) { SmallMod(clock * 1000 + nsec, Pow2(64)); }
  }

  lemma WordOf64()
    ensures Pow2(64) == 0x1_0000_0000_0000_0000
  {
    assert Pow2(8) == 0x100;
    Pow2Add(8, 8);
    Pow2Add(16, 16);
    Pow2Add(32, 32);
  }

  /** In the units of the clock, of the timeout and of a timespec: microseconds,
      seconds, and seconds with nanoseconds. */
  lemma DeadlineInSeconds(clock: nat, sec: nat)
    requires clock * 1000 + sec * 1_000_000_000 < 0x1_0000_0000_0000_0000
    ensures Deadline(clock, Cast(64, sec * 1_000_000_000)) == Deadline(clock, sec * 1_000_000_000)
         == Instant(clock / 1_000_000 + sec, clock % 1_000_000 * 1000)
  {
    WordOf64();
    SmallMod(clock * 1000 + sec * 1_000_000_000, Pow2(64));
    SmallMod(sec * 1_000_000_000, Pow2(64));
  }

  /** cmp_timespec */
  function CmpTimespec(t1: Instant, t2: Instant): int {
    if t1.sec > t2.sec || (t1.sec == t2.sec && t1.nsec > t2.nsec) then 1
    else if t1.sec < t2.sec || (t1.sec == t2.sec && t1.nsec < t2.nsec) then -1
    else 0
  }

  function Sign(x: int): int {
    if x > 0 then 1 else if x < 0 then -1 else 0
  }

  /** On normalized times, comparing the fields compares total nanoseconds. */
  lemma CmpIsTimeOrder(t1: Instant, t2: Instant)
    requires t1.Normalized() && t2.Normalized()
    ensures CmpTimespec(t1, t2) == Sign(t1.TotalNanos() - t2.TotalNanos())
    ensures CmpTimespec(t1, t2) == 1 <==> t1.sec * 1_000_000_000 + t1.nsec > t2.sec * 1_000_000_000 + t2.nsec
    ensures CmpTimespec(t1, t2) == -1 <==> t1.sec * 1_000_000_000 + t1.nsec < t2.sec * 1_000_000_000 + t2.nsec
    ensures CmpTimespec(t1, t2) in {-1, 0, 1}
  {}

  lemma NormalFormIsUnique(t1: Instant, t2: Instant)
    requires t1.Normalized() && t2.Normalized() && t1.TotalNanos() == t2.TotalNanos()
    ensures t1 == t2
  {}

  /** Two timeouts set below the bound are ordered as their deadlines are. */
  lemma DeadlinesCompare(clock1: nat, sec1: nat, clock2: nat, sec2: nat)
    requires clock1 * 1000 + sec1 * NANOS < Pow2(64) && clock2 * 1000 + sec2 * NANOS < Pow2(64)
    ensures CmpTimespec(Deadline(clock1, sec1 * NANOS), Deadline(clock2, sec2 * NANOS))
         == Sign((clock1 * 1000 + sec1 * NANOS) - (clock2 * 1000 + sec2 * NANOS))
  {
    DeadlineIsExact(clock1, sec1 * NANOS);
    DeadlineIsExact(clock2, sec2 * NANOS);
    CmpIsTimeOrder(Deadline(clock1, sec1 * NANOS), Deadline(clock2, sec2 * NANOS));
  }

  /** hrtime_to_time and hrtime_sec_part */
  function HrtimeToTime(val: nat): nat { val / HRTIME_RESOLUTION }
  function HrtimeSecPart(val: nat): nat { val % HRTIME_RESOLUTION }

  /** hrtime_from_time */
  function HrtimeFromTime(sec: nat): nat { Cast(64, sec * HRTIME_RESOLUTION) }

  /** The seconds and the part below a second, in microseconds, rebuild the clock
      value. */
  lemma HrtimeSplits(val: nat)
    requires val < Pow2(64)
    ensures HrtimeFromTime(HrtimeToTime(val)) + HrtimeSecPart(val) == val
    ensures HrtimeToTime(val) * 1_000_000 + HrtimeSecPart(val) == val && HrtimeSecPart(val) < 1_000_000
  {
    SmallMod(HrtimeToTime(val) * HRTIME_RESOLUTION, Pow2(64));
  }

  /** hrtime_from_time is exact up to the last second whose microseconds 64 bits
      hold, and wraps from the next one on. */
  lemma HrtimeFromTimeIsExact(sec: nat)
    ensures HrtimeFromTime(sec) == sec * 1_000_000 <==> sec <= 18_446_744_073_709
    ensures HrtimeFromTime(sec) == sec * 1_000_000 % 0x1_0000_0000_0000_0000
  {
    WordOf64();
    if sec <= 18_446_744_073_709 { SmallMod(sec * 1_000_000, Pow2(64)); }
  }

  /** A deadline of no timeout is the clock value split the same way. */
  lemma HrtimeIsDeadline(val: nat)
    requires val * 1000 < 0x1_0000_0000_0000_0000
    ensures Deadline(val, 0) == Instant(HrtimeToTime(val), HrtimeSecPart(val) * 1000)
  {
    DeadlineInSeconds(val, 0);
  }
}
