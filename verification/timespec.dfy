// The timespec macros of the bundled MySQL headers, in their Unix and Windows forms, with 64-bit arithmetic.

module Timespec {
  const TWO64 := 0x1_0000_0000_0000_0000
  const TWO63 := 0x8000_0000_0000_0000
  const BILLION := 1_000_000_000

  /** A Unix timespec. */
  datatype Time = Time(sec: int, nsec: int) {
    predicate Normal() { 0 <= nsec < BILLION }

    /** The instant, in nanoseconds. */
    function Instant(): int { sec * BILLION + nsec }
  }

  /** set_timespec_time_nsec: `time` counts 100 ns, `nsec` is added to it; unsigned 64-bit arithmetic. */
  function SetUnix(time: nat, nsec: nat): Time {
    var now := (time + nsec / 100) % TWO64;
    Time(now / 10_000_000, now % 10_000_000 * 100 + nsec % 100)
  }

  /** An unsigned 64-bit number assigned to a signed variable. */
  function Signed64(x: nat): int { if x < TWO63 then x else x - TWO64 }

  /** Division of signed numbers in C, which rounds towards zero. */
  function Quotient(x: int, d: nat): int
    requires d > 0
  {
    if x >= 0 then x / d else -(-x / d)
  }

  /** The Windows form keeps a count of 100 ns; signed 64-bit arithmetic throughout, `nsec` being converted first. */
  function SetWindows(time: int, nsec: nat): int {
    Signed64((time + Quotient(Signed64(nsec), 100)) % TWO64)
  }

  /** The Unix form is always normalised, and it is the exact instant if and only if the sum fits 64 bits. */
  lemma UnixIsExact(time: nat, nsec: nat)
    requires time < TWO64 && nsec < TWO64
    ensures SetUnix(time, nsec).Normal()
    ensures SetUnix(time, nsec).Instant() == 100 * time + nsec <==> time + nsec / 100 < TWO64
  {
    var sum := time + nsec / 100;
    var now := sum % TWO64;
    assert SetUnix(time, nsec).Instant() == 100 * now + nsec % 100;
  }

  /** The Windows form is the same instant rounded down to 100 ns if and only if `nsec` and the sum fit 63 bits; a larger
      `nsec` turns negative when it is converted. */
  lemma WindowsRoundsDown(time: int, nsec: nat)
    requires -TWO63 <= time < TWO63 && nsec < TWO64
    ensures 100 * SetWindows(time, nsec) <= 100 * time + nsec < 100 * SetWindows(time, nsec) + 100
      <==> nsec < TWO63 && time + nsec / 100 < TWO63
  {
    var sum := time + Quotient(Signed64(nsec), 100);
    assert SetWindows(time, nsec) == sum || SetWindows(time, nsec) == sum - TWO64 || SetWindows(time, nsec) == sum + TWO64;
  }

  /** cmp_timespec. */
  function Compare(a: Time, b: Time): int {
    if a.sec > b.sec || (a.sec == b.sec && a.nsec > b.nsec) then 1
    else if a.sec < b.sec || (a.sec == b.sec && a.nsec < b.nsec) then -1
    else 0
  }

  /** diff_timespec: an unsigned 64-bit number of nanoseconds. */
  function Difference(a: Time, b: Time): nat { ((a.sec - b.sec) * BILLION + a.nsec - b.nsec) % TWO64 }

  function Sign(x: int): int { if x > 0 then 1 else if x < 0 then -1 else 0 }

  /** On normalised times cmp_timespec is the sign of the exact difference of the instants. */
  lemma CompareIsTheSign(a: Time, b: Time)
    requires a.Normal() && b.Normal()
    ensures Compare(a, b) == Sign(a.Instant() - b.Instant())
  {
    assert a.Instant() - b.Instant() == (a.sec - b.sec) * BILLION + (a.nsec - b.nsec);
  }

  /** diff_timespec, read as a signed number, is the exact difference exactly when that fits 63 bits and a sign; its sign
      is then what cmp_timespec says. Unsigned, as the macro leaves it, it is never negative. */
  lemma DifferenceIsExact(a: Time, b: Time)
    requires a.Normal() && b.Normal()
    ensures var d := a.Instant() - b.Instant();
      && (Signed64(Difference(a, b)) == d <==> -TWO63 <= d < TWO63)
      && (-TWO63 <= d < TWO63 ==> Compare(a, b) == Sign(Signed64(Difference(a, b))))
  {
    CompareIsTheSign(a, b);
    assert (a.sec - b.sec) * BILLION + a.nsec - b.nsec == a.Instant() - b.Instant();
  }

  /** cmp_timespec of the Windows form, on counts of 100 ns. */
  function CompareWindows(a: int, b: int): int { if a > b then 1 else if a < b then -1 else 0 }

  /** diff_timespec of the Windows form: a signed 64-bit number of nanoseconds. */
  function DifferenceWindows(a: int, b: int): int { Signed64((a - b) * 100 % TWO64) }

  /** The Windows difference is exact exactly when it fits 64 bits, that is for times less than about 292 years apart; its
      sign is then what cmp_timespec says. */
  lemma WindowsDifferenceIsExact(a: int, b: int)
    ensures DifferenceWindows(a, b) == 100 * (a - b) <==> -TWO63 <= 100 * (a - b) < TWO63
    ensures -TWO63 <= 100 * (a - b) < TWO63 ==> CompareWindows(a, b) == Sign(DifferenceWindows(a, b))
  {
    var d := (a - b) * 100;
    assert 0 <= d % TWO64 < TWO64;
    if -TWO63 <= d < 0 {
      assert (d + TWO64) % TWO64 == d % TWO64;
    }
  }
}
