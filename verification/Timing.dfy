/** Differences of time stamps in nanoseconds, computed in 64-bit unsigned arithmetic with a borrow. */
module Timing {
  import opened CapturedPackets
  import opened Wrappers

  const TWO64: int := 0x1_0000_0000_0000_0000
  const BILLION: int := 1_000_000_000

  const PRECISION_MICRO: int := 0
  const PRECISION_NANO: int := 1

  /** Nanoseconds per unit of the sub-second field. */
  function Unit(precision: int): int {
    if precision == PRECISION_MICRO then 1000 else 1
  }

  function Nanos(unit: int, t: TimeVal): int {
    t.sec * BILLION + t.usec * unit
  }

  /** Lexicographic order on (seconds, sub-seconds). */
  predicate NotAfter(a: TimeVal, b: TimeVal) {
    a.sec < b.sec || (a.sec == b.sec && a.usec <= b.usec)
  }

  /** What a time difference means: none if the later stamp is before the earlier one, and otherwise
      the true difference, as far as 64 bits can tell. */
  function Delta(unit: int, early: TimeVal, late: TimeVal): Option<int> {
    if NotAfter(early, late) then Some((Nanos(unit, late) - Nanos(unit, early)) % TWO64) else None
  }

  /** A stamp whose sub-second field is less than a second. */
  predicate Normal(unit: int, t: TimeVal) {
    0 <= t.usec * unit < BILLION
  }

  function U64(x: int): (r: int)
    ensures 0 <= r < TWO64
  {
    x % TWO64
  }

  lemma ModPlus(x: int, k: int)
    ensures (x + k * TWO64) % TWO64 == x % TWO64
  {
    var q, r := x / TWO64, x % TWO64;
    assert x + k * TWO64 == (q + k) * TWO64 + r;
    ModUnique(x + k * TWO64, q + k, r);
  }

  lemma ModUnique(x: int, q: int, r: int)
    requires x == q * TWO64 + r && 0 <= r < TWO64
    ensures x % TWO64 == r
  {
    var d := x / TWO64 - q;
    assert d * TWO64 == r - x % TWO64;
  }

  /** Reducing one term early does not change the reduced result. */
  lemma ModTerm(x: int, factor: int, rest: int)
    ensures (U64(x) * factor + rest) % TWO64 == (x * factor + rest) % TWO64
  {
    var q := x / TWO64;
    assert x * factor + rest == U64(x) * factor + rest + (q * factor) * TWO64;
    ModPlus(U64(x) * factor + rest, q * factor);
  }

  /** None stands for `throw;` without an active exception, which terminates the process. */
  method TimevalDeltaToNs(precision: int, early: TimeVal, late: TimeVal) returns (r: Option<int>)
    ensures r == if precision == 0 || precision == 1 then Delta(Unit(precision), early, late) else None
    ensures r == if precision != 0 && precision != 1 then None
                 else if early.sec > late.sec || (early.sec == late.sec && early.usec > late.usec) then None
                 else Some(((late.sec - early.sec) * 1_000_000_000
                            + (late.usec - early.usec) * (if precision == 0 then 1000 else 1))
                           % 0x1_0000_0000_0000_0000)
  {
    hide U64, Delta, Nanos;
    DeltaByNumber(precision, early, late);
    var usecsPerSecond := 0;
    if precision == PRECISION_MICRO {
      usecsPerSecond := 1_000_000;
    } else if precision == PRECISION_NANO {
      usecsPerSecond := 1_000_000_000;
    } else {
      return None;
    }
    if early.sec > late.sec {
      return None;
    }
    SmallU64(late.sec - early.sec);
    var seconds, usecs := U64(late.sec - early.sec), 0;
    if late.usec < early.usec {
      if seconds == 0 {
        return None;
      }
      seconds := seconds - 1;
      usecs := usecs + usecsPerSecond;
    }
    ghost var exact := late.usec + usecs - early.usec;
    ThreeTerms(late.usec, usecs, early.usec);
    usecs := U64(U64(U64(late.usec) + usecs) - U64(early.usec));
    BorrowedDelta(Unit(precision), usecsPerSecond, early, late, seconds, exact);
    if precision == PRECISION_MICRO {
      return Some(U64(seconds * BILLION + usecs * 1000));
    } else {
      return Some(U64(seconds * BILLION + usecs));
    }
  }

  /** Delta written out. */
  lemma DeltaByNumber(precision: int, early: TimeVal, late: TimeVal)
    ensures Delta(Unit(precision), early, late) ==
            if early.sec > late.sec || (early.sec == late.sec && early.usec > late.usec) then None
            else Some(((late.sec - early.sec) * 1_000_000_000
                       + (late.usec - early.usec) * (if precision == 0 then 1000 else 1))
                      % 0x1_0000_0000_0000_0000)
    ensures Delta(Unit(precision), early, late) ==
            if NotAfter(early, late) then Some((Nanos(Unit(precision), late) - Nanos(Unit(precision), early)) % TWO64)
            else None
  {
    if precision == 0 {
      assert Nanos(1000, late) - Nanos(1000, early) ==
             (late.sec - early.sec) * 1_000_000_000 + (late.usec - early.usec) * 1000;
    } else {
      assert Nanos(1, late) - Nanos(1, early) == (late.sec - early.sec) * 1_000_000_000 + (late.usec - early.usec);
    }
  }

  lemma SmallU64(x: int)
    ensures 0 <= x < TWO64 ==> U64(x) == x
  {
  }

  /** A borrow of one second is the same number of nanoseconds in the other field. */
  lemma BorrowedDelta(unit: int, perSecond: int, early: TimeVal, late: TimeVal, seconds: int, exact: int)
    requires perSecond * unit == BILLION
    requires || (seconds == late.sec - early.sec && exact == late.usec - early.usec)
             || (seconds == late.sec - early.sec - 1 && exact == late.usec + perSecond - early.usec)
    ensures U64(seconds * BILLION + U64(exact) * unit) == (Nanos(unit, late) - Nanos(unit, early)) % TWO64
  {
    ModTerm(exact, unit, seconds * BILLION);
    assert exact * unit + seconds * BILLION == Nanos(unit, late) - Nanos(unit, early);
  }

  lemma ThreeTerms(x: int, y: int, z: int)
    ensures U64(U64(U64(x) + y) - U64(z)) == U64(x + y - z)
  {
    ModTerm(x, 1, y);
    ModTerm(x + y, 1, -U64(z));
    ModTerm(z, -1, x + y);
  }

  /** The kernel-timestamp variant; both parameters are copies that the body adjusts. */
  method TimespecDiff(after: TimeVal, before: TimeVal) returns (r: Option<int>)
    ensures r == if before.sec > after.sec || (before.sec == after.sec && before.usec > after.usec) then None
                 else Some(((after.sec - before.sec) * 1_000_000_000 + (after.usec - before.usec))
                           % 0x1_0000_0000_0000_0000)
  {
    if after.sec < before.sec || (after.sec == before.sec && after.usec < before.usec) {
      return None;
    }
    var afterNsec: int, secDiff := after.usec, U64(after.sec - before.sec);
    if after.usec < before.usec {
      afterNsec := afterNsec + 1_000_000_000;
      secDiff := secDiff - 1;
    }
    SumOfTerms(secDiff * BILLION, afterNsec - before.usec);
    assert secDiff * BILLION + (afterNsec - before.usec) == Nanos(1, after) - Nanos(1, before);
    return Some(U64(U64(secDiff * BILLION) + U64(afterNsec - before.usec)));
  }

  lemma SumOfTerms(x: int, y: int)
    ensures U64(U64(x) + U64(y)) == (x + y) % TWO64
  {
    ModTerm(x, 1, U64(y));
    ModTerm(y, 1, x);
  }

  /** For stamps with a proper sub-second field the order test is the order of the times, so a
      failure means that time went backwards, and the result is exact unless it exceeds 64 bits. */
  lemma DeltaOfNormal(unit: int, early: TimeVal, late: TimeVal)
    requires Normal(unit, early) && Normal(unit, late) && unit > 0
    ensures Delta(unit, early, late).Some? <==> Nanos(unit, early) <= Nanos(unit, late)
    ensures Delta(unit, early, late) == Some(Nanos(unit, late) - Nanos(unit, early)) <==>
            0 <= Nanos(unit, late) - Nanos(unit, early) < TWO64
  {
    if early.sec == late.sec {
      if early.usec <= late.usec {
        assert early.usec * unit <= late.usec * unit;
      } else {
        assert (early.usec - late.usec) * unit > 0;
      }
    }
  }
}
