/**
  A model of gnulib's `timespec_sub` (lib/timespec-sub.c): subtract two
  `struct timespec` values, each a whole-second count of the signed integer
  type `time_t` plus a sub-second count in [0, TIMESPEC_HZ), and saturate to
  the nearest extremal value instead of wrapping when the difference does not
  fit.

  `time_t` is fixed as a signed 64-bit integer and `int` as a signed 32-bit
  integer. Their ranges are enforced by the subset types `TimeT` and `CInt`:
  every local of those types that the method assigns is checked to stay in
  range, which is how the model shows that no step wraps.

  TIMESPEC_HZ comes from timespec.h, which is not part of this model; the
  routine only relies on it being a positive `int`, so it is the parameter
  `hz` throughout and every property is proved for every such resolution.
  gnulib's own value, nanoseconds, is `TimespecHz`.
 */
module TimespecSub {

  /** gnulib's TIMESPEC_HZ: nanosecond resolution. */
  const TimespecHz: int := 1_000_000_000

  /** TYPE_MAXIMUM (time_t) and TYPE_MINIMUM (time_t) for a signed 64-bit `time_t`. */
  const TimeMax: int := 0x7FFF_FFFF_FFFF_FFFF
  const TimeMin: int := -TimeMax - 1

  /** 2 to the width of `time_t`: the modulus of two's-complement wrap-around. */
  const TimeModulus: int := 0x1_0000_0000_0000_0000

  /** The values a `time_t` can hold. */
  type TimeT = x: int | TimeMin <= x <= TimeMax

  /** The values a C `int` can hold. */
  const IntMax: int := 0x7FFF_FFFF
  type CInt = x: int | -IntMax - 1 <= x <= IntMax

  /** What the routine assumes of TIMESPEC_HZ: a positive `int`. */
  predicate IsResolution(hz: int) {
    0 < hz <= IntMax
  }

  /** A `struct timespec`: whole seconds and sub-second units. */
  datatype Timespec = Timespec(sec: TimeT, nsec: int)
  {
    /** The representation every caller must pass and every result must keep. */
    predicate Valid(hz: int) {
      0 <= nsec < hz
    }

    /** The exact value, in sub-second units. */
    function Units(hz: int): int {
      sec * hz + nsec
    }
  }

  /** The low extremal result `{TYPE_MINIMUM (time_t), 0}`. */
  const LowClamp: Timespec := Timespec(TimeMin, 0)

  /** The high extremal result `{TYPE_MAXIMUM (time_t), TIMESPEC_HZ - 1}`. */
  function HighClamp(hz: int): Timespec {
    Timespec(TimeMax, hz - 1)
  }

  /** The least and the greatest value, in sub-second units, that a valid Timespec can hold. */
  function MinUnits(hz: int): int {
    TimeMin * hz
  }
  function MaxUnits(hz: int): int {
    TimeMax * hz + hz - 1
  }

  /** `d` clamped into [MinUnits (hz), MaxUnits (hz)]. */
  function Clamp(hz: int, d: int): int {
    if d < MinUnits(hz) then MinUnits(hz) else if d > MaxUnits(hz) then MaxUnits(hz) else d
  }

  /** Scaling by a positive resolution keeps order. */
  lemma ScaleMonotone(x: int, y: int, hz: int)
    requires x <= y && 0 < hz
    ensures x * hz <= y * hz
  {
    assert y * hz - x * hz == (y - x) * hz;
  }

  // ---------------------------------------------------------------------------
  // Checked arithmetic on time_t (C23 <stdckdint.h>)
  // ---------------------------------------------------------------------------

  /** The outcome of `ckd_add` / `ckd_sub`: the returned overflow flag and the value stored through the pointer. */
  datatype Checked = Checked(overflow: bool, value: TimeT)

  /**
    Two's-complement wrap-around of an exact integer into `time_t`: the
    exact value, moved by whole multiples of 2^64 until it is in range.
   */
  function Wrap(x: int): (w: TimeT)
    ensures (x - w) % TimeModulus == 0
    ensures TimeMin <= x <= TimeMax ==> w == x
    decreases if x < TimeMin then TimeMin - x + TimeModulus else if x > TimeMax then x - TimeMax else 0
  {
    if x < TimeMin then
      var w := Wrap(x + TimeModulus);
      ShiftByModulus(x - w);
      w
    else if x > TimeMax then
      var w := Wrap(x - TimeModulus);
      ShiftByModulus(x - TimeModulus - w);
      w
    else x
  }

  /** Adding 2^64 does not change the remainder modulo 2^64. */
  lemma ShiftByModulus(y: int)
    ensures (y + TimeModulus) % TimeModulus == y % TimeModulus
  {
  }

  /**
    `ckd_add (&r, x, y)`: stores the sum wrapped to `time_t` and reports
    whether that stored value differs from the exact sum.
   */
  function CkdAdd(x: TimeT, y: TimeT): (c: Checked)
    ensures c.overflow <==> !(TimeMin <= x + y <= TimeMax)
    ensures c.overflow <==> c.value != x + y
    ensures (x + y - c.value) % TimeModulus == 0
  {
    Checked(!(TimeMin <= x + y <= TimeMax), Wrap(x + y))
  }

  /** `ckd_sub (&r, x, y)`, as CkdAdd for the exact difference. */
  function CkdSub(x: TimeT, y: TimeT): (c: Checked)
    ensures c.overflow <==> !(TimeMin <= x - y <= TimeMax)
    ensures c.overflow <==> c.value != x - y
    ensures (x - y - c.value) % TimeModulus == 0
  {
    Checked(!(TimeMin <= x - y <= TimeMax), Wrap(x - y))
  }

  // ---------------------------------------------------------------------------
  // Specification: the exact difference, saturated
  // ---------------------------------------------------------------------------

  /** The valid Timespec whose value is `d` units, for `d` in range. */
  function FromUnits(hz: int, d: int): (t: Timespec)
    requires 0 < hz && MinUnits(hz) <= d <= MaxUnits(hz)
    ensures t.Valid(hz) && t.Units(hz) == d
  {
    var s := d / hz;
    SecondsInRange(hz, s, d % hz);
    Timespec(s, d % hz)
  }

  /** A value in range, split into whole seconds and a sub-second part, has its seconds in `time_t`'s range. */
  lemma SecondsInRange(hz: int, s: int, n: int)
    requires 0 <= n < hz
    requires MinUnits(hz) <= s * hz + n <= MaxUnits(hz)
    ensures TimeMin <= s <= TimeMax
  {
    if s < TimeMin {
      ScaleMonotone(s, TimeMin - 1, hz);
    } else if s > TimeMax {
      ScaleMonotone(TimeMax + 1, s, hz);
    }
  }

  /** The valid Timespec closest to `d` units: `d` itself when it fits, an extremal value when it does not. */
  function Saturated(hz: int, d: int): (t: Timespec)
    requires 0 < hz
    ensures t.Valid(hz)
    ensures t.Units(hz) == Clamp(hz, d)
  {
    if d < MinUnits(hz) then LowClamp
    else if d > MaxUnits(hz) then HighClamp(hz)
    else FromUnits(hz, d)
  }

  /** What `timespec_sub (a, b)` is meant to return: `a - b` exactly, or the extremal value on overflow. */
  function SaturatedDifference(hz: int, a: Timespec, b: Timespec): Timespec
    requires 0 < hz
  {
    Saturated(hz, a.Units(hz) - b.Units(hz))
  }

  // ---------------------------------------------------------------------------
  // The routine itself
  // ---------------------------------------------------------------------------

  /**
    `timespec_sub (a, b)` with TIMESPEC_HZ = `hz`, step by step. The
    `goto low_overflow` out of the borrow step is the flag `lowOverflow`,
    which leads to the same clamp as the first arm of the overflow test.
   */
  method TimespecSubtract(hz: int, a: Timespec, b: Timespec) returns (r: Timespec)
    requires IsResolution(hz)
    requires a.Valid(hz) && b.Valid(hz)
    ensures r.Valid(hz)
    ensures r.Units(hz) == Clamp(hz, a.Units(hz) - b.Units(hz))
    ensures r == SaturatedDifference(hz, a, b)
  {
    var rs: TimeT := a.sec;
    var bs: TimeT := b.sec;
    var ns: CInt := a.nsec - b.nsec;
    var rns: CInt := ns;
    var lowOverflow := false;

    if ns < 0 {
      rns := ns + hz;
      var bs1 := CkdAdd(bs, 1);
      if !bs1.overflow {
        bs := bs1.value;
      } else if -1 < rs {
        // `- TYPE_SIGNED (time_t) < rs` with a signed time_t
        rs := rs - 1;
      } else {
        BorrowOverflowIsLow(hz, a, b);
        lowOverflow := true;
      }
    }

    if !lowOverflow {
      // The borrow step moved Borrow (a, b) seconds into rns, on one side or the other.
      assert rs - bs == a.sec - b.sec - Borrow(a, b);
      ghost var minuend := rs;
      var diff := CkdSub(rs, bs);
      rs := diff.value;
      if diff.overflow {
        SecondsOverflowDirection(hz, a, b, minuend, bs);
        if 0 < bs {
          lowOverflow := true;
        } else {
          rs := TimeMax;
          rns := hz - 1;
        }
      } else {
        ExactWhenSecondsFit(hz, a, b);
        ExactWithBorrow(hz, a, b);
      }
    }

    if lowOverflow {
      rs := TimeMin;
      rns := 0;
    }
    r := Timespec(rs, rns);
  }

  // ---------------------------------------------------------------------------
  // The facts the routine's branches rest on
  // ---------------------------------------------------------------------------

  /** The seconds borrowed by the sub-second subtraction: 1 when `a.tv_nsec < b.tv_nsec`. */
  function Borrow(a: Timespec, b: Timespec): int {
    if a.nsec < b.nsec then 1 else 0
  }

  /** Moving `c` seconds into the sub-second part leaves the value unchanged. */
  lemma BorrowKeepsValue(hz: int, x: int, y: int, n: int, c: int)
    ensures (x - y - c) * hz + (n + c * hz) == (x * hz + n) - y * hz
  {
    assert (x - y - c) * hz == x * hz - y * hz - c * hz;
  }

  /** After the borrow, the difference is `a.sec - b.sec - Borrow` seconds plus a sub-second part in range. */
  lemma BorrowSplit(hz: int, a: Timespec, b: Timespec)
    requires 0 < hz && a.Valid(hz) && b.Valid(hz)
    ensures var n := a.nsec - b.nsec + Borrow(a, b) * hz;
            0 <= n < hz && (a.sec - b.sec - Borrow(a, b)) * hz + n == a.Units(hz) - b.Units(hz)
  {
    BorrowKeepsValue(hz, a.sec, b.sec, a.nsec - b.nsec, Borrow(a, b));
  }

  /**
    The `goto low_overflow` of the borrow step is right: when a borrow is
    needed, `b.tv_sec` is TYPE_MAXIMUM and `a.tv_sec` is negative, the exact
    difference is below range and the result is the low extremal value.
   */
  lemma BorrowOverflowIsLow(hz: int, a: Timespec, b: Timespec)
    requires 0 < hz && a.Valid(hz) && b.Valid(hz)
    requires a.nsec < b.nsec && b.sec == TimeMax && a.sec < 0
    ensures a.Units(hz) - b.Units(hz) < MinUnits(hz)
    ensures SaturatedDifference(hz, a, b) == LowClamp
  {
    BorrowSplit(hz, a, b);
    ScaleMonotone(a.sec - b.sec - 1, TimeMin - 1, hz);
  }

  /**
    When the seconds subtraction `rs - bs` after the borrow step overflows,
    the sign of `bs` says which way: a positive `bs` means the exact
    difference is below range, any other `bs` that it is above.
   */
  lemma SecondsOverflowDirection(hz: int, a: Timespec, b: Timespec, rs: TimeT, bs: TimeT)
    requires 0 < hz && a.Valid(hz) && b.Valid(hz)
    requires rs - bs == a.sec - b.sec - Borrow(a, b)
    requires !(TimeMin <= rs - bs <= TimeMax)
    ensures 0 < bs ==> SaturatedDifference(hz, a, b) == LowClamp
    ensures bs <= 0 ==> SaturatedDifference(hz, a, b) == HighClamp(hz)
  {
    BorrowSplit(hz, a, b);
    if 0 < bs {
      ScaleMonotone(rs - bs, TimeMin - 1, hz);
    } else {
      ScaleMonotone(TimeMax + 1, rs - bs, hz);
    }
  }

  /** When the seconds subtraction after the borrow step fits in `time_t`, so does the exact difference. */
  lemma ExactWhenSecondsFit(hz: int, a: Timespec, b: Timespec)
    requires 0 < hz && a.Valid(hz) && b.Valid(hz)
    requires TimeMin <= a.sec - b.sec - Borrow(a, b) <= TimeMax
    ensures MinUnits(hz) <= a.Units(hz) - b.Units(hz) <= MaxUnits(hz)
  {
    BorrowSplit(hz, a, b);
    UnitsInRange(hz, Timespec(a.sec - b.sec - Borrow(a, b), a.nsec - b.nsec + Borrow(a, b) * hz));
  }

  /** Every valid Timespec lies between the two extremal values. */
  lemma UnitsInRange(hz: int, t: Timespec)
    requires t.Valid(hz)
    ensures MinUnits(hz) <= t.Units(hz) <= MaxUnits(hz)
  {
    ScaleMonotone(TimeMin, t.sec, hz);
    ScaleMonotone(t.sec, TimeMax, hz);
  }

  /** Two valid Timespecs with the same value are equal: the representation is canonical. */
  lemma UnitsInjective(hz: int, t: Timespec, u: Timespec)
    requires t.Valid(hz) && u.Valid(hz)
    requires t.Units(hz) == u.Units(hz)
    ensures t == u
  {
    if t.sec < u.sec {
      ScaleMonotone(t.sec + 1, u.sec, hz);
    } else if u.sec < t.sec {
      ScaleMonotone(u.sec + 1, t.sec, hz);
    }
  }

  /** The saturated result is the only valid Timespec whose value is the clamped difference. */
  lemma SaturatedUnique(hz: int, d: int, t: Timespec)
    requires 0 < hz
    requires t.Valid(hz) && t.Units(hz) == Clamp(hz, d)
    ensures t == Saturated(hz, d)
  {
    UnitsInjective(hz, t, Saturated(hz, d));
  }

  // ---------------------------------------------------------------------------
  // Properties of the saturated difference
  // ---------------------------------------------------------------------------

  /**
    Without a clamp the result is exact, and its fields are those of the
    borrow step: when `a.tv_nsec < b.tv_nsec` one second is borrowed and the
    sub-second part is `a.tv_nsec - b.tv_nsec + TIMESPEC_HZ`.
   */
  lemma ExactWithBorrow(hz: int, a: Timespec, b: Timespec)
    requires 0 < hz && a.Valid(hz) && b.Valid(hz)
    requires MinUnits(hz) <= a.Units(hz) - b.Units(hz) <= MaxUnits(hz)
    ensures SaturatedDifference(hz, a, b).Units(hz) == a.Units(hz) - b.Units(hz)
    ensures a.nsec < b.nsec ==>
              var r := SaturatedDifference(hz, a, b);
              r.sec == a.sec - b.sec - 1 && r.nsec == a.nsec - b.nsec + hz
    ensures b.nsec <= a.nsec ==>
              var r := SaturatedDifference(hz, a, b);
              r.sec == a.sec - b.sec && r.nsec == a.nsec - b.nsec
  {
    var s, n := a.sec - b.sec - Borrow(a, b), a.nsec - b.nsec + Borrow(a, b) * hz;
    BorrowSplit(hz, a, b);
    SecondsInRange(hz, s, n);
    SaturatedUnique(hz, a.Units(hz) - b.Units(hz), Timespec(s, n));
  }

  /** The result is an extremal value exactly when the exact difference reaches or passes that extreme. */
  lemma ClampCases(hz: int, a: Timespec, b: Timespec)
    requires 0 < hz && a.Valid(hz) && b.Valid(hz)
    ensures SaturatedDifference(hz, a, b) == LowClamp <==> a.Units(hz) - b.Units(hz) <= MinUnits(hz)
    ensures SaturatedDifference(hz, a, b) == HighClamp(hz) <==> a.Units(hz) - b.Units(hz) >= MaxUnits(hz)
  {
    var d := a.Units(hz) - b.Units(hz);
    if d <= MinUnits(hz) {
      SaturatedUnique(hz, d, LowClamp);
    }
    if d >= MaxUnits(hz) {
      SaturatedUnique(hz, d, HighClamp(hz));
    }
  }

  /** `timespec_sub (a, a)` is `{0, 0}`. */
  lemma DifferenceWithItself(hz: int, a: Timespec)
    requires 0 < hz && a.Valid(hz)
    ensures SaturatedDifference(hz, a, a) == Timespec(0, 0)
  {
    SaturatedUnique(hz, 0, Timespec(0, 0));
  }

  /** Without a clamp, the difference plus `b`, carried field by field, is `a` again. */
  lemma DifferencePlusSubtrahend(hz: int, a: Timespec, b: Timespec)
    requires 0 < hz && a.Valid(hz) && b.Valid(hz)
    requires MinUnits(hz) <= a.Units(hz) - b.Units(hz) <= MaxUnits(hz)
    ensures var r := SaturatedDifference(hz, a, b);
            var n := r.nsec + b.nsec;
            var carry := if n >= hz then 1 else 0;
            r.sec + b.sec + carry == a.sec && n - carry * hz == a.nsec
  {
    ExactWithBorrow(hz, a, b);
  }

  // ---------------------------------------------------------------------------
  // The edge cases the routine is meant to get right, at nanosecond resolution
  // ---------------------------------------------------------------------------

  /** Subtracting a positive value from the minimum clamps low; adding to the maximum clamps high. */
  lemma ExtremeExamples()
    ensures SaturatedDifference(TimespecHz, LowClamp, Timespec(1, 0)) == LowClamp
    ensures SaturatedDifference(TimespecHz, HighClamp(TimespecHz), Timespec(-1, 0)) == HighClamp(TimespecHz)
  {
  }

  /** A borrow across the sub-second boundary, and results that land exactly on the range's edge without overflowing. */
  lemma BoundaryExamples()
    ensures SaturatedDifference(TimespecHz, Timespec(5, 100), Timespec(3, 200)) == Timespec(1, TimespecHz - 100)
    ensures SaturatedDifference(TimespecHz, Timespec(TimeMin + 1, 0), Timespec(1, 0)) == Timespec(TimeMin, 0)
    ensures SaturatedDifference(TimespecHz, Timespec(TimeMin + 2, 0), Timespec(1, 0)) == Timespec(TimeMin + 1, 0)
    ensures SaturatedDifference(TimespecHz, Timespec(TimeMax - 1, 5), Timespec(-1, 5)) == Timespec(TimeMax, 0)
  {
  }
}
