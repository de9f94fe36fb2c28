# timespec_sub, modelled in Dafny

This project models gnulib's `timespec_sub`, as vendored in Emacs 30.1
(`lib/timespec-sub.c`). The routine subtracts two `struct timespec` values
`a - b`. Each value is a signed `time_t` count of whole seconds plus a
sub-second count in `[0, TIMESPEC_HZ)`. The result has the same form. When the
exact difference does not fit, the routine returns an extremal value instead of
wrapping: `{TYPE_MINIMUM (time_t), 0}` below range and
`{TYPE_MAXIMUM (time_t), TIMESPEC_HZ - 1}` above it.

Everything is in `timespec_sub.dfy`, module `TimespecSub`:

- `Timespec` is the struct. `Valid (hz)` is the assumption `0 <= tv_nsec < hz`.
  `Units (hz)` is its exact value in sub-second units.
- `TimeT` and `CInt` are subset types for a signed 64-bit `time_t` and a
  signed 32-bit `int`. Every local of the method has one of these types, so the
  verifier checks at each assignment that no step leaves the C type's range.
- `CkdAdd` and `CkdSub` model the C23 `ckd_add` and `ckd_sub`. They return the
  overflow flag and the value stored through the pointer, wrapped to 64 bits.
- `Saturated (hz, d)` and `SaturatedDifference (hz, a, b)` are the
  specification: the valid `Timespec` whose value is `d`, or `a - b`, clamped
  into the representable range.
- `TimespecSubtract` is the routine, step by step. It has the same locals,
  the same borrow step, and the same checked operations. The
  `goto low_overflow` is a flag that leads to the same clamp as the first arm
  of the overflow test.
- The lemmas prove that each branch is right. They also prove the routine's
  promises about the saturated difference.

TIMESPEC_HZ is defined in `timespec.h`, which is not part of this model. The
routine relies only on it being a positive `int`. So it is the parameter `hz`
throughout, and every property is proved for every such resolution. gnulib's
value, 10^9 (nanoseconds), is the constant `TimespecHz`. The example lemmas use
it.

The borrow step's fallback condition is written `- TYPE_SIGNED (time_t) < rs`.
For a signed `time_t` this is `-1 < rs`, that is `rs >= 0`. It is not
`rs > TYPE_MINIMUM (time_t)`, as a plain-language reading of the algorithm
might suggest. The model follows the code. `BorrowOverflowIsLow` shows that
the early jump to the low clamp is still correct for every negative `rs`.

## Model

| member | source | states |
|---|---|---|
| `TimespecSub.TimespecSubtract` | important/builds/emacs/emacs-30.1/lib/timespec-sub.c:30-66 | For valid inputs, the result is valid, so `0 <= tv_nsec < hz`. Its value is the exact difference `a - b`, clamped into `[TYPE_MINIMUM*hz, TYPE_MAXIMUM*hz + hz - 1]`. It equals `SaturatedDifference (hz, a, b)`. No local ever leaves the range of `time_t` or `int`. |
| `TimespecSub.Wrap` | important/builds/emacs/emacs-30.1/lib/timespec-sub.c:50 | The value that `ckd_sub` or `ckd_add` stores is in the range of `time_t` and congruent to the exact result modulo 2^64. It equals the exact result whenever that fits. |
| `TimespecSub.CkdAdd` | important/builds/emacs/emacs-30.1/lib/timespec-sub.c:42 | The flag is set exactly when the exact sum is outside `time_t`. The flag is also set exactly when the stored value differs from the sum. The stored value is congruent to the sum modulo 2^64. |
| `TimespecSub.CkdSub` | important/builds/emacs/emacs-30.1/lib/timespec-sub.c:50 | The same as `CkdAdd`, for the exact difference. |
| `TimespecSub.Saturated` | important/builds/emacs/emacs-30.1/lib/timespec-sub.c:20-22 | The result is always a valid timespec. Its value is `d` clamped into the representable range: `d` itself when `d` fits, an extremal value when it does not. |
| `TimespecSub.FromUnits` | important/builds/emacs/emacs-30.1/lib/timespec-sub.c:65 | For a value in range, the result is a valid timespec with exactly that value. |
| `TimespecSub.BorrowSplit` | important/builds/emacs/emacs-30.1/lib/timespec-sub.c:35-45 | After the borrow, `a.sec - b.sec - Borrow` seconds plus `a.nsec - b.nsec + Borrow*hz` is exactly `a - b`. The sub-second part is in `[0, hz)`. |
| `TimespecSub.BorrowOverflowIsLow` | important/builds/emacs/emacs-30.1/lib/timespec-sub.c:42-47 | Suppose a borrow is needed, `b.tv_sec` is TYPE_MAXIMUM and `a.tv_sec < 0`. Then the exact difference is below range, and the specified result is `{TYPE_MINIMUM, 0}`. So the `goto low_overflow` is correct. |
| `TimespecSub.SecondsOverflowDirection` | important/builds/emacs/emacs-30.1/lib/timespec-sub.c:50-62 | Suppose the seconds subtraction after the borrow overflows. If `0 < bs`, the specified result is `{TYPE_MINIMUM, 0}`. Otherwise, including `bs == 0`, it is `{TYPE_MAXIMUM, hz - 1}`. |
| `TimespecSub.ExactWhenSecondsFit` | important/builds/emacs/emacs-30.1/lib/timespec-sub.c:50-65 | If the seconds subtraction after the borrow does not overflow, the exact difference is in the representable range. So no clamp is needed. |
| `TimespecSub.SecondsInRange` | important/builds/emacs/emacs-30.1/lib/timespec-sub.c:65 | A value in range, split into seconds and a sub-second part in `[0, hz)`, has its seconds within `[TYPE_MINIMUM, TYPE_MAXIMUM]`. |
| `TimespecSub.UnitsInRange` | important/builds/emacs/emacs-30.1/lib/timespec-sub.c:52-62 | Every valid timespec lies between the two extremal results. |
| `TimespecSub.UnitsInjective` | important/builds/emacs/emacs-30.1/lib/timespec-sub.c:20-22 | Two valid timespecs with the same value are equal. The normalised form is canonical. |
| `TimespecSub.SaturatedUnique` | important/builds/emacs/emacs-30.1/lib/timespec-sub.c:20-22 | The saturated result is the only valid timespec whose value is the clamped difference. |
| `TimespecSub.ExactWithBorrow` | important/builds/emacs/emacs-30.1/lib/timespec-sub.c:35-45 | Suppose the exact difference is in range. Then the result is exact. With `a.tv_nsec < b.tv_nsec`, it is `{a.sec - b.sec - 1, a.nsec - b.nsec + hz}`. Otherwise it is `{a.sec - b.sec, a.nsec - b.nsec}`. |
| `TimespecSub.ClampCases` | important/builds/emacs/emacs-30.1/lib/timespec-sub.c:52-62 | The result is `{TYPE_MINIMUM, 0}` if and only if the exact difference is at most the minimum. It is `{TYPE_MAXIMUM, hz - 1}` if and only if the exact difference is at least the maximum. |
| `TimespecSub.DifferenceWithItself` | important/builds/emacs/emacs-30.1/lib/timespec-sub.c:33-50 | `timespec_sub (a, a)` is `{0, 0}`. |
| `TimespecSub.DifferencePlusSubtrahend` | important/builds/emacs/emacs-30.1/lib/timespec-sub.c:20-22 | Suppose there is no clamp. Add `b` back to the result, field by field with a carry. This gives `a` again. |
| `TimespecSub.ExtremeExamples` | important/builds/emacs/emacs-30.1/lib/timespec-sub.c:50-62 | At nanosecond resolution: `{MIN, 0} - {1, 0}` clamps to `{MIN, 0}`. `{MAX, 10^9 - 1} - {-1, 0}` clamps to `{MAX, 10^9 - 1}`. |
| `TimespecSub.BoundaryExamples` | important/builds/emacs/emacs-30.1/lib/timespec-sub.c:38-50 | At nanosecond resolution: `{5, 100} - {3, 200}` borrows and gives `{1, 999999900}`. Results that land exactly on `MIN`, `MIN + 1` or `MAX` seconds are computed exactly, not clamped. |

## Left out

- `time_t` is fixed as a signed 64-bit integer and `int` as a signed 32-bit
  integer. Other widths are not modelled. The unsigned-`time_t` variant of
  `TYPE_SIGNED` is also not modelled.
- `timespec.h`, `intprops.h` and `stdckdint.h` are not part of this model.
  `TIMESPEC_HZ` is the parameter `hz`. `TYPE_MINIMUM`, `TYPE_MAXIMUM` and
  `TYPE_SIGNED` are constants. `ckd_add` and `ckd_sub` are modelled by their
  C23 meaning, not by their definitions. `make_timespec` is the datatype
  constructor.
- Other parts of the repository are not part of this model:
  `src/w32image.c` (GDI+ image loading through foreign library calls, file
  I/O, floating-point frame delays) and the dwm `config.h` (declarative
  window-manager configuration).
