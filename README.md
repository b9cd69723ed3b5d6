# SOFC modelling scripts: rate-of-rise and result-file naming

This project models the two self-contained pieces of logic in a collection
of solid-oxide-fuel-cell and cylinder-cycle simulation scripts, and proves
properties of them in Dafny:

- **Maximum rate of pressure rise** (`maxrr.py`, module `MaxRateOfRise`,
  file `maxrr.dfy`). Given a crank-angle vector `cad`, a pressure vector `p`
  and a window half-width `w`, the routine checks that the two vectors are
  equally long. It then scans every interior index `i` with
  `w <= i < len(cad) - w` and forms the centred difference
  `(p[i+w] - p[i-w]) / (cad[i+w] - cad[i-w])`, clamping a falling pressure to
  a rate of 0. It returns the largest rate and the crank angle of the first
  index that attains it. The model keeps the source's shape: `CollectRates`
  is the loop that appends one rate and one angle per window, `FirstArgMax`
  is the left-to-right first-maximum pass, and `MaxRr` puts them together.
  All three are proved against specification functions (`Rates`,
  `FirstMaxIndex`, `MaxRrSpec`), and the lemmas state what those functions
  promise.
- **Result file name** (`fn_build_5.py`, module `ResultFilename`, file
  `filename.dfy`). The name is
  `hsd_<rv*10>_<phi*100>_<rmf*100>_<T>_<MP|PC>_<cycle>_<HT>`. The three
  scaled parameters are truncated toward zero. `T` is `AMM` when the initial
  temperature is 0 and its decimal rendering otherwise. The residual tag is
  `MP` when the first entry of the previous-cycle vector is 0 and `PC`
  otherwise. The name is a pure function, `BuildFilename`. Its partners are
  a parser, `ParseFilename`, proved to be its inverse on every field the
  name records, and a model of Python's `str.split('_')`, `Split`, proved to
  return the eight parts in order.

Conventions of the model:

- Numbers are Dafny `real`s. Pressures and angles are `seq<real>`.
  Python's `int(x)` on a float is `TruncateTowardZero`, and `str` of an int
  is `IntToDecimal`, which writes a leading `-` for negative values.
- The error paths are values, tested in the source's order. `MaxRr`
  returns `Err(LengthMismatch)` for the `ValueError` on unequal lengths,
  whatever the angles. With equal lengths, a negative half-width gives
  `Err(IndexOutOfRange)`: the scan's last index, `len(cad) - w - 1`, would
  read `p[len(cad) - 2w - 1]`, which is past the end. So the scan cannot
  finish: it raises `IndexError` at the first index whose window reads past
  either end of `p`. It returns `Err(NoWindows)` when no index has a
  full window, which is where the source fails in `np.max` of an empty
  array. `BuildFilename` returns `None` when the previous-cycle vector is
  empty: the source cannot read its first entry there.
- One precondition is not a check in the source (`RisingWindowsHaveSpan`).
  It applies only to the windows the source divides by: when the lengths
  agree and `w >= 0`, every window whose pressure does not fall must have two
  different end angles. A falling window is clamped to 0 before any
  division, so its angles are unconstrained, and inputs rejected by the
  length check or a negative half-width always meet the precondition
  (`RejectedInputsAdmitted`). The source divides without a guard, and numpy
  then yields an infinity or a NaN rather than raising. Strictly increasing
  angles with `w > 0` always meet it (`IncreasingAnglesHaveSpan`).

## Model

| member | source | states |
|---|---|---|
| MaxRateOfRise.CollectRates | maxrr.py:33-45 | one rate per index `i` in `[w, len(cad)-w)`, in order, so exactly `len(cad) - 2w` of them (or none); rate `k` is the clamped centred difference of the window around `w + k` and angle `k` is `cad[w + k]` |
| MaxRateOfRise.WindowRate | maxrr.py:37-44 | a negative pressure rise gives a rate of exactly 0; otherwise the rate times the window's angle span equals the pressure rise, i.e. the rate is `dp / dCAD`; only a non-falling window needs a nonzero span |
| MaxRateOfRise.Rates | maxrr.py:33-45 | one rate per index `i` in `[w, len(cad)-w)`, `len(cad) - 2w` of them (or none), and rate `k` is the window rate around index `w + k` |
| MaxRateOfRise.FirstMaxIndex | maxrr.py:51-52 | the index is in range, its value is at least every value, and every earlier value is strictly smaller (first occurrence of the maximum, as `np.argmax`) |
| MaxRateOfRise.FirstArgMax | maxrr.py:51-52 | the single left-to-right pass returns exactly the first index of the maximum |
| MaxRateOfRise.MaxRr | maxrr.py:10-55 | the routine returns exactly `MaxRrSpec(cad, p, w)`: the length error, the out-of-range error of a negative half-width, the no-window failure, or the peak described by the lemmas below |
| MaxRateOfRise.RejectedInputsAdmitted | maxrr.py:30-36 | unequal lengths or a negative half-width meet the precondition whatever the angles, so those errors are reachable for every input |
| MaxRateOfRise.MaxRrFailures | maxrr.py:30-52 | the result is `LengthMismatch` iff the lengths differ, `IndexOutOfRange` iff they agree and `w < 0`, `NoWindows` iff they agree, `w >= 0` and `len(cad) <= 2w`, and a peak iff they agree, `w >= 0` and `len(cad) > 2w` |
| MaxRateOfRise.MaxRrPeak | maxrr.py:51-53 | the returned rate is at least every window's rate and equals the rate of a window `k` that no earlier window reaches; the returned angle is `cad[w + k]`, so it lies in `cad[w .. len(cad)-w)` |
| MaxRateOfRise.ZeroHalfWidthExcluded | maxrr.py:36-44 | with `w = 0`, every window of a non-empty trace has zero rise and zero span, so such a trace falls outside the precondition (the source's `0/0`) |
| MaxRateOfRise.IncreasingAnglesHaveSpan | maxrr.py:38 | strictly increasing angles with a positive half-width give every window a nonzero angle span |
| MaxRateOfRise.MaxRrNonNegative | maxrr.py:41-44 | over strictly increasing angles every window's rate is at least 0, and so is the returned maximum |
| MaxRateOfRise.ExampleRates | maxrr.py:58-60 | the example's angles and pressures with half-width 2 meet the precondition and give the seven window rates 0.25, 0.35, ..., 0.85 |
| MaxRateOfRise.MaxRrExample | maxrr.py:58-62 | angles 0, 10, ..., 100, pressures 1, 2, 4, 7, 11, 16, 22, 29, 37, 46, 56 and half-width 2 give the maximum 0.85 at angle 80 |
| ResultFilename.NatToDecimal | fn_build_5.py:31 | the rendering of a natural number is a non-empty string of digits with no leading zero, and is `0` iff the number is 0 |
| ResultFilename.IntToDecimal | fn_build_5.py:31 | the rendering of an integer is non-empty and has no underscore; it starts with `-` iff the integer is negative, and is all digits otherwise; it has no leading zero (only `0` starts with `0`) and no `-0` |
| ResultFilename.ParseNatToDecimal | fn_build_5.py:31 | reading the digits of a natural number back gives that number |
| ResultFilename.ParseIntToDecimal | fn_build_5.py:31 | reading the rendering of any integer back gives that integer |
| ResultFilename.TruncateTowardZero | fn_build_5.py:31 | `int(x)`: for `x >= 0` the largest integer not above `x`, for `x < 0` the smallest integer not below `x`; the result is never farther from 0 than `x` |
| ResultFilename.TemperatureField | fn_build_5.py:25 | the field is `AMM` iff the initial temperature is 0; it is never empty and holds no underscore |
| ResultFilename.TemperatureFieldRoundTrip | fn_build_5.py:25 | reading the temperature field back gives the initial temperature (0 for `AMM`) |
| ResultFilename.ResidualField | fn_build_5.py:28 | the field is `MP` iff the first previous-cycle entry is 0 and `PC` iff it is not |
| ResultFilename.BuildFilename | fn_build_5.py:8-33 | a name is produced iff the previous-cycle vector is non-empty |
| ResultFilename.BuildFilenameEnds | fn_build_5.py:31 | the name starts with `hsd_` and ends with `_` followed by the heat-transfer version string |
| ResultFilename.ParseBuildFilename | fn_build_5.py:25-31 | parsing the name gives back `int(rv*10)`, `int(phi*100)`, `int(rmf*100)`, the initial temperature, whether the first previous-cycle entry was 0, the cycle number and the whole heat-transfer version string |
| ResultFilename.SplitBuildFilename | fn_build_5.py:25-31 | with no underscore in the version string, splitting the name on `_` gives exactly 8 parts, `hsd` then rv, phi, rmf, temperature tag, residual tag, cycle and version in that order; part 4 is `AMM` iff the temperature is 0 and reads back as the temperature otherwise; part 5 is `MP` iff the first previous-cycle entry is 0 and `PC` iff not |
| ResultFilename.BuildFilenameInjective | fn_build_5.py:31 | two calls give the same name only if they agree on the three truncated parameters, the temperature, the residual tag, the cycle number and the version string |
| ResultFilename.BuildFilenameExample | fn_build_5.py:36-45 | the example parameters (rv 0.1, phi 0.85, rmf 0.75, temperature 1000, previous-cycle vector `[0, 0, 1]`, cycle 1, version `SOFC2024`) give a name whose parts are `hsd`, `1`, `85`, `75`, `1000`, `MP`, `1`, `SOFC2024` |

## Left out

- The `ndim` checks of `maxrr.py:28-29`: Dafny sequences are one-dimensional by construction.
- MaxRr: a non-falling window whose two end angles coincide is excluded by `RisingWindowsHaveSpan` rather than modelled. This covers every non-empty trace with `w = 0` (`ZeroHalfWidthExcluded`): each window then has `dp = 0` and `dCAD = 0`, and the source returns `(nan, cad[0])`. In the source, numpy's division then yields an infinity or a NaN with a warning, and the model has no IEEE values.
- MaxRr: for a negative half-width the model returns `IndexOutOfRange` at once. The source may first compute windows that wrap around through Python's negative indices, but it always raises `IndexError` before returning, so only that error is modelled.
- IntToDecimal: renders integers of any size. Python 3.11 and later refuse `str` of an integer with more than 4300 digits by default (`ValueError`); this affects the temperature at `fn_build_5.py:25` and the cycle number at `fn_build_5.py:31`. The three truncated parameters are integer parts of floats, at most 309 digits long, so the limit never applies to them.
- Binary floating point: `int(rv * 10)` is truncation of the exact real product. For example, the model gives 29 for `int(0.29 * 100)` where IEEE arithmetic gives 28. Likewise the rates are exact rational quotients. The exact reals never overflow to `inf` or become `nan`, so the `OverflowError` or `ValueError` that `int()` raises for such a product at `fn_build_5.py:31` is not modelled.
- BuildFilenameExample: states the example's name through its eight `_`-separated parts rather than as one literal string.
- Python's dynamic typing: the initial temperature and cycle number are integers, and the previous-cycle entries are reals. A float temperature, which `str` would render as `1000.0`, is not modelled.
- The printing of results (`maxrr.py:58-64`, the `__main__` block of `fn_build_5.py`) and every other script of the repository. Those scripts call an external chemical-equilibrium library, integrate ODEs or plot, and none of them is part of this model.
