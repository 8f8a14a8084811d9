# power_law: a verified model of the cross-spectrum evaluator

`power_law` (models.py) evaluates the cross-power-spectrum of a sky component
whose emission is a power law in frequency and in multipole:

    cross[c1, c2, f1, f2, l] = amplitude[c1, c2] * ells[l] ** alpha[c1, c2]
                               * sed[c2, f2] * sed[c1, f1]

Here `ells` holds the multipoles `lmin .. lmax` divided by `ell0`, and
`sed[c, f] = (freq[f] / freq0) ** beta[c]`. Each of `beta`, `alpha` and
`amplitude` may be a plain number or may be resolved per component
(T, E, B). A resolved `alpha` enters through the mean
`(alpha[c1] + alpha[c2]) / 2`. A one-dimensional amplitude is the diagonal
of the component matrix. The two leading component axes exist only when
some input is resolved.

The routine computes all of this through numpy broadcasting, so the model
has two layers.

- `NdArray` (ndarray.dfy) is a small model of the numpy features the routine
  uses. An array is a shape together with a function from indices to reals.
  It provides `np.arange`, `np.diag`, `np.newaxis` and elementwise
  functions. It also provides elementwise binary operators under numpy's
  broadcasting rule, including the broadcast error. The lemmas say when
  broadcasting to a target shape succeeds and what every operand
  contributes at each index.
- `Models` (models.dfy) follows the routine's statements one by one (`Ells`,
  `Sed`, `AlphaExponent`, `AmplitudeFactor`, `Scaling`, `PowerLaw`). Its main
  theorem, `PowerLawBroadcast`, holds when all component-resolved inputs
  have the same count C. It states two things. The evaluation succeeds
  with shape `([C, C,] F, F, L)`. Every entry equals the closed-form `Entry`.
- `PowerLawProperties` (properties.dfy) derives these consequences from the
  theorem:
  - the shape rule;
  - the zeros of a diagonal amplitude;
  - the exponent of an auto-spectrum;
  - the multipole scaling;
  - the swap symmetries;
  - how components enter an entry;
  - the failure on mismatched component counts;
  - the stretching of a single-valued `beta`;
  - a worked example.

Python's dynamic dispatch is replaced by tagged variants: `Param` for `beta`
and `alpha`, and `Amp` for the amplitude. The source makes this choice by
catching `TypeError` and `AttributeError`. Real exponentiation `x ** y` is
the parameter `pow` of every member: nothing is assumed about it, so every
property holds for any exponentiation.

models.py does not check that the component counts of `beta`, `alpha` and
`amplitude` agree; numpy broadcasting decides. The call fails with numpy's broadcast error
when two resolved inputs have different counts, neither being 1:
`alpha` against `beta` (`MismatchedComponents`), the amplitude's row count
against `alpha` (`MismatchedAmplitudeAlpha`), and the amplitude's column
count against `beta` (`MismatchedAmplitudeBeta`). For a diagonal or
square amplitude the row and column counts are its one component count. A per-component `beta` of length 1 is
stretched across the components of the other inputs, and the call succeeds
with shape (C, C, F, F, L) (`SingleBetaBroadcasts`).

## Model

| member | source | states |
|---|---|---|
| NdArray.BroadcastFits | models.py:63 | numpy's broadcast shape does not depend on the order of the operands; both operands fit it, and on every axis at least one of them supplies its length |
| NdArray.NewAxisIndex | models.py:42-48 | an index of the widened array is 0 on the new axis, and without that coordinate it is an index of the original |
| NdArray.ZipBroadcast | models.py:63 | operands that each fit a target shape combine without error; the result fits the target and supplies every axis an operand supplies; at each target index it is the operator applied to what each operand contributes |
| NdArray.ZipExact | models.py:42-51 | when every target axis is supplied by an operand, the result has exactly the target shape |
| NdArray.ValIndex | models.py:63 | an operand that fits a target is read in bounds at every target index, on the target's own coordinate along every axis it supplies |
| NdArray.ShapeFromCovers | models.py:63 | a shape that supplies every axis of a target of the same rank is that target |
| NdArray.ValOwn | models.py:63 | read at its own in-bounds index, an array contributes its own entry |
| Models.Ells | models.py:39 | the multipole axis has `lmax - lmin + 1` entries (none when `lmin > lmax`); entry i is `(lmin + i) / ell0`, and `lmin + i <= lmax` |
| Models.FreqRatio | models.py:42-46 | `freq / freq0` has one entry per frequency, and entry f is `freq[f] / freq0` |
| Models.Widen | models.py:52-59 | appending three new axes to a two-dimensional array gives shape `(n, m, 1, 1, 1)` |
| Models.WidenEntries | models.py:52-59 | each entry of the widened array is the original's entry at the first two coordinates |
| Models.SedGrid | models.py:42 | `(freq / freq0) ** beta[:, np.newaxis]` is the (C, F) array whose entry (c, f) is `(freq[f] / freq0) ** beta[c]` |
| Models.SedEntriesPerComp | models.py:42-44 | for a per-component `beta`, `sed` is (C, 1, F, 1) and `sed_t` is (C, 1, F, 1, 1); both hold `(freq[f] / freq0) ** beta[c]` at component c and frequency f |
| Models.SedOwnShapesPerComp | models.py:42-44 | for a per-component `beta`, `sed` is (C, 1, F, 1) and `sed_t` is (C, 1, F, 1, 1) |
| Models.SedValuesPerComp | models.py:42-44 | for a per-component `beta`, `sed` holds `(freq[f] / freq0) ** beta[c]` at every index with component c and frequency f |
| Models.SedTValuesPerComp | models.py:42-43 | for a per-component `beta`, `sed_t` holds `(freq[f] / freq0) ** beta[c]` at every index with component c and frequency f |
| Models.SedEntriesScalar | models.py:46-48 | for a plain `beta`, `sed` is (F, 1) and `sed_t` is (F, 1, 1); both hold `(freq[f] / freq0) ** beta` |
| Models.SedExists | models.py:41-48 | `sed` and `sed_t` always exist: `freq / freq0` against `beta[:, np.newaxis]` never fails to broadcast |
| Models.ColumnEntries | models.py:47-48 | `t[:, np.newaxis]` and `t[:, np.newaxis, np.newaxis]` of a one-dimensional `t` hold `t[i]` at every index whose first coordinate is i |
| Models.AlphaEntriesPerComp | models.py:51-52 | for a per-component `alpha`, the exponent array is (C, C, 1, 1, 1) and holds `(alpha[c1] + alpha[c2]) / 2` at (c1, c2) |
| Models.AmplitudeEntries | models.py:56-59 | a one-dimensional amplitude becomes the (C, C, 1, 1, 1) diagonal matrix and a matrix keeps its entries, widened the same way |
| Models.AmplitudeShape | models.py:56-61 | the amplitude factor fits the output shape; a plain number has rank 0, and otherwise it supplies both component axes |
| Models.AmplitudeValues | models.py:56-63 | at every output index the amplitude contributes `amplitude[c1, c2]` (0 off the diagonal for a diagonal amplitude) |
| Models.EllsAndAlphaFit | models.py:39-54 | `ells` and the exponent fit the output shape; `ells` supplies the multipole axis and a per-component exponent supplies the component axes |
| Models.ScalingShape | models.py:39-63 | `ells**alpha` never fails; it has rank 1, or rank 5 for a per-component `alpha`; it supplies the multipole axis, and the component axes when `alpha` is resolved |
| Models.ScalingShapePerComp | models.py:39-63 | whatever the other inputs, a per-component `alpha` of length C gives `ells**alpha` the shape (C, C, 1, 1, L) |
| Models.ScalingShapeScalar | models.py:39-63 | whatever the other inputs, a plain `alpha` gives `ells**alpha` the shape (L) |
| Models.EllsValue | models.py:39-63 | at every output index `ells` contributes `(lmin + l) / ell0` for the multipole coordinate l |
| Models.AlphaValue | models.py:50-63 | at every output index the exponent contributes `alpha[c1, c2]`: the plain `alpha`, or the mean of `alpha[c1]` and `alpha[c2]` |
| Models.AlphaPerCompValue | models.py:51-63 | the (C, C, 1, 1, 1) exponent array, read at an index of a five-axis output, contributes `(alpha[c1] + alpha[c2]) / 2` |
| Models.ScalingValues | models.py:39-63 | at every output index `ells**alpha` contributes `((lmin + l) / ell0) ** alpha[c1, c2]` |
| Models.SedShapesPerComp | models.py:42-63 | with a per-component `beta` the output has component axes; `sed` supplies the second component axis and the second frequency axis, and `sed_t` supplies the first of each |
| Models.SedShapesScalar | models.py:46-63 | with a plain `beta`, `sed` supplies the second frequency axis and `sed_t` the first |
| Models.FrequencyColumnFits | models.py:47-63 | a (F, 1) and a (F, 1, 1) array fit any output whose two frequency axes have length F, and supply the second and the first of them |
| Models.SedValues | models.py:41-63 | at every output index `sed` contributes `sed[c2, f2]` and `sed_t` contributes `sed[c1, f1]` |
| Models.ProductBroadcast | models.py:63 | four factors that each fit a target shape multiply left to right without error; the product supplies every axis a factor supplies, and at each index it is the product of the factors' contributions |
| Models.ProductShape | models.py:39-63 | with consistent component counts, the evaluation succeeds and its shape is `([C, C,] F, F, L)` |
| Models.FactorsCover | models.py:39-63 | with consistent component counts all four factors exist and fit the output shape, and every output axis is supplied by at least one of them |
| Models.FactorsCoverPerComp | models.py:42-63 | the same with a per-component `beta`, whose `sed` and `sed_t` supply the component and frequency axes |
| Models.FactorsCoverScalar | models.py:46-63 | the same with a plain `beta`, where a resolved `alpha` or amplitude supplies the component axes |
| Models.TrailingAxesCovered | models.py:63 | when the last three output axes are supplied by `sed_t`, `sed` and `ells**alpha`, and the two component axes (if any) by the amplitude or by `ells**alpha`, every axis is supplied |
| Models.ProductValues | models.py:63 | at every output index the result is the product of the four factors' contributions there |
| Models.CoordinatesInRange | models.py:31-35 | every index of the output shape names a valid component of each resolved input and a valid frequency |
| Models.EntryValue | models.py:63 | at each in-bounds index the result equals the closed-form entry |
| Models.PowerLawBroadcast | models.py:3-63 | with consistent component counts, the evaluation succeeds; its shape is `(C, C, F, F, L)` when some input is resolved and `(F, F, L)` otherwise; entry `[c1, c2, f1, f2, l]` is `amplitude[c1, c2] * ((lmin + l) / ell0) ** alpha[c1, c2] * sed[c2, f2] * sed[c1, f1]` |
| Models.ComponentEntry | models.py:42-63 | the entry `[c1, c2, f1, f2, l]` of a result with component axes, as a product of the four factors |
| Models.ScalarEntry | models.py:46-63 | the entry `[f1, f2, l]` of an all-scalar result is `amplitude * ells[l] ** alpha * sed[f2] * sed[f1]` |
| PowerLawProperties.ShapeRule | models.py:31-39 | the result has rank 5 exactly when some input is resolved per component; its shape is (C, C, F, F, L) then and (F, F, L) otherwise, L being the number of multipoles |
| PowerLawProperties.MultipoleAxis | models.py:39 | the multipole axis is empty exactly when `lmin > lmax`, and otherwise has `lmax - lmin + 1` entries |
| PowerLawProperties.DiagonalAmplitude | models.py:57-63 | with a one-dimensional amplitude every entry with `c1 != c2` is exactly 0, and the entry with `c1 == c2 == c` is `amplitude[c]` times the multipole and frequency factors |
| PowerLawProperties.AutoSpectrum | models.py:51-63 | the auto-spectrum of component c scales as `ell ** alpha[c]`: the mean exponent on the diagonal is the component's own |
| PowerLawProperties.MultipoleScaling | models.py:39-63 | entries at two multipoles l1 and l2 stand in the ratio `(ell1 / ell2) ** alpha_pair[c1, c2]`, stated as a cross-multiplication |
| PowerLawProperties.ExponentSymmetric | models.py:51 | the pair exponent is symmetric in (c1, c2); it is the mean of `alpha[c1]` and `alpha[c2]` when `alpha` is resolved, and the plain `alpha` otherwise |
| PowerLawProperties.SwapSymmetry | models.py:42-63 | with a symmetric amplitude (plain, diagonal or symmetric matrix), swapping `(c1, f1)` with `(c2, f2)` leaves the entry unchanged |
| PowerLawProperties.FrequencySwap | models.py:46-63 | without component axes the result is symmetric under exchanging the two frequency axes |
| PowerLawProperties.ComponentsEnterOnlyThroughInputs | models.py:33-61 | two component pairs with the same amplitude, pair exponent and spectral indices have equal entries, so an input given as a plain number is the same for every pair of components |
| PowerLawProperties.AmplitudeScalesScalarSpectrum | models.py:56-63 | with plain `alpha` and `beta`, entry `[c1, c2, f1, f2, l]` is `amplitude[c1, c2]` times entry `[f1, f2, l]` of the call with unit amplitude |
| PowerLawProperties.MismatchedComponents | models.py:42-63 | a per-component `alpha` and a per-component `beta` whose lengths differ, neither being 1, make the call fail, whatever the amplitude |
| PowerLawProperties.MismatchedAmplitudeAlpha | models.py:51-63 | a per-component amplitude and a per-component `alpha` whose component counts differ, neither being 1, make the call fail, whatever `beta` |
| PowerLawProperties.MismatchedAmplitudeBeta | models.py:42-63 | a per-component amplitude and a per-component `beta` whose component counts differ, neither being 1, make the call fail, whatever `alpha` |
| PowerLawProperties.ClashWithSed | models.py:43-63 | for a per-component `beta` whose length is not 1: when `amplitude * ells**alpha` fails, or has a second axis whose length is neither 1 nor the length of `beta`, the whole product fails |
| PowerLawProperties.SingleBetaSed | models.py:42-44 | a single-valued per-component `beta` gives `sed` and `sed_t` of length 1 on the component axes, which supply the frequency axes |
| PowerLawProperties.SingleComponentShapes | models.py:43-63 | the shapes (1, 1, F, 1) and (1, 1, F, 1, 1) fit a five-axis output with F on its frequency axes, and supply one frequency axis each |
| PowerLawProperties.SingleBetaOthers | models.py:39-61 | the amplitude and `ells**alpha` do not depend on `beta`; they fit the output shape and supply its component and multipole axes |
| PowerLawProperties.SingleBetaFactors | models.py:41-63 | with a single-valued per-component `beta`, every factor fits the output shape of the other inputs and each axis is supplied by one of them |
| PowerLawProperties.SingleBetaBroadcasts | models.py:42-63 | a single-valued per-component `beta` is stretched across C components: the call succeeds with shape (C, C, F, F, L) |
| PowerLawProperties.Incompatible | models.py:63 | a rank-5 and a rank-4 shape whose right-aligned lengths differ on axis 1 of the rank-5 shape (axis 0 of the rank-4 one), neither being 1, do not broadcast together |
| PowerLawProperties.IncompatibleLeading | models.py:63 | two five-dimensional shapes whose first axes differ, neither being 1, do not broadcast together |
| PowerLawProperties.ExampleShape | models.py:39-63 | for freq = [100, 150], freq0 = 100, beta = 1.5, multipoles 2..3, ell0 = 80, alpha = -0.5 and amplitude 2, the shape is (2, 2, 2) |
| PowerLawProperties.ExampleFirstEntry | models.py:39-63 | in the same case entry [0, 0, 0] is `2 * (2/80) ** -0.5 * 1 ** 1.5 * 1 ** 1.5` |
| PowerLawProperties.ExampleSecondEntry | models.py:39-63 | in the same case entry [1, 0, 1] is `2 * (3/80) ** -0.5 * 1 ** 1.5 * 1.5 ** 1.5` |

## Left out

- Floating point: numbers are exact reals. `x ** y` is an arbitrary function `pow`, so nothing is claimed about IEEE rounding, overflow, NaN or negative bases.
- Models.Inputs.Valid: requires `freq0 != 0` and `ell0 != 0`. numpy divides by zero to give infinities or NaN, and reals have no such values.
- Dispatch by exception: the source distinguishes plain numbers from arrays by catching `TypeError` (indexing a float, models.py:41-54) and `AttributeError` (`.ndim` of a float, models.py:56-61). The model uses tagged variants instead.
- numpy 0-d scalars: an `np.float64` amplitude has `.ndim == 0`, so it passes the check and then raises an uncaught `IndexError` at models.py:59. An `np.float64` `beta` or `alpha` likewise raises `IndexError` rather than `TypeError` at models.py:42 or 51. The model treats every plain number as a Python float.
- Python lists: a list passed as `beta`, `alpha` or `amplitude` takes the plain-number branch and then meets numpy broadcasting. This is not modelled.
- Arrays of other ranks: a `beta` or `alpha` of rank 2 or more, and an amplitude of rank 3 or more, are not modelled.
- Non-integer bounds: `lmin` and `lmax` are whole numbers. The model leaves out `np.arange` with fractional bounds and a float step. models.py does not check that the bounds are whole numbers.
- Negative frequencies: models.py does not check the sign of `freq`, and neither does the model; `pow` is arbitrary, so nothing is claimed about negative bases.
- Models.PowerLawBroadcast: characterises the result only when all component-resolved inputs have the same length C. Broadcasting a length-1 array against length C is covered only for `beta`, and only by the shape (`SingleBetaBroadcasts`), not entry by entry. A length-1 `alpha` or amplitude stretched across C components is not covered.
- Non-square amplitude: a matrix amplitude whose row count differs from the length of `beta`, neither being 1, while its column count matches it, fails in numpy: on `sed_t` when `alpha` is plain or of length 1, and already at `amplitude * ells**alpha` when `alpha` is resolved with more components. No lemma states that case.
- Determinism: the model is a set of mathematical functions, so two calls with equal inputs trivially give equal results. No separate statement is made.
