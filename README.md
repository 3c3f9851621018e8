# EAST target-size planner

This project models the size arithmetic of `resizeImage` in the Go driver of
the EAST scene-text detector. Before an image is resampled and handed to the
detector, `resizeImage` plans its target size:

- it takes the larger of the height and the width;
- it decides a scale ratio against a cap of 2400 pixels;
- it scales both sides by that ratio, truncating to an unsigned integer;
- it aligns each side down to a multiple of the detector's stride, 32;
- it reports the achieved ratios target/source.

The model is two modules of pure functions and lemmas, because this part of
the source is straight-line arithmetic with no loop and no state:

- `Alignment` (alignment.dfy) covers the stride alignment. It has a
  recursive reference definition, `FloorMultiple`, and proves that the
  division-based `AlignDown` agrees with it.
- `SizePlanner` (size_planner.dfy) covers the biggest dimension, the scale
  ratio, the provisional sizes, the plan and the achieved ratios.

Go's `uint(float64(d) * ratio)` becomes the floor of an exact real product.
Truncation toward zero and the floor agree on non-negative values. Go's
integer `/` on the non-negative operands used here equals Dafny's `/`.

The plan follows the code as written. The code computes `maxSize / biggestDim`
by integer division before converting it to floating point. So above the cap
the ratio is 0, and both targets are 0. An ideal proportional scale would not
give this. The corrected plan, `PlanIntended`, is modelled beside it (see
Findings). With the intended ratio, 4800 x 2400 plans to 2400 x 1184; the
code as written plans it to 0 x 0.

## Model

| member | source | states |
|---|---|---|
| `SizePlanner.BiggestDim` | cmd/east.go:88-92 | the result is at least both dimensions and is one of them, i.e. the maximum |
| `SizePlanner.ScaleRatio` | cmd/east.go:83-96 | the ratio is exactly 1.0 when the biggest dimension is within 2400 and exactly 0.0 above it, because of the integer division |
| `SizePlanner.Provisional` | cmd/east.go:98-99 | the provisional size is the truncation of dimension x ratio: at most the product and within one of it |
| `Alignment.AlignDown` | cmd/east.go:101-107 | the aligned size is a multiple of 32, not above the provisional size and less than 32 below it |
| `Alignment.AlignDownKeepsMultiples` | cmd/east.go:101-107 | a size already divisible by 32 is left unchanged |
| `Alignment.AlignDownIdempotent` | cmd/east.go:101-107 | aligning an aligned size changes nothing |
| `Alignment.AlignDownIsGreatest` | cmd/east.go:101-107 | every multiple of 32 not above the size is at most the aligned size, so alignment rounds down to the greatest one |
| `Alignment.AlignDownBelowStride` | cmd/east.go:101-107 | a size below 32 aligns to 0 |
| `Alignment.AlignDownShift` | cmd/east.go:101-107 | adding 32 to the size adds 32 to the aligned size |
| `Alignment.AlignDownIsFloorMultiple` | cmd/east.go:101-107 | the division-based alignment equals the stride-by-stride reference definition for every size |
| `SizePlanner.PlanWithRatio` | cmd/east.go:98-107 | for any non-negative ratio both targets are multiples of 32 and within one stride below their provisional sizes |
| `SizePlanner.Plan` | cmd/east.go:78-108 | both targets are multiples of 32; within the cap each target is at most its source and less than 32 below it; above the cap the plan is 0 x 0 |
| `SizePlanner.ProvisionalMonotone` | cmd/east.go:98-99 | for a fixed non-negative ratio, a larger dimension never gets a smaller truncated size |
| `SizePlanner.ProvisionalAsWritten` | cmd/east.go:94-99 | the provisional sizes equal the source sizes within the cap and are 0 above it |
| `SizePlanner.PlanWithinCap` | cmd/east.go:86-107 | when both sides are within 2400 the plan is the stride alignment of each side |
| `SizePlanner.PlanNeverUpsamples` | cmd/east.go:86-107 | each target is at most its source size |
| `SizePlanner.PlanDegenerateBelowStride` | cmd/east.go:101-107 | a source side below 32 gets target 0, a case the code does not guard |
| `SizePlanner.PlanExample` | cmd/east.go:94-107 | 1000 x 500 is planned to 992 x 480 |
| `SizePlanner.PlanIdempotentWithinCap` | cmd/east.go:101-107 | planning an already planned size within the cap returns it unchanged |
| `SizePlanner.Ratio` | cmd/east.go:111-112 | the achieved ratio is non-negative and times the source gives the target |
| `SizePlanner.RatioBounds` | cmd/east.go:111-112 | a target at most its source gives a ratio of at most 1, and above 1 - 32/source when the target is less than 32 below the source |
| `SizePlanner.PlanRatiosBounded` | cmd/east.go:111-112 | for positive sides both achieved ratios lie in [0, 1], and within the cap each exceeds 1 - 32/source |
| `SizePlanner.PlanRatiosMayDiffer` | cmd/east.go:111-112 | for 1000 x 500 the ratios are 0.992 and 0.96, so they need not be equal |
| `SizePlanner.PlanRatiosAboveCap` | cmd/east.go:94-112 | above the cap both achieved ratios are 0 |
| `SizePlanner.IntendedScaleRatio` | cmd/east.go:94-96 | the intended ratio is exactly 1.0 within the cap, lies in (0, 1], and scales the biggest side above the cap to exactly 2400 |
| `SizePlanner.ProvisionalWithinCap` | cmd/east.go:94-99 | with the intended ratio no side's provisional size exceeds 2400 or the side itself |
| `SizePlanner.PlanIntended` | cmd/east.go:83-107 | the intended targets are multiples of 32, at most 2400, and at most their source sizes (never upsampled) |
| `SizePlanner.PlanAboveCapCounterexample` | cmd/east.go:94-99 | 4800 x 2400 is planned to 0 x 0 as written, where the intended plan is 2400 x 1184 |
| `SizePlanner.PlanIntendedAgreesWithinCap` | cmd/east.go:94-99 | within the cap the intended plan equals the plan as written |
| `SizePlanner.PlanIntendedBiggestAtCap` | cmd/east.go:94-107 | above the cap the intended plan brings the larger side to exactly 2400 |

## Left out

- The resampling call `resize.Resize(..., resize.Bilinear)` (cmd/east.go:109): a third-party bilinear resampler whose source is not part of this model. It works in floating point.
- `ImageResizer`, `NewImageResizer` and `Run` (cmd/east.go:27-76): these build and run a TensorFlow graph through a foreign library.
- The per-pixel normalisation loop of `prepareImage` (cmd/east.go:142-152). It uses float32 division and an out-of-range `uint8` conversion, whose result Go leaves to the implementation. It then subtracts 1 with wrap-around.
- PNG decoding and encoding, opening the input file, writing `resized.png`, and flag parsing (cmd/east.go:18-25, 117-138, 154-162): I/O and codec calls.
- `main` (cmd/east.go:165-220): model loading, the session and inference against named operations. These belong to the inference engine.
- export.py is not part of this model. It is a Keras export script made only of library calls and file I/O.
- SizePlanner.Ratio: states the exact real quotient. It does not model the float64 rounding of `float64(resizeH) / float64(h)`.
- SizePlanner.Ratio: requires a positive source side. With a zero side Go divides by zero and yields NaN.
- SizePlanner.Plan: takes dimensions as non-negative integers. The bounds of a decoded image are never negative, so Go's signed `int` and a negative `Dy()` are not modelled.
- SizePlanner.IntendedScaleRatio: is the exact real quotient 2400/biggest. It does not model the float64 rounding of that quotient or of the product in `uint(float64(h) * ratio)`.

## Findings

| source | as written | input that shows it | evidently intended | confidence | as-written member | corrected member |
|---|---|---|---|---|---|---|
| cmd/east.go:95 | `float64(maxSize / biggestDim)` divides integers first, so every image whose larger side exceeds 2400 gets ratio 0 and a 0 x 0 target | h = 4800, w = 2400 gives 0 x 0 | ratio 2400/biggest as a real, which scales the larger side to 2400 and gives 2400 x 1184 here | high; not executed | `SizePlanner.PlanAboveCapCounterexample` | `SizePlanner.PlanIntendedBiggestAtCap` |
