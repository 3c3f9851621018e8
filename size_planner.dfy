/** The target-size planner of `resizeImage`: from the height and width of a
    decoded image it chooses the size the image is resampled to before it is
    fed to the EAST detector, and the ratios target/source that map detections
    back to the source image. */
module SizePlanner {
  import opened Alignment

  /** The cap on the larger side of the image. */
  const MaxSize: nat := 2400

  /** Target height and width of a plan. */
  datatype Target = Target(height: nat, width: nat)

  /** The larger of the two dimensions; the width is the default and the
      height is taken only when it is strictly greater. */
  function BiggestDim(h: nat, w: nat): (b: nat)
    ensures b >= h && b >= w
    ensures b == h || b == w
  {
    if h > w then h else w
  }

  /** The scale ratio as the source computes it: `maxSize / biggestDim` is an
      integer division, converted to floating point only afterwards, so above
      the cap the ratio is zero rather than `2400 / biggestDim`. */
  function ScaleRatio(biggest: nat): (r: real)
    ensures biggest <= MaxSize ==> r == 1.0
    ensures biggest > MaxSize ==> r == 0.0
  {
    if biggest > MaxSize then (MaxSize / biggest) as real else 1.0
  }

  /** The scale ratio the planner evidently intends: the exact quotient that
      brings the larger side down to the cap, and 1 when it is already within
      it, so that the plan never upsamples. */
  function IntendedScaleRatio(biggest: nat): (r: real)
    ensures 0.0 < r <= 1.0
    ensures biggest <= MaxSize ==> r == 1.0
    ensures biggest > MaxSize ==> biggest as real * r == MaxSize as real
  {
    if biggest > MaxSize then MaxSize as real / biggest as real else 1.0
  }

  /** A provisional target size: the dimension scaled by the ratio, converted
      to an unsigned integer, which truncates toward zero. */
  function Provisional(d: nat, ratio: real): (p: nat)
    requires ratio >= 0.0
    ensures p as real <= d as real * ratio < p as real + 1.0
  {
    (d as real * ratio).Floor
  }

  /** Scales both dimensions by `ratio` and aligns each down to the stride. */
  function PlanWithRatio(h: nat, w: nat, ratio: real): (t: Target)
    requires ratio >= 0.0
    ensures t.height % Stride == 0 && t.width % Stride == 0
    ensures t.height <= Provisional(h, ratio) < t.height + Stride
    ensures t.width <= Provisional(w, ratio) < t.width + Stride
  {
    Target(AlignDown(Provisional(h, ratio)), AlignDown(Provisional(w, ratio)))
  }

  /** The plan of `resizeImage` as written. Within the cap each side keeps its
      size, truncated to a multiple of the stride; above the cap the integer
      ratio is zero and so is every target. */
  function Plan(h: nat, w: nat): (t: Target)
    ensures t.height % Stride == 0 && t.width % Stride == 0
    ensures BiggestDim(h, w) <= MaxSize ==>
              t.height <= h < t.height + Stride && t.width <= w < t.width + Stride
    ensures BiggestDim(h, w) > MaxSize ==> t == Target(0, 0)
  {
    PlanWithRatio(h, w, ScaleRatio(BiggestDim(h, w)))
  }

  /** The plan with the intended exact ratio; the rest of the model states its
      properties alongside those of `Plan`. */
  function PlanIntended(h: nat, w: nat): (t: Target)
    ensures t.height % Stride == 0 && t.width % Stride == 0
    ensures t.height <= MaxSize && t.width <= MaxSize
    ensures t.height <= h && t.width <= w
  {
    var b := BiggestDim(h, w);
    var r := IntendedScaleRatio(b);
    ProvisionalWithinCap(h, b, r);
    ProvisionalWithinCap(w, b, r);
    PlanWithRatio(h, w, r)
  }

  /** Scaling a dimension no larger than the biggest one by the intended ratio
      never exceeds the cap, nor the dimension itself. */
  lemma ProvisionalWithinCap(d: nat, b: nat, r: real)
    requires d <= b && r == IntendedScaleRatio(b)
    ensures Provisional(d, r) <= MaxSize
    ensures Provisional(d, r) <= d
  {
    ProvisionalMonotone(d, b, r);
    ProductMonotone(r, 1.0, d as real);
  }

  /** A larger dimension never gets a smaller provisional size. */
  lemma ProvisionalMonotone(x: nat, y: nat, r: real)
    requires x <= y && r >= 0.0
    ensures Provisional(x, r) <= Provisional(y, r)
  {
    ProductMonotone(x as real, y as real, r);
  }

  /** Multiplying by a non-negative factor preserves order. */
  lemma ProductMonotone(x: real, y: real, c: real)
    requires 0.0 <= x <= y && c >= 0.0
    ensures x * c <= y * c
  {
    assert y * c - x * c == (y - x) * c;
  }

  /** The provisional targets are exactly the source sizes within the cap and
      zero above it: the as-written ratio is always exactly 1 or 0. */
  lemma ProvisionalAsWritten(h: nat, w: nat)
    ensures var r := ScaleRatio(BiggestDim(h, w));
            if BiggestDim(h, w) <= MaxSize then Provisional(h, r) == h && Provisional(w, r) == w
            else Provisional(h, r) == 0 && Provisional(w, r) == 0
  {
  }

  /** Within the cap the plan is the stride alignment of each source size. */
  lemma PlanWithinCap(h: nat, w: nat)
    requires h <= MaxSize && w <= MaxSize
    ensures Plan(h, w) == Target(AlignDown(h), AlignDown(w))
  {
    ProvisionalAsWritten(h, w);
  }

  /** Planning never upsamples: each target is at most its source size. */
  lemma PlanNeverUpsamples(h: nat, w: nat)
    ensures Plan(h, w).height <= h && Plan(h, w).width <= w
  {
  }

  /** A source dimension below one stride yields a zero target on that axis;
      the source does not guard against this degenerate plan. */
  lemma PlanDegenerateBelowStride(h: nat, w: nat)
    ensures h < Stride ==> Plan(h, w).height == 0
    ensures w < Stride ==> Plan(h, w).width == 0
  {
  }

  /** A 1000 x 500 image is planned to 992 x 480. */
  lemma PlanExample()
    ensures Plan(1000, 500) == Target(992, 480)
  {
    PlanWithinCap(1000, 500);
  }

  /** Re-planning an already planned image (within the cap) keeps its size. */
  lemma PlanIdempotentWithinCap(h: nat, w: nat)
    requires h <= MaxSize && w <= MaxSize
    ensures var t := Plan(h, w); Plan(t.height, t.width) == t
  {
    PlanWithinCap(h, w);
    var t := Plan(h, w);
    PlanWithinCap(t.height, t.width);
    AlignDownIdempotent(h);
    AlignDownIdempotent(w);
  }

  /** The achieved ratio target/source that callers use to map detections back
      to the source image. */
  function Ratio(target: nat, source: nat): (r: real)
    requires source > 0
    ensures r >= 0.0
    ensures r * source as real == target as real
  {
    target as real / source as real
  }

  /** Both achieved ratios of a plan lie in [0, 1], and within the cap each
      exceeds 1 - 32/source: alignment loses less than one stride. */
  lemma PlanRatiosBounded(h: nat, w: nat)
    requires h > 0 && w > 0
    ensures 0.0 <= Ratio(Plan(h, w).height, h) <= 1.0
    ensures 0.0 <= Ratio(Plan(h, w).width, w) <= 1.0
    ensures BiggestDim(h, w) <= MaxSize ==>
              Ratio(Plan(h, w).height, h) > 1.0 - Stride as real / h as real &&
              Ratio(Plan(h, w).width, w) > 1.0 - Stride as real / w as real
  {
    var t := Plan(h, w);
    RatioBounds(t.height, h);
    RatioBounds(t.width, w);
  }

  /** A ratio of a target below its source by less than a stride is in
      (1 - 32/source, 1]. */
  lemma RatioBounds(target: nat, source: nat)
    requires source > 0 && target <= source
    ensures Ratio(target, source) <= 1.0
    ensures source < target + Stride ==> Ratio(target, source) > 1.0 - Stride as real / source as real
  {
    var r := Ratio(target, source);
    var s := source as real;
    var slack := 1.0 - r;
    assert slack * s == s - target as real >= 0.0;
    SignOfFactor(slack, s);
    var gap := r - 1.0 + Stride as real / s;
    assert gap * s == target as real - s + Stride as real;
    SignOfFactor(gap, s);
  }

  /** A product with a positive factor has the sign of the other factor. */
  lemma SignOfFactor(x: real, s: real)
    requires s > 0.0
    ensures x * s >= 0.0 ==> x >= 0.0
    ensures x * s > 0.0 ==> x > 0.0
  {
  }

  /** The two achieved ratios need not be equal: for 1000 x 500 they are
      0.992 and 0.96. */
  lemma PlanRatiosMayDiffer()
    ensures Ratio(Plan(1000, 500).height, 1000) == 0.992
    ensures Ratio(Plan(1000, 500).width, 500) == 0.96
  {
    PlanExample();
  }

  /** Above the cap both achieved ratios are zero. */
  lemma PlanRatiosAboveCap(h: nat, w: nat)
    requires h > 0 && w > 0 && BiggestDim(h, w) > MaxSize
    ensures Ratio(Plan(h, w).height, h) == 0.0 && Ratio(Plan(h, w).width, w) == 0.0
  {
  }

  /** With the integer-division ratio, 4800 x 2400 is planned to 0 x 0,
      where the intended plan is 2400 x 1184. */
  lemma PlanAboveCapCounterexample()
    ensures Plan(4800, 2400) == Target(0, 0)
    ensures PlanIntended(4800, 2400) == Target(2400, 1184)
  {
    assert IntendedScaleRatio(4800) == 0.5;
    assert Provisional(2400, 0.5) == 1200;
    assert AlignDown(1200) == 1184;
  }

  /** Within the cap the intended plan and the plan as written agree. */
  lemma PlanIntendedAgreesWithinCap(h: nat, w: nat)
    requires BiggestDim(h, w) <= MaxSize
    ensures PlanIntended(h, w) == Plan(h, w)
  {
  }

  /** Above the cap the intended plan brings the larger side to exactly the
      cap, which is itself a multiple of the stride. */
  lemma PlanIntendedBiggestAtCap(h: nat, w: nat)
    requires BiggestDim(h, w) > MaxSize
    ensures h > w ==> PlanIntended(h, w).height == MaxSize
    ensures h <= w ==> PlanIntended(h, w).width == MaxSize
  {
    var b := BiggestDim(h, w);
    var r := IntendedScaleRatio(b);
    assert Provisional(b, r) == MaxSize;
    AlignDownKeepsMultiples(MaxSize);
  }
}
