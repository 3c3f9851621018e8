/** Stride alignment of a provisional target size: the detector network needs
    every spatial dimension to be a multiple of its stride (32), so a size that
    is not one is truncated down to the nearest multiple. */
module Alignment {

  /** The alignment unit of the detector's spatial dimensions. */
  const Stride: nat := 32

  /** Reference definition, independent of division: the largest multiple of
      the stride that does not exceed `p`, found by peeling off one stride at a
      time. */
  function FloorMultiple(p: nat): (m: nat)
  {
    if p < Stride then 0 else Stride + FloorMultiple(p - Stride)
  }

  /** The alignment step of `resizeImage`: a size already divisible by the
      stride is kept, any other is divided by the stride (unsigned integer
      division, which truncates) and multiplied back. */
  function AlignDown(p: nat): (t: nat)
    ensures t % Stride == 0
    ensures t <= p && p - t < Stride
  {
    if p % Stride != 0 then (p / Stride) * Stride else p
  }

  /** A size that is already a multiple of the stride is left unchanged. */
  lemma AlignDownKeepsMultiples(p: nat)
    requires p % Stride == 0
    ensures AlignDown(p) == p
  {
  }

  /** Aligning twice is the same as aligning once. */
  lemma AlignDownIdempotent(p: nat)
    ensures AlignDown(AlignDown(p)) == AlignDown(p)
  {
    AlignDownKeepsMultiples(AlignDown(p));
  }

  /** Alignment rounds down to the GREATEST multiple of the stride not above
      `p`: every other such multiple is at most the result. */
  lemma AlignDownIsGreatest(p: nat, m: nat)
    requires m % Stride == 0 && m <= p
    ensures m <= AlignDown(p)
  {
  }

  /** A size below one stride aligns to zero. */
  lemma AlignDownBelowStride(p: nat)
    requires p < Stride
    ensures AlignDown(p) == 0
  {
  }

  /** The division-based alignment agrees with the reference definition. */
  lemma {:induction false} AlignDownIsFloorMultiple(p: nat)
    ensures AlignDown(p) == FloorMultiple(p)
  {
    if p >= Stride {
      AlignDownIsFloorMultiple(p - Stride);
      assert AlignDown(p) == Stride + AlignDown(p - Stride) by {
        AlignDownShift(p - Stride);
      }
    }
  }

  /** Adding one stride to the input adds one stride to the aligned size. */
  lemma AlignDownShift(q: nat)
    ensures AlignDown(q + Stride) == AlignDown(q) + Stride
  {
    var t := AlignDown(q);
    var u := AlignDown(q + Stride);
    AlignDownIsGreatest(q + Stride, t + Stride);
    AlignDownIsGreatest(q, u - Stride);
  }
}
