/**
 * Pixel differencing between two RGBA canvas buffers, as the auto-capture
 * poll does it: a pixel counts as changed when its red, green or blue byte
 * moved by more than a fixed noise tolerance; the alpha byte is ignored.
 */
module FrameDiff {

  /** One element of a `Uint8ClampedArray`. */
  type Byte = x: int | 0 <= x < 256

  /** Canvas image data stores every pixel as four bytes: R, G, B, A. */
  const BytesPerPixel: nat := 4

  /** Largest per-channel change that is still treated as noise. */
  const NoiseTolerance: nat := 5

  function Abs(x: int): nat
  {
    if x < 0 then -x else x
  }

  /**
   * Byte `k` of `curr` differs from byte `k` of `ref` by more than the
   * tolerance. Reading a typed array past its end yields `undefined`, the
   * subtraction then yields NaN and the comparison `NaN > 5` is false, so a
   * byte that one of the buffers lacks never counts as different.
   */
  predicate ChannelDiffers(curr: seq<Byte>, ref: seq<Byte>, k: nat)
  {
    k < |curr| && k < |ref| && Abs(curr[k] as int - ref[k] as int) > NoiseTolerance
  }

  /** Pixel `i` changed in its red, green or blue channel. */
  predicate PixelDiffers(curr: seq<Byte>, ref: seq<Byte>, i: nat)
  {
    ChannelDiffers(curr, ref, i * 4) ||
    ChannelDiffers(curr, ref, i * 4 + 1) ||
    ChannelDiffers(curr, ref, i * 4 + 2)
  }

  /** The number of changed pixels among the first `n`. */
  function DiffCount(curr: seq<Byte>, ref: seq<Byte>, n: nat): (r: nat)
    ensures r <= n
  {
    if n == 0 then 0
    else DiffCount(curr, ref, n - 1) + (if PixelDiffers(curr, ref, n - 1) then 1 else 0)
  }

  /** The changed pixels among the first `n`, as a set of pixel indices. */
  ghost function DifferingPixels(curr: seq<Byte>, ref: seq<Byte>, n: nat): set<nat>
  {
    set i: nat | i < n && PixelDiffers(curr, ref, i)
  }

  /** The percentage `diff / w / h * 100`, in exact arithmetic. */
  function Rate(diff: nat, w: nat, h: nat): real
    requires w > 0 && h > 0
  {
    diff as real / w as real / h as real * 100.0
  }

  /** The two nested loops of one poll: count the changed pixels among the first `n`. */
  method CountDiff(curr: seq<Byte>, ref: seq<Byte>, n: nat) returns (diff: nat)
    ensures diff == DiffCount(curr, ref, n)
  {
    diff := 0;
    var i := 0;
    while i < n
      invariant i <= n
      invariant diff == DiffCount(curr, ref, i)
    {
      if ChannelDiffers(curr, ref, i * 4) ||
         ChannelDiffers(curr, ref, i * 4 + 1) ||
         ChannelDiffers(curr, ref, i * 4 + 2)
      {
        diff := diff + 1;
      }
      i := i + 1;
    }
  }

  /** The count is exactly the number of pixels that `PixelDiffers` selects. */
  lemma {:induction false} DiffCountIsSetSize(curr: seq<Byte>, ref: seq<Byte>, n: nat)
    ensures DiffCount(curr, ref, n) == |DifferingPixels(curr, ref, n)|
  {
    if n > 0 {
      DiffCountIsSetSize(curr, ref, n - 1);
      var before := DifferingPixels(curr, ref, n - 1);
      assert n - 1 !in before;
      if PixelDiffers(curr, ref, n - 1) {
        assert DifferingPixels(curr, ref, n) == before + {n - 1};
      } else {
        assert DifferingPixels(curr, ref, n) == before;
      }
    }
  }

  /** No pixel is counted exactly when none of the first `n` changed. */
  lemma {:induction false} DiffCountZeroIff(curr: seq<Byte>, ref: seq<Byte>, n: nat)
    ensures DiffCount(curr, ref, n) == 0 <==> forall i | 0 <= i < n :: !PixelDiffers(curr, ref, i)
  {
    if n > 0 {
      DiffCountZeroIff(curr, ref, n - 1);
    }
  }

  /** Every pixel is counted exactly when all of the first `n` changed. */
  lemma {:induction false} DiffCountFullIff(curr: seq<Byte>, ref: seq<Byte>, n: nat)
    ensures DiffCount(curr, ref, n) == n <==> forall i | 0 <= i < n :: PixelDiffers(curr, ref, i)
  {
    if n > 0 {
      DiffCountFullIff(curr, ref, n - 1);
    }
  }

  /** A buffer compared with itself has no changed pixel. */
  lemma {:induction false} DiffCountSelf(frame: seq<Byte>, n: nat)
    ensures DiffCount(frame, frame, n) == 0
  {
    DiffCountZeroIff(frame, frame, n);
  }

  /** The test is symmetric: which buffer is the reference does not matter. */
  lemma {:induction false} DiffCountSymmetric(a: seq<Byte>, b: seq<Byte>, n: nat)
    ensures DiffCount(a, b, n) == DiffCount(b, a, n)
  {
    if n > 0 {
      DiffCountSymmetric(a, b, n - 1);
      assert PixelDiffers(a, b, n - 1) == PixelDiffers(b, a, n - 1);
    }
  }

  /**
   * Pixels past the end of a shorter buffer never count, so such a buffer
   * (a baseline taken from a smaller region) caps the count at its own size.
   */
  lemma {:induction false} DiffCountPastShorterBuffer(curr: seq<Byte>, ref: seq<Byte>, n: nat, m: nat)
    requires m <= n && |ref| <= m * 4
    ensures DiffCount(curr, ref, n) == DiffCount(curr, ref, m)
  {
    if n > m {
      DiffCountPastShorterBuffer(curr, ref, n - 1, m);
      assert !PixelDiffers(curr, ref, n - 1);
    }
  }

  /** `a` and `b` have the same length and agree on every R, G and B byte. */
  ghost predicate SameColours(a: seq<Byte>, b: seq<Byte>)
  {
    |a| == |b| && forall k | 0 <= k < |a| && k % 4 != 3 :: a[k] == b[k]
  }

  /** The alpha byte at `i * 4 + 3` never affects the count, on either side. */
  lemma {:induction false} DiffCountIgnoresAlpha(curr: seq<Byte>, curr': seq<Byte>, ref: seq<Byte>, ref': seq<Byte>, n: nat)
    requires SameColours(curr, curr') && SameColours(ref, ref')
    ensures DiffCount(curr, ref, n) == DiffCount(curr', ref', n)
  {
    if n > 0 {
      DiffCountIgnoresAlpha(curr, curr', ref, ref', n - 1);
      var i := n - 1;
      assert (i * 4) % 4 == 0 && (i * 4 + 1) % 4 == 1 && (i * 4 + 2) % 4 == 2;
      assert PixelDiffers(curr, ref, i) == PixelDiffers(curr', ref', i);
    }
  }

  /**
   * Changes within the tolerance, a delta of exactly 5 included, are noise:
   * if no R, G or B byte moved by more than 5, nothing is counted.
   */
  lemma {:induction false} DiffCountWithinTolerance(curr: seq<Byte>, ref: seq<Byte>, n: nat)
    requires |curr| == |ref|
    requires forall k | 0 <= k < |curr| && k % 4 != 3 :: Abs(curr[k] as int - ref[k] as int) <= NoiseTolerance
    ensures DiffCount(curr, ref, n) == 0
  {
    forall i | 0 <= i < n
      ensures !PixelDiffers(curr, ref, i)
    {
      assert (i * 4) % 4 == 0 && (i * 4 + 1) % 4 == 1 && (i * 4 + 2) % 4 == 2;
    }
    DiffCountZeroIff(curr, ref, n);
  }

  /** A single pixel: it is counted iff one of its R, G, B deltas exceeds 5. */
  lemma OnePixel(curr: seq<Byte>, ref: seq<Byte>)
    requires |curr| == BytesPerPixel && |ref| == BytesPerPixel
    ensures DiffCount(curr, ref, 1) == 1 <==>
      Abs(curr[0] as int - ref[0] as int) > 5 || Abs(curr[1] as int - ref[1] as int) > 5 || Abs(curr[2] as int - ref[2] as int) > 5
  {
  }

  /** The percentage lies between 0 and 100 whenever the count is at most `w * h`. */
  lemma RateBounds(diff: nat, w: nat, h: nat)
    requires w > 0 && h > 0 && diff <= w * h
    ensures 0.0 <= Rate(diff, w, h) <= 100.0
  {
  }

  /** `diff / w / h * 100` equals `diff * 100 / (w * h)`. */
  lemma RateIsFraction(diff: nat, w: nat, h: nat)
    requires w > 0 && h > 0
    ensures Rate(diff, w, h) == (diff as real) * 100.0 / ((w * h) as real)
  {
  }

  /** The percentage is 0 exactly when no pixel is counted, and 100 when all are. */
  lemma RateExtremes(diff: nat, w: nat, h: nat)
    requires w > 0 && h > 0
    ensures Rate(diff, w, h) == 0.0 <==> diff == 0
    ensures diff == w * h ==> Rate(diff, w, h) == 100.0
  {
    RateIsFraction(diff, w, h);
    if diff == w * h {
      assert (diff as real) * 100.0 / ((w * h) as real) == 100.0;
    }
  }

  /** Comparing the count against a percentage threshold, without division. */
  lemma RateAtMost(diff: nat, w: nat, h: nat, threshold: real)
    requires w > 0 && h > 0
    ensures Rate(diff, w, h) <= threshold <==> (diff as real) * 100.0 <= threshold * (w * h) as real
  {
  }
}
