/**
 * calculateInSampleSize, which both PdfViewModel and PdfGenerator declare with
 * the same text and call with the same bounds (width 1080, height 1920).
 */
module SampleSize {

  /** The width bound both decoders pass. */
  const ReqWidth: int := 1080
  /** The height bound both decoders pass. */
  const ReqHeight: int := 1920

  /** Kotlin's `Int / Int`: rounds toward zero (Dafny's `/` is Euclidean). */
  function TruncDiv(a: int, b: int): (q: int)
    requires b > 0
    ensures 0 <= a ==> 0 <= q && q * b <= a < q * b + b
    ensures a < 0 ==> q <= 0 && q * b - b < a <= q * b
  {
    if a >= 0 then a / b else -((-a) / b)
  }

  /**
   * The downsample factor for an image whose bounds-only probe reported
   * outHeight x outWidth: 1 when both fit their bounds, otherwise the smaller
   * of the two truncated ratios, with no lower clamp. Over a bound, for
   * non-negative dimensions, the factor is the largest integer s with
   * s * reqH <= outHeight and s * reqW <= outWidth: it never shrinks a
   * dimension below its bound, and one more step would.
   */
  function InSampleSize(outHeight: int, outWidth: int, reqW: int, reqH: int): (s: int)
    requires reqW > 0 && reqH > 0
    ensures outHeight <= reqH && outWidth <= reqW ==> s == 1
    ensures (outHeight > reqH || outWidth > reqW) && 0 <= outHeight && 0 <= outWidth ==>
      && 0 <= s
      && s * reqH <= outHeight && s * reqW <= outWidth
      && (outHeight < (s + 1) * reqH || outWidth < (s + 1) * reqW)
  {
    if outHeight > reqH || outWidth > reqW then
      var byHeight := TruncDiv(outHeight, reqH);
      var byWidth := TruncDiv(outWidth, reqW);
      if byHeight <= byWidth then byHeight else byWidth
    else
      1
  }

  /**
   * There is no clamp to 1: for non-negative dimensions the factor is 0
   * exactly when one dimension exceeds its bound while the other is below its
   * own.
   */
  lemma ZeroFactorIff(h: int, w: int, reqW: int, reqH: int)
    requires reqW > 0 && reqH > 0
    requires 0 <= h && 0 <= w
    ensures InSampleSize(h, w, reqW, reqH) == 0
        <==> (h > reqH || w > reqW) && (h < reqH || w < reqW)
  {
  }

  /** A 800 x 3000 (width x height) photo gets factor min(3000/1920, 800/1080) = 0. */
  lemma TallNarrowImageGetsZero()
    ensures InSampleSize(3000, 800, ReqWidth, ReqHeight) == 0
  {
  }

  /**
   * Taking the minimum lets a decoded image stay over a bound: a 4000 x 3000
   * (width x height) photo gets factor min(3000/1920, 4000/1080) = 1, so it is
   * decoded at 4000 pixels wide, above the 1080 width bound.
   */
  lemma WideImageStaysOverWidthBound()
    ensures InSampleSize(3000, 4000, ReqWidth, ReqHeight) == 1
  {
  }

  /** Negative probe results (a header BitmapFactory could not read) count as within bounds. */
  lemma FailedProbeIsOne()
    ensures InSampleSize(-1, -1, ReqWidth, ReqHeight) == 1
  {
  }
}
