/**
 * ThumbnailGenerator: the integer sizing arithmetic behind thumbnail
 * decisions (bitmap byte estimate, the 1 MB threshold) and the power-of-two
 * sample size handed to the bitmap decoder.
 */
module Thumbnails {
  import opened Bitmaps

  /** A Java `int`. */
  type Int32 = x: int | -0x8000_0000 <= x < 0x8000_0000

  /** THUMBNAIL_SIZE_THRESHOLD: 1 MB. */
  const ThumbnailSizeThreshold: int := 1024 * 1024

  /**
   * The value of a Java `int` expression whose mathematical value is `x`:
   * two's-complement wrap-around modulo 2^32. (Wrapping each step of a
   * product gives the same result as wrapping the whole product.)
   */
  function WrapInt32(x: int): (r: Int32)
    ensures (r - x) % 0x1_0000_0000 == 0
    ensures -0x8000_0000 <= x < 0x8000_0000 ==> r == x
  {
    (x + 0x8000_0000) % 0x1_0000_0000 - 0x8000_0000
  }

  /**
   * Java's `/` on `int` for a positive divisor: the quotient truncated toward
   * zero, so the remainder `a - q * b` has the sign of the dividend and is
   * smaller than the divisor in magnitude.
   */
  function JavaDiv(a: int, b: int): (q: int)
    requires b > 0
    ensures a >= 0 ==> q >= 0 && 0 <= a - q * b < b
    ensures a < 0 ==> q <= 0 && -b < a - q * b <= 0
  {
    if a >= 0 then a / b else -((-a) / b)
  }

  /** Truncation is symmetric in the sign of the dividend, unlike Dafny's Euclidean `/`. */
  lemma JavaDivNegates(a: int, b: int)
    requires b > 0
    ensures JavaDiv(-a, b) == -JavaDiv(a, b)
    ensures JavaDiv(-7, 2) == -3 && -7 / 2 == -4
  {
  }

  /** `estimateBitmapSize`: width * height * 4 bytes (ARGB_8888) in `int` arithmetic; 0 for null. */
  function EstimateBitmapSize(b: Bitmap?): (r: Int32)
    ensures b == null ==> r == 0
    ensures b != null && b.width * b.height < 0x2000_0000 ==> r == 4 * (b.width * b.height) && r > 0
  {
    if b == null then 0 else WrapInt32(b.width * b.height * 4)
  }

  /** `needsThumbnail`: the estimate is strictly above the threshold. */
  predicate NeedsThumbnail(b: Bitmap?)
  {
    EstimateBitmapSize(b) > ThumbnailSizeThreshold
  }

  /**
   * For every bitmap whose byte count fits in an `int`, a thumbnail is needed
   * exactly when it has more than 512 * 512 pixels; never for null.
   */
  lemma NeedsThumbnailByPixels(b: Bitmap?)
    requires b != null ==> b.width * b.height < 0x2000_0000
    ensures b == null ==> !NeedsThumbnail(b)
    ensures b != null ==> (NeedsThumbnail(b) <==> b.width * b.height > 512 * 512)
  {
  }

  /**
   * The estimate wraps around like the Java expression: a 32768 x 16384
   * bitmap (2 GiB of pixels) is estimated at Integer.MIN_VALUE bytes and so
   * is judged not to need a thumbnail.
   */
  lemma EstimateWrapsForHugeBitmap(b: Bitmap)
    requires b.width == 32768 && b.height == 16384
    ensures EstimateBitmapSize(b) == -0x8000_0000
    ensures !NeedsThumbnail(b)
  {
    assert b.width * b.height * 4 == 0x8000_0000;
  }

  /** n is 1, 2, 4, 8, ... */
  predicate IsPowerOfTwo(n: int)
    decreases n
  {
    n == 1 || (n >= 2 && n % 2 == 0 && IsPowerOfTwo(n / 2))
  }

  lemma DoublePowerOfTwo(n: int)
    requires IsPowerOfTwo(n)
    ensures IsPowerOfTwo(n * 2) && (n * 2) / 2 == n
  {
  }

  /** The decoder's `BitmapFactory.Options` after a bounds-only decode. */
  datatype Bounds = Bounds(outWidth: Int32, outHeight: Int32)

  lemma QuotientAtLeastOne(a: int, s: int)
    requires s > 0 && JavaDiv(a, s) >= 1
    ensures s <= a
  {
    assert a >= 0;
    assert a / s * s <= a;
    assert 1 * s <= a / s * s;
  }

  /**
   * `calculateInSampleSize`: the largest power of two that keeps both halved
   * dimensions at least the requested ones, doubling from 1. Bounds already
   * within the request give 1 whatever the request. Otherwise a positive
   * requested side is needed: with neither side positive the loop test can
   * hold for every power of two (all-zero requests and positive bounds, for
   * one), and the `int` then doubles until it overflows to 0 and the
   * division throws. The requires keeps those requests out.
   */
  method CalculateInSampleSize(options: Bounds, reqWidth: Int32, reqHeight: Int32)
    returns (inSampleSize: Int32)
    requires reqWidth >= 1 || reqHeight >= 1
             || (options.outHeight <= reqHeight && options.outWidth <= reqWidth)
    ensures IsPowerOfTwo(inSampleSize)
    ensures options.outHeight <= reqHeight && options.outWidth <= reqWidth ==> inSampleSize == 1
    ensures options.outHeight > reqHeight || options.outWidth > reqWidth ==>
              JavaDiv(JavaDiv(options.outHeight, 2), inSampleSize) < reqHeight
              || JavaDiv(JavaDiv(options.outWidth, 2), inSampleSize) < reqWidth
    ensures inSampleSize > 1 ==>
              JavaDiv(JavaDiv(options.outHeight, 2), inSampleSize / 2) >= reqHeight
              && JavaDiv(JavaDiv(options.outWidth, 2), inSampleSize / 2) >= reqWidth
  {
    var height := options.outHeight;
    var width := options.outWidth;
    inSampleSize := 1;

    if height > reqHeight || width > reqWidth {
      var halfHeight := JavaDiv(height, 2);
      var halfWidth := JavaDiv(width, 2);

      while JavaDiv(halfHeight, inSampleSize) >= reqHeight && JavaDiv(halfWidth, inSampleSize) >= reqWidth
        invariant IsPowerOfTwo(inSampleSize)
        invariant inSampleSize > 1 ==>
                    JavaDiv(halfHeight, inSampleSize / 2) >= reqHeight
                    && JavaDiv(halfWidth, inSampleSize / 2) >= reqWidth
        decreases 0x4000_0000 - inSampleSize
      {
        if reqHeight >= 1 {
          QuotientAtLeastOne(halfHeight, inSampleSize);
        } else {
          QuotientAtLeastOne(halfWidth, inSampleSize);
        }
        DoublePowerOfTwo(inSampleSize);
        inSampleSize := inSampleSize * 2;
      }
    }
  }
}
