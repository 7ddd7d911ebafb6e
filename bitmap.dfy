/**
 * android.graphics.Bitmap as the application uses it: an object with fixed
 * dimensions whose pixel memory can be released once with `recycle()`.
 * Identity matters (the viewer compares bitmaps with `!=`), so it is a class.
 */
module Bitmaps {

  /** A width or height of a decoded bitmap: a positive Java `int`. */
  type Dimension = x: int | 0 < x < 0x8000_0000 witness 1

  class Bitmap {
    const width: Dimension
    const height: Dimension
    /** `isRecycled()`. */
    var recycled: bool

    constructor (w: Dimension, h: Dimension)
      ensures width == w && height == h && !recycled
    {
      width, height := w, h;
      recycled := false;
    }

    /** `recycle()`: releases the pixels; a second call has no further effect. */
    method Recycle()
      modifies this
      ensures recycled
    {
      recycled := true;
    }
  }
}
