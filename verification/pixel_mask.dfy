/**
 Pixel types the mask views work with.

 `PixelMask<T>` wraps an underlying pixel with a validity flag.  A
 default-constructed mask pixel is invalid; it is assumed to carry the
 default underlying pixel as its child, which the mask views never read.

 `AlphaPixel<T>` is an underlying pixel augmented with an alpha channel.
 The channel is modelled as two levels, zero and full opacity, on the
 assumption that these are the levels the pixel-with-alpha constructors
 give the results of `mask_to_alpha`.

 The default-constructed underlying pixel (`T()` in the library) has no
 counterpart in Dafny's generic types, so every operation that needs it
 takes it as an explicit parameter, conventionally named `dflt`.
 */
module PixelMasks {

  /** A pixel together with a validity flag. */
  datatype PixelMask<T> = PixelMask(valid: bool, child: T)

  /** The pixel `PixelMask<T>(value)`: a valid pixel carrying `value`. */
  function ValidPixel<T>(value: T): PixelMask<T> {
    PixelMask(true, value)
  }

  /** The default-constructed pixel `PixelMask<T>()`: invalid, carrying the default child. */
  function InvalidPixel<T>(dflt: T): PixelMask<T> {
    PixelMask(false, dflt)
  }

  /** `invalidate()`: clears the validity flag and keeps the child. */
  function Invalidate<T>(m: PixelMask<T>): PixelMask<T> {
    m.(valid := false)
  }

  /**
   Transparency of a mask pixel, the instance of `is_transparent` for
   `PixelMask`: a mask pixel is transparent exactly when it is invalid.
   */
  predicate MaskTransparent<T>(m: PixelMask<T>) {
    !m.valid
  }

  /** The two alpha levels the mask views produce. */
  datatype Alpha = Transparent | Opaque

  /** A pixel with an alpha channel. */
  datatype AlphaPixel<T> = AlphaPixel(color: T, alpha: Alpha)

  /** Transparency of an alpha pixel: its alpha channel is zero. */
  predicate AlphaTransparent<T>(a: AlphaPixel<T>) {
    a.alpha == Transparent
  }
}
