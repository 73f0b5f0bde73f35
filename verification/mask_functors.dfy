/**
 The four per-pixel mask functors: `CreatePixelMask`, `ApplyPixelMask`,
 `CopyPixelMask` and `MaskToAlpha`.  Each functor object is modelled as a
 pure function whose first parameters are the functor's configuration (the
 no-data or fill value) and whose last parameter is the pixel it is applied
 to.  The transparency predicate `is_transparent` of a pixel type is passed
 in as a function, since it belongs to the pixel type and not to the views.
 */
module MaskFunctors {
  import opened PixelMasks

  /**
   `CreatePixelMask(nodata)(value)`: the pixel is masked out exactly when it
   equals the no-data value; a masked-out pixel is the default mask pixel.
   */
  function CreateMask<T(==)>(nodata: T, dflt: T, value: T): (r: PixelMask<T>)
    ensures r.valid <==> value != nodata
    ensures r.valid ==> r.child == value
    ensures !r.valid ==> r == InvalidPixel(dflt)
  {
    if value == nodata then InvalidPixel(dflt) else ValidPixel(value)
  }

  /**
   `ApplyPixelMask(fill)(m)`: the child of a valid pixel, the fill value for
   an invalid one.
   */
  function ApplyMask<T>(fill: T, m: PixelMask<T>): (r: T)
    ensures m.valid ==> r == m.child
    ensures !m.valid ==> r == fill
  {
    if m.valid then m.child else fill
  }

  /**
   `CopyPixelMask()(value, mask)` for an unmasked pixel type: the value is
   promoted to a valid mask pixel, then invalidated when the reference pixel
   is transparent.  The value is carried in either case.
   */
  function CopyMask<T, M>(value: T, mask: M, transparent: M -> bool): (r: PixelMask<T>)
    ensures r.child == value
    ensures r.valid <==> !transparent(mask)
  {
    var result := ValidPixel(value);
    if transparent(mask) then Invalidate(result) else result
  }

  /**
   `CopyPixelMask()(value, mask)` for a pixel type that is already a mask
   pixel: the value keeps its own validity and is additionally invalidated
   when the reference pixel is transparent.
   */
  function CopyMaskOnto<T, M>(value: PixelMask<T>, mask: M, transparent: M -> bool): (r: PixelMask<T>)
    ensures r.child == value.child
    ensures r.valid <==> value.valid && !transparent(mask)
  {
    var result := value;
    if transparent(mask) then Invalidate(result) else result
  }

  /**
   `MaskToAlpha()(pixel)`: a transparent pixel becomes the default
   (fully transparent) alpha pixel; any other pixel becomes its child at
   full opacity.
   */
  function MaskToAlpha<T>(dflt: T, pixel: PixelMask<T>, transparent: PixelMask<T> -> bool): (r: AlphaPixel<T>)
    ensures AlphaTransparent(r) <==> transparent(pixel)
    ensures transparent(pixel) ==> r.color == dflt
    ensures !transparent(pixel) ==> r.color == pixel.child
  {
    if transparent(pixel) then AlphaPixel(dflt, Transparent) else AlphaPixel(pixel.child, Opaque)
  }

  // ---------------------------------------------------------------------
  // Relations between the functors

  /**
   Applying the mask with the no-data value as fill undoes `create_mask`
   on every pixel, the no-data pixel included.
   */
  lemma ApplyUndoesCreate<T>(nodata: T, dflt: T, p: T)
    ensures ApplyMask(nodata, CreateMask(nodata, dflt, p)) == p
  {
  }

  /** Off the no-data value the fill is never used: any fill gives back the pixel. */
  lemma ApplyCreateIgnoresFill<T>(nodata: T, dflt: T, fill: T, p: T)
    requires p != nodata
    ensures ApplyMask(fill, CreateMask(nodata, dflt, p)) == p
  {
  }

  /**
   The other direction of the round trip: `create_mask` after `apply_mask`
   with the no-data value as fill restores the mask pixel exactly when that
   pixel is a valid pixel off the no-data value or the default invalid pixel.
   */
  lemma CreateAfterApply<T>(nodata: T, dflt: T, m: PixelMask<T>)
    ensures CreateMask(nodata, dflt, ApplyMask(nodata, m)) == m
        <==> (m.valid && m.child != nodata) || m == InvalidPixel(dflt)
  {
  }

  /**
   Copying the mask of a `create_mask` image carries over exactly its
   validity: the copy is valid iff the reference pixel is not the no-data
   value, whatever the value the mask is copied onto.
   */
  lemma CopyMaskOfCreatedMask<T, U>(value: U, nodata: T, dflt: T, p: T)
    ensures CopyMask(value, CreateMask(nodata, dflt, p), MaskTransparent).valid <==> p != nodata
    ensures CopyMask(value, CreateMask(nodata, dflt, p), MaskTransparent).child == value
  {
  }

  /** A mask pixel copying its own mask is left unchanged, and copying a mask twice is copying it once. */
  lemma CopyMaskOntoIdempotent<T, M>(m: PixelMask<T>, mask: M, transparent: M -> bool)
    ensures CopyMaskOnto(m, m, MaskTransparent) == m
    ensures CopyMaskOnto(CopyMaskOnto(m, mask, transparent), mask, transparent)
         == CopyMaskOnto(m, mask, transparent)
  {
  }

  /**
   Applying a copied mask gives back the value wherever the reference is
   opaque and the fill wherever it is transparent.
   */
  lemma ApplyCopiedMask<T, M>(fill: T, value: T, mask: M, transparent: M -> bool)
    ensures ApplyMask(fill, CopyMask(value, mask, transparent))
         == (if transparent(mask) then fill else value)
  {
  }

  /**
   For any transparency predicate under which invalid mask pixels are
   transparent, an invalid pixel becomes the fully transparent default
   alpha pixel.
   */
  lemma InvalidBecomesTransparent<T>(dflt: T, m: PixelMask<T>, transparent: PixelMask<T> -> bool)
    requires forall q: PixelMask<T> :: !q.valid ==> transparent(q)
    requires !m.valid
    ensures MaskToAlpha(dflt, m, transparent) == AlphaPixel(dflt, Transparent)
  {
  }

  /**
   With the mask pixel's own transparency, `mask_to_alpha` is opaque
   exactly on valid pixels, and its colour channels are what `apply_mask`
   with the default fill produces.
   */
  lemma MaskToAlphaMatchesApply<T>(dflt: T, m: PixelMask<T>)
    ensures MaskToAlpha(dflt, m, MaskTransparent).alpha == Opaque <==> m.valid
    ensures MaskToAlpha(dflt, m, MaskTransparent).color == ApplyMask(dflt, m)
  {
  }

  /** `mask_to_alpha` after `create_mask` is transparent exactly on the no-data pixels. */
  lemma AlphaOfCreatedMask<T>(nodata: T, dflt: T, p: T)
    ensures AlphaTransparent(MaskToAlpha(dflt, CreateMask(nodata, dflt, p), MaskTransparent)) <==> p == nodata
    ensures p != nodata ==> MaskToAlpha(dflt, CreateMask(nodata, dflt, p), MaskTransparent) == AlphaPixel(p, Opaque)
  {
  }
}
