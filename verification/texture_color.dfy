/** The colour operations the texture codecs rely on. `TextureColor`'s
    representation and its conversions are not part of this model, so a codec
    receives them as an uninterpreted bundle of functions over a colour type `C`. */
module TextureColors {
  import opened BinaryStream

  /** The interpolation weights `GetCmprPalette` passes to `TextureColor.Lerp`. */
  datatype Weight = OneThird | TwoThirds | OneHalf

  datatype ColorOps<!C> = ColorOps(
    fromRGB565: uint16 -> C,        // TextureColor.FromRGB565
    toRGB565: C -> uint16,          // TextureColor.ToRGB565
    lerp: (C, C, Weight) -> C,      // TextureColor.Lerp
    fromRaw: uint32 -> C            // new TextureColor(uint)
  )
}
