/** The service's own enumerations: the formats an image can be decoded from
    (`ImageType`), the formats it can be encoded to (`Output`) and the nine
    anchors that place one rectangle inside another (`Position`). */
module Enums {

  datatype ImageType = Jpeg | Png | Webp | Tiff | Gif | Svg | Pdf | Heif | Magick | Unknown

  datatype Output = Jpeg | Png | Webp | Tiff | Gif

  /** `Centre` is the anchor the placement switch treats as its default. */
  datatype Position =
    | Centre
    | Top
    | Right
    | Bottom
    | Left
    | TopRight
    | BottomRight
    | BottomLeft
    | TopLeft

  /** The image type that an output format encodes: every output format is
      also a decodable image type. */
  function AsImageType(o: Output): (t: ImageType)
    ensures IsOutputType(t)
  {
    match o
    case Jpeg => ImageType.Jpeg
    case Png => ImageType.Png
    case Webp => ImageType.Webp
    case Tiff => ImageType.Tiff
    case Gif => ImageType.Gif
  }

  /** The image types that have an encoder of their own. */
  predicate IsOutputType(t: ImageType) {
    t == ImageType.Jpeg || t == ImageType.Png || t == ImageType.Webp
    || t == ImageType.Tiff || t == ImageType.Gif
  }
}

/** The two libvips enumerations the helpers take: how pixel values are to be
    interpreted, and the fixed rotations. */
module Vips {

  /** `VipsInterpretation`. Only the two 16-bit interpretations are
      distinguished by the helpers; the others are listed for completeness. */
  datatype Interpretation =
    | Error
    | Multiband
    | BW
    | Histogram
    | Xyz
    | Lab
    | Cmyk
    | Labq
    | Rgb
    | Cmc
    | Lch
    | Labs
    | Srgb
    | Yxy
    | Fourier
    | Rgb16
    | Grey16
    | Matrix
    | ScRgb
    | Hsv

  /** `VipsAngle`: clockwise rotation by a multiple of 90 degrees. */
  datatype Angle = D0 | D90 | D180 | D270
}
