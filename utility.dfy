/** The helper library the image pipeline relies on: sample depth and alpha
    maximum of an interpretation, the rotation for an angle, the format
    tables (extension, output fallback, identifier, alpha support), the
    classification of a libvips loader class name, the placement of one
    rectangle inside another, checked 32-bit multiplication, and the escaping
    of a string for a JSON message. */
module Utility {

  import opened CInt
  import opened Enums
  import opened Vips

  datatype Option<T> = None | Some(value: T)

  /* ----------------------------------------------------------------------
     Sample depth and alpha maximum
     ---------------------------------------------------------------------- */

  /** Are the pixel values of an image with this interpretation 16-bit
      integers? */
  function Is16Bit(interpretation: Interpretation): bool {
    interpretation == Rgb16 || interpretation == Grey16
  }

  /** The largest alpha value for an image with this interpretation: the
      largest unsigned 16-bit sample for the two 16-bit interpretations, the
      largest unsigned 8-bit sample for every other one (scRGB included,
      whose alpha is 0 - 255 although its colour data is 0 - 1). */
  function MaximumImageAlpha(interpretation: Interpretation): (r: int)
    ensures r == 0xFFFF <==> (interpretation == Rgb16 || interpretation == Grey16)
    ensures r == 0xFF <==> !(interpretation == Rgb16 || interpretation == Grey16)
  {
    if Is16Bit(interpretation) then 65535 else 255
  }

  /* ----------------------------------------------------------------------
     Rotation
     ---------------------------------------------------------------------- */

  /** The clockwise rotation, in degrees, that a `VipsAngle` stands for. */
  function AngleDegrees(a: Angle): (d: int)
    ensures 0 <= d < 360 && d % 90 == 0
  {
    match a
    case D0 => 0
    case D90 => 90
    case D180 => 180
    case D270 => 270
  }

  /** The rotation for an angle. Its callers pass a non-negative multiple of
      90 below 360; every angle other than 90, 180 and 270 gives no rotation. */
  function ResolveAngleRotation(angle: Int32): (r: Angle)
    ensures (angle == 90 || angle == 180 || angle == 270) ==> AngleDegrees(r) == angle
    ensures !(angle == 90 || angle == 180 || angle == 270) ==> r == D0
  {
    if angle == 90 then D90
    else if angle == 180 then D180
    else if angle == 270 then D270
    else D0
  }

  /** Resolving the degrees of a rotation gives that rotation back. */
  lemma ResolveAngleRotationInvertsDegrees(a: Angle)
    ensures ResolveAngleRotation(AngleDegrees(a)) == a
  {
  }

  /* ----------------------------------------------------------------------
     Format tables
     ---------------------------------------------------------------------- */

  /** The identifier of an image type, as reported in the `format` field of
      the metadata report. */
  function ImageTypeId(t: ImageType): (id: string)
    ensures id == "unknown" <==> t == ImageType.Unknown
    ensures |id| >= 3
  {
    match t
    case Jpeg => "jpeg"
    case Png => "png"
    case Webp => "webp"
    case Tiff => "tiff"
    case Gif => "gif"
    case Svg => "svg"
    case Pdf => "pdf"
    case Heif => "heif"
    case Magick => "magick"
    case Unknown => "unknown"
  }

  /** No two image types share an identifier. */
  lemma ImageTypeIdInjective(t1: ImageType, t2: ImageType)
    ensures ImageTypeId(t1) == ImageTypeId(t2) ==> t1 == t2
  {
  }

  /** The file extension handed to the save operation of an output format:
      a dot and the format's identifier, except that JPEG is saved as ".jpg". */
  function DetermineImageExtension(output: Output): (ext: string)
    ensures output != Output.Jpeg ==> ext == "." + ImageTypeId(AsImageType(output))
    ensures output == Output.Jpeg ==> ext == ".jpg"
  {
    match output
    case Jpeg => ".jpg"
    case Webp => ".webp"
    case Tiff => ".tiff"
    case Gif => ".gif"
    case Png => ".png"
  }

  /** Each output format has an extension of its own, and ".png" is PNG's. */
  lemma DetermineImageExtensionInjective(o1: Output, o2: Output)
    ensures DetermineImageExtension(o1) == DetermineImageExtension(o2) ==> o1 == o2
    ensures DetermineImageExtension(o1) == ".png" <==> o1 == Output.Png
  {
  }

  /** The output format an image of a given type is encoded to when no format
      is requested: its own format when it has an encoder, PNG otherwise. */
  function ToOutput(t: ImageType): (o: Output)
    ensures IsOutputType(t) ==> AsImageType(o) == t
    ensures !IsOutputType(t) ==> o == Output.Png
  {
    match t
    case Jpeg => Output.Jpeg
    case Webp => Output.Webp
    case Tiff => Output.Tiff
    case Gif => Output.Gif
    case _ => Output.Png
  }

  /** Encoding an output format's own type selects that format again. */
  lemma ToOutputRetractsAsImageType(o: Output)
    ensures ToOutput(AsImageType(o)) == o
  {
  }

  /** Can an image of this type carry an alpha channel? */
  function SupportAlphaChannel(t: ImageType): bool {
    t == ImageType.Png || t == ImageType.Webp || t == ImageType.Tiff || t == ImageType.Gif
  }

  /** The types that support alpha are exactly the encodable ones other than
      JPEG, and every type without an encoder falls back to a format that
      supports alpha. */
  lemma SupportAlphaChannelAndOutput(t: ImageType)
    ensures SupportAlphaChannel(t) <==> IsOutputType(t) && t != ImageType.Jpeg
    ensures SupportAlphaChannel(t) ==> AsImageType(ToOutput(t)) == t
    ensures !IsOutputType(t) ==> SupportAlphaChannel(AsImageType(ToOutput(t)))
  {
  }

  /* ----------------------------------------------------------------------
     Loader class names
     ---------------------------------------------------------------------- */

  /** `s.rfind(p, 0) == 0`: the only position `rfind` may report when starting
      from 0 is 0 itself, which it reports exactly when `s` begins with `p`. */
  predicate StartsWith(s: string, p: string) {
    |p| <= |s| && s[..|p|] == p
  }

  /** The prefix of the class names of the libvips load operations that
      produce an image of the given type. */
  function LoaderPrefix(t: ImageType): (p: string)
    requires t != ImageType.Unknown
    ensures |p| >= 18 && p[..15] == "VipsForeignLoad"
  {
    match t
    case Jpeg => "VipsForeignLoadJpeg"
    case Png => "VipsForeignLoadPng"
    case Webp => "VipsForeignLoadWebp"
    case Tiff => "VipsForeignLoadTiff"
    case Gif => "VipsForeignLoadGif"
    case Svg => "VipsForeignLoadSvg"
    case Pdf => "VipsForeignLoadPdf"
    case Heif => "VipsForeignLoadHeif"
    case Magick => "VipsForeignLoadMagick"
  }

  /** The image type of the name of a load operation. */
  function DetermineImageType(loader: string): ImageType {
    if StartsWith(loader, "VipsForeignLoadJpeg") then ImageType.Jpeg
    else if StartsWith(loader, "VipsForeignLoadPng") then ImageType.Png
    else if StartsWith(loader, "VipsForeignLoadWebp") then ImageType.Webp
    else if StartsWith(loader, "VipsForeignLoadTiff") then ImageType.Tiff
    else if StartsWith(loader, "VipsForeignLoadGif") then ImageType.Gif
    else if StartsWith(loader, "VipsForeignLoadSvg") then ImageType.Svg
    else if StartsWith(loader, "VipsForeignLoadPdf") then ImageType.Pdf
    else if StartsWith(loader, "VipsForeignLoadHeif") then ImageType.Heif
    else if StartsWith(loader, "VipsForeignLoadMagick") then ImageType.Magick
    else ImageType.Unknown
  }

  /** Does the load operation of this name support multiple pages? */
  function ImageLoaderSupportsPage(loader: string): bool {
    StartsWith(loader, "VipsForeignLoadPdf")
    || StartsWith(loader, "VipsForeignLoadGif")
    || StartsWith(loader, "VipsForeignLoadTiff")
    || StartsWith(loader, "VipsForeignLoadWebp")
    || StartsWith(loader, "VipsForeignLoadHeif")
    || StartsWith(loader, "VipsForeignLoadMagick")
  }

  /** The characters at which the loader prefixes part company: the first
      two after "VipsForeignLoad". */
  function PrefixKey(t: ImageType): (char, char)
    requires t != ImageType.Unknown
  {
    (LoaderPrefix(t)[15], LoaderPrefix(t)[16])
  }

  /** No name starts with the prefixes of two different image types, so the
      order of the tests in `DetermineImageType` does not matter. */
  lemma {:induction false} LoaderPrefixesExclusive(loader: string, t1: ImageType, t2: ImageType)
    requires t1 != ImageType.Unknown && t2 != ImageType.Unknown
    requires StartsWith(loader, LoaderPrefix(t1)) && StartsWith(loader, LoaderPrefix(t2))
    ensures t1 == t2
  {
    var p1, p2 := LoaderPrefix(t1), LoaderPrefix(t2);
    assert p1[15] == loader[..|p1|][15] == loader[15];
    assert p2[15] == loader[..|p2|][15] == loader[15];
    assert p1[16] == loader[..|p1|][16] == loader[16];
    assert p2[16] == loader[..|p2|][16] == loader[16];
    assert PrefixKey(t1) == PrefixKey(t2);
  }

  /** A load operation is classified as the type whose prefix its name starts
      with, and as Unknown exactly when no prefix matches. */
  lemma {:induction false} DetermineImageTypeMatchesPrefix(loader: string, t: ImageType)
    requires t != ImageType.Unknown
    ensures DetermineImageType(loader) == t <==> StartsWith(loader, LoaderPrefix(t))
    ensures DetermineImageType(loader) == ImageType.Unknown ==> !StartsWith(loader, LoaderPrefix(t))
  {
    var r := DetermineImageType(loader);
    if r != ImageType.Unknown {
      assert StartsWith(loader, LoaderPrefix(r));
      if StartsWith(loader, LoaderPrefix(t)) {
        LoaderPrefixesExclusive(loader, r, t);
      }
    } else {
      assert !StartsWith(loader, LoaderPrefix(t)) by {
        match t
        case Jpeg => case Png => case Webp => case Tiff => case Gif =>
        case Svg => case Pdf => case Heif => case Magick =>
      }
    }
  }

  /** The two classifiers of a loader name agree: the operations that support
      pages are exactly those for PDF, GIF, TIFF, WebP, HEIF and ImageMagick. */
  lemma {:induction false} ImageLoaderSupportsPageAgrees(loader: string)
    ensures ImageLoaderSupportsPage(loader) <==>
      DetermineImageType(loader) in {ImageType.Pdf, ImageType.Gif, ImageType.Tiff,
                                     ImageType.Webp, ImageType.Heif, ImageType.Magick}
  {
    var r := DetermineImageType(loader);
    if r != ImageType.Unknown {
      DetermineImageTypeMatchesPrefix(loader, ImageType.Pdf);
      DetermineImageTypeMatchesPrefix(loader, ImageType.Gif);
      DetermineImageTypeMatchesPrefix(loader, ImageType.Tiff);
      DetermineImageTypeMatchesPrefix(loader, ImageType.Webp);
      DetermineImageTypeMatchesPrefix(loader, ImageType.Heif);
      DetermineImageTypeMatchesPrefix(loader, ImageType.Magick);
    }
  }

  /* ----------------------------------------------------------------------
     Placement
     ---------------------------------------------------------------------- */

  /** Where an anchor puts the inner rectangle along one axis. */
  datatype Align = Start | Middle | End

  function HorizontalAlign(pos: Position): Align {
    match pos
    case Centre => Middle
    case Top => Middle
    case Right => End
    case Bottom => Middle
    case Left => Start
    case TopRight => End
    case BottomRight => End
    case BottomLeft => Start
    case TopLeft => Start
  }

  function VerticalAlign(pos: Position): Align {
    match pos
    case Centre => Middle
    case Top => Start
    case Right => Middle
    case Bottom => End
    case Left => Middle
    case TopRight => Start
    case BottomRight => End
    case BottomLeft => End
    case TopLeft => Start
  }

  /** The offset along one axis of an inner extent within an outer one. */
  function Place(a: Align, inner: int, outer: int): int {
    match a
    case Start => 0
    case Middle => DivTrunc(outer - inner, 2)
    case End => outer - inner
  }

  /** The differences `CalculatePosition` evaluates for an anchor fit a C++
      `int`; signed overflow there would be undefined behaviour. The
      difference of an axis the anchor puts at its start is never computed. */
  predicate PositionComputable(inWidth: Int32, inHeight: Int32, outWidth: Int32, outHeight: Int32,
                               pos: Position) {
    (HorizontalAlign(pos) != Start ==> InInt32(outWidth - inWidth))
    && (VerticalAlign(pos) != Start ==> InInt32(outHeight - inHeight))
  }

  /** The (left, top) offset at which an `inWidth` x `inHeight` rectangle is
      placed within an `outWidth` x `outHeight` one for an anchor. Offsets are
      not clamped: an inner rectangle larger than the outer one may give a
      negative offset. */
  function CalculatePosition(inWidth: Int32, inHeight: Int32, outWidth: Int32, outHeight: Int32,
                             pos: Position): (r: (Int32, Int32))
    requires PositionComputable(inWidth, inHeight, outWidth, outHeight, pos)
    ensures inWidth <= outWidth ==> 0 <= r.0 <= outWidth - inWidth
    ensures inHeight <= outHeight ==> 0 <= r.1 <= outHeight - inHeight
  {
    match pos
    case Top => (DivTrunc(outWidth - inWidth, 2), 0)
    case Right => (outWidth - inWidth, DivTrunc(outHeight - inHeight, 2))
    case Bottom => (DivTrunc(outWidth - inWidth, 2), outHeight - inHeight)
    case Left => (0, DivTrunc(outHeight - inHeight, 2))
    case TopRight => (outWidth - inWidth, 0)
    case BottomRight => (outWidth - inWidth, outHeight - inHeight)
    case BottomLeft => (0, outHeight - inHeight)
    case TopLeft => (0, 0)
    case Centre => (DivTrunc(outWidth - inWidth, 2), DivTrunc(outHeight - inHeight, 2))
  }

  /** Each anchor places the two axes independently: the left offset depends
      only on the widths and the top offset only on the heights. */
  lemma CalculatePositionByAxis(inWidth: Int32, inHeight: Int32, outWidth: Int32, outHeight: Int32,
                                pos: Position)
    requires PositionComputable(inWidth, inHeight, outWidth, outHeight, pos)
    ensures CalculatePosition(inWidth, inHeight, outWidth, outHeight, pos)
         == (Place(HorizontalAlign(pos), inWidth, outWidth), Place(VerticalAlign(pos), inHeight, outHeight))
  {
  }

  /** Corner anchors give the exact extremes. */
  lemma CornersAreExtremes(inWidth: Int32, inHeight: Int32, outWidth: Int32, outHeight: Int32)
    requires InInt32(outWidth - inWidth) && InInt32(outHeight - inHeight)
    ensures CalculatePosition(inWidth, inHeight, outWidth, outHeight, TopLeft) == (0, 0)
    ensures CalculatePosition(inWidth, inHeight, outWidth, outHeight, TopRight) == (outWidth - inWidth, 0)
    ensures CalculatePosition(inWidth, inHeight, outWidth, outHeight, BottomLeft) == (0, outHeight - inHeight)
    ensures CalculatePosition(inWidth, inHeight, outWidth, outHeight, BottomRight)
         == (outWidth - inWidth, outHeight - inHeight)
  {
  }

  /** An axis centred by an anchor is halved by truncation: the offset is
      within half a pixel of the middle, the odd pixel goes to the far side
      for a positive difference, and the sign of a negative difference is
      kept (no clamping); an axis put at its end is offset by the whole,
      possibly negative, difference. */
  lemma CentredAxesTruncate(inWidth: Int32, inHeight: Int32, outWidth: Int32, outHeight: Int32,
                            pos: Position)
    requires PositionComputable(inWidth, inHeight, outWidth, outHeight, pos)
    ensures var (left, top) := CalculatePosition(inWidth, inHeight, outWidth, outHeight, pos);
      && (HorizontalAlign(pos) == Middle && outWidth >= inWidth ==>
            0 <= (outWidth - inWidth) - 2 * left <= 1)
      && (HorizontalAlign(pos) == Middle && outWidth < inWidth ==>
            -1 <= (outWidth - inWidth) - 2 * left <= 0 && left <= 0)
      && (VerticalAlign(pos) == Middle && outHeight >= inHeight ==>
            0 <= (outHeight - inHeight) - 2 * top <= 1)
      && (VerticalAlign(pos) == Middle && outHeight < inHeight ==>
            -1 <= (outHeight - inHeight) - 2 * top <= 0 && top <= 0)
      && (HorizontalAlign(pos) == End ==> left == outWidth - inWidth)
      && (VerticalAlign(pos) == End ==> top == outHeight - inHeight)
  {
  }

  /** Two worked cases: a difference of 49 centres at 24, and a difference of
      -49 at -24 (Euclidean division would give -25). */
  lemma CentreOddDifferences()
    ensures CalculatePosition(50, 51, 100, 100, Centre) == (25, 24)
    ensures CalculatePosition(100, 100, 51, 51, Centre) == (-24, -24)
  {
  }

  /* ----------------------------------------------------------------------
     Checked multiplication
     ---------------------------------------------------------------------- */

  /** Multiplies two C++ `int`s, reporting whether the product overflows.
      This is the portable branch: the product is formed exactly in 64 bits,
      narrowed to 32 bits for the result, and compared with the 32-bit range.
      The compiler builtin of the other branch has the same contract. */
  method MulOverflow(a: Int32, b: Int32) returns (overflowed: bool, result: Int32)
    ensures overflowed <==> !InInt32(a * b)
    ensures !overflowed ==> result == a * b
    ensures result == Wrap32(a * b)
  {
    ProductFitsInt64(a, b);
    var t: int := a * b;
    assert InInt64(t);
    result := Wrap32(t);
    overflowed := t > MaxInt32 || t < MinInt32;
  }

  /** What a caller can conclude from the contract alone. */
  method MulOverflowExamples() {
    var overflowed, product := MulOverflow(0x1_0000, 0x1_0000);
    assert overflowed && product == 0;
    overflowed, product := MulOverflow(1000, 1000);
    assert !overflowed && product == 1_000_000;
    overflowed, product := MulOverflow(-0x8000_0000, -1);
    assert overflowed && product == -0x8000_0000;
  }

  /* ----------------------------------------------------------------------
     Escaping
     ---------------------------------------------------------------------- */

  /** The characters the escaping table rewrites. */
  predicate NeedsEscape(c: char) {
    c == '\U{0}' || c == '\U{1}' || c == '\n' || c == '\U{1F}' || c == '"' || c == '\\'
  }

  /** The text written for one character. */
  function EscapeChar(c: char): (e: string)
    ensures NeedsEscape(c) ==> |e| >= 2 && e[0] == '\\'
    ensures !NeedsEscape(c) ==> e == [c]
  {
    if c == '\U{0}' then "\\u0000"
    else if c == '\U{1}' then "\\u0001"
    else if c == '\n' then "\\n"
    else if c == '\U{1F}' then "\\u001f"
    else if c == '"' then "\\\""
    else if c == '\\' then "\\\\"
    else [c]
  }

  /** The escaped form of a string: the escapes of its characters, in order. */
  function Escaped(s: string): string {
    if s == [] then [] else EscapeChar(s[0]) + Escaped(s[1..])
  }

  /** Escaping distributes over concatenation. */
  lemma {:induction false} EscapedAppend(a: string, b: string)
    ensures Escaped(a + b) == Escaped(a) + Escaped(b)
  {
    if a == [] {
      assert a + b == b;
    } else {
      assert (a + b)[1..] == a[1..] + b;
      EscapedAppend(a[1..], b);
    }
  }

  /** A string with none of the six table characters is its own escape. */
  lemma {:induction false} EscapedIdentity(s: string)
    requires forall i :: 0 <= i < |s| ==> !NeedsEscape(s[i])
    ensures Escaped(s) == s
  {
    if s != [] {
      EscapedIdentity(s[1..]);
    }
  }

  /** Escapes one string, character by character, into a growing buffer. */
  method EscapeString(s: string) returns (r: string)
    ensures r == Escaped(s)
  {
    r := "";
    for i := 0 to |s|
      invariant r == Escaped(s[..i])
    {
      var c := s[i];
      var piece: string;
      if c == '\U{0}' {
        piece := "\\u0000";
      } else if c == '\U{1}' {
        piece := "\\u0001";
      } else if c == '\n' {
        piece := "\\n";
      } else if c == '\U{1F}' {
        piece := "\\u001f";
      } else if c == '"' {
        piece := "\\\"";
      } else if c == '\\' {
        piece := "\\\\";
      } else {
        piece := [c];
      }
      assert s[..i + 1] == s[..i] + [c];
      EscapedAppend(s[..i], [c]);
      r := r + piece;
    }
    assert s[..|s|] == s;
  }

  function Prepend(c: char, r: Option<string>): Option<string> {
    match r
    case None => None
    case Some(t) => Some([c] + t)
  }

  /** Reads back the escape sequences of the table; any other backslash
      sequence is rejected. */
  function Unescaped(s: string): Option<string>
    decreases |s|
  {
    if s == [] then Some([])
    else if s[0] != '\\' then Prepend(s[0], Unescaped(s[1..]))
    else if |s| < 2 then None
    else if s[1] == 'n' then Prepend('\n', Unescaped(s[2..]))
    else if s[1] == '"' then Prepend('"', Unescaped(s[2..]))
    else if s[1] == '\\' then Prepend('\\', Unescaped(s[2..]))
    else if |s| < 6 || s[1] != 'u' then None
    else if s[2..6] == "0000" then Prepend('\U{0}', Unescaped(s[6..]))
    else if s[2..6] == "0001" then Prepend('\U{1}', Unescaped(s[6..]))
    else if s[2..6] == "001f" then Prepend('\U{1F}', Unescaped(s[6..]))
    else None
  }

  /** Escaping loses nothing: every escaped string reads back as the original. */
  lemma {:induction false} UnescapedInvertsEscaped(s: string)
    ensures Unescaped(Escaped(s)) == Some(s)
  {
    if s != [] {
      var c, rest := s[0], Escaped(s[1..]);
      var w := EscapeChar(c) + rest;
      assert Escaped(s) == w;
      UnescapedInvertsEscaped(s[1..]);
      assert [c] + s[1..] == s;
      if !NeedsEscape(c) {
        assert w[1..] == rest;
      } else if c == '\n' || c == '"' || c == '\\' {
        assert w[2..] == rest;
      } else {
        assert w[2..6] == EscapeChar(c)[2..6];
        assert w[6..] == rest;
      }
    }
  }

  /* ----------------------------------------------------------------------
     JSON string escaping as section 7 of RFC 8259 requires it
     ---------------------------------------------------------------------- */

  predicate IsControl(c: char) {
    c < ' '
  }

  function HexDigit(n: nat): (d: char)
    requires n < 16
    ensures !IsControl(d)
  {
    "0123456789abcdef"[n]
  }

  /** The escape of one character under the full rule: every control
      character U+0000 to U+001F is escaped (as `\n` for a line feed, as
      `\u00XX` otherwise), as are the quotation mark and the reverse solidus. */
  function JsonEscapeChar(c: char): (e: string)
    ensures forall i :: 0 <= i < |e| ==> !IsControl(e[i])
    ensures !IsControl(c) && c != '"' && c != '\\' ==> e == [c]
  {
    if c == '\n' then "\\n"
    else if c == '"' then "\\\""
    else if c == '\\' then "\\\\"
    else if IsControl(c) then
      "\\u00" + [HexDigit(c as int / 16), HexDigit(c as int % 16)]
    else [c]
  }

  function JsonEscaped(s: string): string {
    if s == [] then [] else JsonEscapeChar(s[0]) + JsonEscaped(s[1..])
  }

  /** The full rule leaves no control character in its output. */
  lemma {:induction false} JsonEscapedHasNoControlCharacters(s: string)
    ensures forall i :: 0 <= i < |JsonEscaped(s)| ==> !IsControl(JsonEscaped(s)[i])
  {
    if s != [] {
      JsonEscapedHasNoControlCharacters(s[1..]);
      var e, rest := JsonEscapeChar(s[0]), JsonEscaped(s[1..]);
      assert JsonEscaped(s) == e + rest;
      forall i | 0 <= i < |e + rest|
        ensures !IsControl((e + rest)[i])
      {
        if i >= |e| {
          assert (e + rest)[i] == rest[i - |e|];
        }
      }
    }
  }

  /** The table's escape agrees with the full rule on every string whose
      control characters are among the four in the table. */
  lemma {:induction false} EscapedAgreesWithJsonEscaped(s: string)
    requires forall i :: 0 <= i < |s| ==> IsControl(s[i]) ==> NeedsEscape(s[i])
    ensures Escaped(s) == JsonEscaped(s)
  {
    if s != [] {
      EscapedAgreesWithJsonEscaped(s[1..]);
      assert EscapeChar(s[0]) == JsonEscapeChar(s[0]);
    }
  }

  /** The table lets U+0002 through: the escaped string still holds a control
      character, which a JSON string may not contain unescaped. */
  lemma EscapedLeavesControlCharacter()
    ensures var e := Escaped("\U{2}"); e == "\U{2}" && IsControl(e[0])
    ensures JsonEscaped("\U{2}") == "\\u0002"
  {
  }
}
