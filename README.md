# Image service helper library, modelled in Dafny

This project models the helper library of an on-demand image transformation
service (`src/api/utils/utility.h`). The image pipeline uses these small,
total, deterministic functions for the following jobs:

- placing an inner rectangle inside an outer one for one of nine anchors, as
  crop and embed do;
- multiplying two C++ `int`s with overflow detection;
- the alpha maximum and 16-bit test of a libvips colour interpretation;
- the rotation for an angle;
- the format tables: file extension, fallback output format, identifier and
  alpha support;
- classifying the class name of a libvips load operation, by image type and by
  multi-page support;
- escaping a string for a JSON message.

The project has three files:

- `enums.dfy` holds the modules `Enums` and `Vips`. `Enums` has the service's
  `ImageType`, `Output` and `Position` enumerations. `Vips` has the two libvips
  enumerations the helpers take, `Interpretation` and `Angle`. The header that
  defines the service's enumerations is not part of this model: the enumerators
  are the ones the helpers name.
- `cint.dfy` holds the module `CInt`. It states C++ `int` semantics: the 32-bit
  range, the 64-bit intermediate, division that truncates toward zero
  (`DivTrunc`), and the modulo 2^32 wrap-around of a narrowing cast (`Wrap32`).
- `utility.dfy` holds the module `Utility`, with one Dafny member per helper and
  the lemmas about them.

Pure helpers are functions. `escape_string` appends to a stream in a loop, so it
is the method `EscapeString`. That method has a loop invariant and is proved
against the specification function `Escaped`. `mul_overflow` returns a flag and
writes the product through an `int *` argument, so it is the method `MulOverflow`, with two
results.

C++ strings are sequences of bytes. They are modelled as `string`, with one
element per C++ `char`. Every character the model treats specially is ASCII,
and every other byte is copied unchanged. So a UTF-8 string behaves the same
either way.

Some definitions are not in the source. They exist so that a helper's meaning
can be stated against something independent:

- `Place`, with `HorizontalAlign` and `VerticalAlign`: how each anchor places each
  axis.
- `AngleDegrees`: the inverse of the rotation table.
- `LoaderPrefix`: the loader prefix of each image type, as one table.
- `AsImageType`: embeds `Output` into `ImageType`.
- `Unescaped`: the inverse of escaping.
- `JsonEscaped`: the full escaping rule of RFC 8259.

## Model

| member | source | states |
|---|---|---|
| `Utility.MaximumImageAlpha` | src/api/utils/utility.h:40-53 | The alpha maximum is 65535 exactly when the interpretation is RGB16 or GREY16 (the 16-bit test), and 255 exactly otherwise. |
| `Utility.ResolveAngleRotation` | src/api/utils/utility.h:136-148 | 90, 180 and 270 resolve to the rotation of that many degrees; every other int, 0 included, resolves to D0. |
| `Utility.ResolveAngleRotationInvertsDegrees` | src/api/utils/utility.h:136-148 | Resolving the degrees of any rotation gives that rotation back, so the table is onto and loses no rotation. |
| `Utility.DetermineImageExtension` | src/api/utils/utility.h:157-171 | An output's extension is a dot followed by its type identifier, except for JPEG, whose extension is ".jpg". |
| `Utility.DetermineImageExtensionInjective` | src/api/utils/utility.h:157-171 | No two outputs share an extension, and ".png" is the extension of PNG alone. |
| `Utility.ToOutput` | src/api/utils/utility.h:178-192 | A total map: the identity on JPEG, PNG, WebP, TIFF and GIF, and PNG for SVG, PDF, HEIF, ImageMagick and Unknown. |
| `Utility.ToOutputRetractsAsImageType` | src/api/utils/utility.h:178-192 | Mapping an output format's own image type gives back that output format. |
| `Utility.DetermineImageTypeMatchesPrefix` | src/api/utils/utility.h:199-222 | A loader name is classified as type t exactly when it starts with t's `VipsForeignLoad<X>` prefix, and as Unknown only when it starts with none of them. |
| `Utility.LoaderPrefixesExclusive` | src/api/utils/utility.h:199-222 | No loader name starts with the prefixes of two different types, so the order of the tests does not affect the result. |
| `Utility.ImageLoaderSupportsPageAgrees` | src/api/utils/utility.h:199-236 | The multi-page test holds exactly when the name classifies as PDF, GIF, TIFF, WebP, HEIF or ImageMagick. |
| `Utility.ImageTypeId` | src/api/utils/utility.h:243-268 | The identifier is "unknown" exactly for Unknown. |
| `Utility.ImageTypeIdInjective` | src/api/utils/utility.h:243-268 | No two image types share an identifier. |
| `Utility.SupportAlphaChannelAndOutput` | src/api/utils/utility.h:275-278 | Alpha is supported exactly by the encodable types other than JPEG (PNG, WebP, TIFF, GIF). These types map to their own output format. Every type without an encoder falls back to an output that supports alpha. |
| `Utility.CalculatePosition` | src/api/utils/utility.h:290-330 | For each axis on its own: if the inner extent fits the outer one, the offset lies in [0, outer - inner]. The only requirement is that the differences the chosen branch computes fit a C++ `int`. |
| `Utility.CalculatePositionByAxis` | src/api/utils/utility.h:293-327 | Each anchor places the two axes independently. An axis goes at its start (0), its middle (the difference halved by truncation) or its end (the whole difference). Centre is the default branch. |
| `Utility.CornersAreExtremes` | src/api/utils/utility.h:310-322 | TopLeft gives (0, 0), TopRight gives (out_w - in_w, 0), BottomLeft gives (0, out_h - in_h) and BottomRight gives (out_w - in_w, out_h - in_h). |
| `Utility.CentredAxesTruncate` | src/api/utils/utility.h:296-326 | A centred axis is within one pixel of the exact middle. With a positive difference the odd pixel goes to the far side. A negative difference keeps its sign, with no clamping. An axis put at its end is offset by the whole difference, negative or not. |
| `Utility.CentreOddDifferences` | src/api/utils/utility.h:323-326 | Centring a 50x51 box in 100x100 gives (25, 24). Centring 100x100 in 51x51 gives (-24, -24), where Euclidean division would give -25. |
| `CInt.DivTrunc` | src/api/utils/utility.h:297 | C++ `/` by a positive divisor: the remainder takes the sign of the dividend and is smaller than the divisor in magnitude. |
| `CInt.DivTruncByTwo` | src/api/utils/utility.h:297 | Halving leaves a remainder of 0 or 1 in the sign of the dividend, and the result lies between 0 and the dividend. |
| `CInt.DivTruncNotEuclidean` | src/api/utils/utility.h:297 | For a negative odd dividend, truncating halving is one more than Euclidean halving. |
| `Utility.MulOverflow` | src/api/utils/utility.h:463-472 | The flag is set exactly when the mathematical product lies outside [-2^31, 2^31-1]. Without overflow, the stored result is exactly a * b. In every case it is the product wrapped modulo 2^32. |
| `CInt.ProductFitsInt64` | src/api/utils/utility.h:467 | The product of two 32-bit ints always fits the 64-bit intermediate exactly; its magnitude is at most 2^62. |
| `CInt.Wrap32` | src/api/utils/utility.h:468 | The narrowing cast gives a 32-bit value congruent to its argument modulo 2^32, and leaves values already in range unchanged. |
| `Utility.EscapeString` | src/api/utils/utility.h:416-445 | The character loop's output equals `Escaped(s)`, the concatenation of the escapes of s's characters, in order. |
| `Utility.EscapeChar` | src/api/utils/utility.h:419-440 | Each of the six table characters becomes a sequence that starts with a backslash. Every other character is copied unchanged. |
| `Utility.EscapedAppend` | src/api/utils/utility.h:416-445 | Escaping distributes over concatenation: escape(a + b) == escape(a) + escape(b). |
| `Utility.EscapedIdentity` | src/api/utils/utility.h:438-439 | A string with none of `\x00`, `\x01`, `\n`, `\x1f`, `"` and `\` is its own escape. |
| `Utility.UnescapedInvertsEscaped` | src/api/utils/utility.h:416-445 | Escaping is injective: reading the escape sequences back gives the original string. |
| `Utility.EscapedLeavesControlCharacter` | src/api/utils/utility.h:419-440 | As written, the table lets U+0002 through unescaped, so the output still holds a control character. |
| `Utility.JsonEscapeChar` | src/api/utils/utility.h:419-440 | Under the full rule, no character's escape contains a control character. A character that is not a control character, quotation mark or reverse solidus is copied unchanged. |
| `Utility.JsonEscapedHasNoControlCharacters` | src/api/utils/utility.h:416-445 | Under the full rule, the output never contains a control character U+0000 to U+001F. |
| `Utility.EscapedAgreesWithJsonEscaped` | src/api/utils/utility.h:416-445 | The model of the table agrees with the full rule on every string whose only control characters are in the table. |

## Left out

- `has_profile`, `exif_orientation`, `get_page_height`, `ensure_alpha` and
  `line_cache` only wrap libvips metadata getters and operations on an image
  handle. The library is not part of this model.
- `has_density` and `get_density` use floating-point resolution and rounding.
  The model does not cover floating point.
- `image_to_json` serialises image metadata through libvips getters and
  compile-time version branches. It is a thin wrapper over a library that is
  not modelled.
- `VIPS_VERSION_AT_LEAST` is a preprocessor macro, and `underlying_value` is
  an enum-to-integer cast template. Neither has behaviour worth stating.
- `Is16Bit`, `SupportAlphaChannel`, `DetermineImageType` and
  `ImageLoaderSupportsPage` are modelled as written. Their meaning is stated by
  `MaximumImageAlpha`, `SupportAlphaChannelAndOutput`,
  `DetermineImageTypeMatchesPrefix` and `ImageLoaderSupportsPageAgrees`
  respectively.
- Enumerations: in C++, an enum-class object can hold a value outside its
  named enumerators. Dafny datatypes cannot. So two cases are not modelled:
  - the `default:` branches of `calculate_position`, `determine_image_extension`
    and `image_type_id` applied to such a value;
  - a `Position` enumerator other than the nine anchors. A value of that kind
    would take the Centre branch.
- `CalculatePosition` requires that the differences its branch computes fit a
  C++ `int`. Signed overflow is undefined behaviour in C++, so a wrapped result
  is not modelled.
- `MulOverflow` models the portable branch of `mul_overflow`: a 64-bit product,
  a narrowing cast and a range test. The compiler builtin of the other branch
  has the same results. It is not modelled separately.
- The source's promise for `escape_string` is modelled as written, with its
  six-character table. The corrected rule below is stated and proved separately.
  The method keeps the table, because the code does.

## Findings

| source | as written | input that shows it | evidently intended | confidence | as-written member | corrected member |
|---|---|---|---|---|---|---|
| src/api/utils/utility.h:419-440 | Only `\x00`, `\x01`, `\x0a`, `\x1f`, `"` and `\` are escaped. Every other control character is copied through unescaped, which section 7 of RFC 8259 forbids inside a JSON string. | The one-character string U+0002 escapes to itself. | Escape every control character U+0000 to U+001F, with `\n` for a line feed and `\u00XX` otherwise. The table's first, second, eleventh and last entries of that range read as an excerpt of the full list. | medium; not executed | `Utility.EscapedLeavesControlCharacter` | `Utility.JsonEscapedHasNoControlCharacters` |
