# range_t and writePPM, modelled in Dafny

This project models two self-contained pieces of OSPRay.

1. The interval template `range_t<T>` of `ospcommon`. It covers the constructors for
   empty, zero, one, a single point and explicit bounds, and the operations `size`,
   `extend` by a value, `extend` by a range, `clamp`, `empty` and `contains`. It also
   covers the "two numbers scanned, or else the default" rule of `fromString`.
2. `writePPM` from the tutorial application. It writes a bottom-up framebuffer of
   4 bytes per pixel as a binary Netpbm "P6" image with maxval 255.

## Files

- `wrappers.dfy` (`Wrappers`): `Option`.
- `extint.dfy` (`ExtInt`): the scalar type `Ext = NegInf | Fin(int) | PosInf`, in place
  of the interval's `T`. The empty range is `[pos_inf, neg_inf]`, so the two
  sentinels have to be values of `T`.
  - `Min` and `Max` follow `std::min` and `std::max` exactly: `(b < a) ? b : a` and
    `(a < b) ? b : a`.
  - `Sub` follows IEEE subtraction on infinities. An infinity minus the same infinity
    (NaN for floats) is `None`.
- `range.dfy` (`Ranges`): the datatype `Range(lower, upper)` with its operations, the
  constructors, and `FromString` over an abstract scan outcome.
- `range_properties.dfy` (`RangeProperties`): lemmas that relate several of these
  operations.
- `decimal.dfy` (`Decimal`): integers as printf's `%i` writes them, plus a parser
  that undoes the formatting.
- `ppm.dfy` (`Ppm`): the file as a pure function `Encode(width, height, pixels)`. The
  scanlines are built the way the loops build them. `IsPpmOf` is a separate
  byte-level description of the same file.
- `ppm_properties.dfy` (`PpmProperties`): proofs that `Encode` is the one file
  `IsPpmOf` describes, that the alpha byte is ignored, and that the header can be
  decoded.
- `ppm_writer.dfy` (`PpmWriter`): `WritePpm` copies the source's nested loops and
  reuses one line buffer. It is proved equal to `Encode`. The framebuffer, which the
  source only reads, is an immutable sequence.

## Notes on behaviour

- **Canonical and non-canonical empty ranges.** Only `[pos_inf, neg_inf]` is the
  neutral element of `extend`. A range such as `[5, 3]` is also empty (for example,
  `fromString` of "5 3" returns it, because nothing is reordered). But extending
  `[5, 3]` by 0 gives `[0, 3]`, not `[0, 0]` (`ExtendNonCanonicalEmpty`). For that
  reason the "extend grows no further than needed" lemmas require a canonical range:
  one that is either non-empty or exactly `Empty()`.
- **Clamp returning `upper`.** The doc comment on `clamp` warns that the result can
  be `upper`, which is not strictly inside a half-open range. In this model
  `contains` is closed on both ends, so `upper` is contained. On an empty range,
  `clamp` returns `lower`.
- **Negative height.** `writePPM` prints the height with `%i` and loops while
  `y < height`. A negative height therefore gives the header followed directly by the
  newline. The model handles this case (`RowCount`).

## Model

| member | source | states |
|---|---|---|
| ExtInt.Min | components/ospcommon/range.h:27 | std::min gives a value no greater than either argument, and it is one of them |
| ExtInt.Max | components/ospcommon/range.h:28 | std::max gives a value no smaller than either argument, and it is one of them |
| ExtInt.Sub | components/ospcommon/range.h:43-46 | upper - lower is undefined exactly for the same infinity twice; otherwise it is finite iff both bounds are, negative iff upper < lower and zero iff the bounds are equal, and finite bounds give the integer difference |
| Ranges.Range.IsEmpty | components/ospcommon/range.h:91-94 | empty() is upper < lower; its meaning, containing no value, is stated by RangeProperties.EmptyIffContainsNothing |
| Ranges.Range.Contains | components/ospcommon/range.h:96-99 | contains(t) is neither t < lower nor upper < t, so both bounds belong to a non-empty range; its convexity is stated by RangeProperties.ContainsBetween |
| Ranges.Range.Size | components/ospcommon/range.h:43-46 | size() is undefined only when both bounds are the same infinity; otherwise it is finite iff both bounds are, negative exactly when the range is empty, zero exactly when the bounds are equal, and upper - lower for finite bounds |
| Ranges.Range.Extend | components/ospcommon/range.h:53-57 | after extend(t) the range contains t and everything it contained before; the bounds only move outward, each one either staying or becoming t |
| Ranges.Range.ExtendBy | components/ospcommon/range.h:59-63 | extend(other) contains everything either operand contained; each new bound is the outer one of the two operands' bounds |
| Ranges.Range.Clamp | components/ospcommon/range.h:65-73 | on a non-empty range clamp(t) lies in the range; it is t when t is contained, lower below the range, and upper at or above it (so upper can be returned); on an empty range it is lower |
| Ranges.Empty | components/ospcommon/range.h:33-35 | the default and empty constructors give a range that is empty and contains no value |
| Ranges.Zero | components/ospcommon/range.h:36-37 | range_t(zero) is [0,0]: non-empty, contains exactly 0, size 0 |
| Ranges.One | components/ospcommon/range.h:38-39 | range_t(one) is [0,1]: non-empty, contains exactly 0 and 1, size 1 |
| Ranges.Point | components/ospcommon/range.h:40 | range_t(t) is non-empty, contains exactly t, and has size 0 when t is finite |
| Ranges.FromString | components/ospcommon/range.h:113-122 | when two numbers were scanned the result is exactly [first, second]; otherwise it is the default argument |
| RangeProperties.EmptyIffContainsNothing | components/ospcommon/range.h:91-99 | empty() holds iff contains(t) is false for every t |
| RangeProperties.ContainsBetween | components/ospcommon/range.h:96-99 | contains is convex: a value between two contained values is contained |
| RangeProperties.ExtendEmpty | components/ospcommon/range.h:53-57 | extending the canonical empty range by t gives the point range [t,t] |
| RangeProperties.ExtendIsExtendByPoint | components/ospcommon/range.h:53-63 | extend(t) equals extend(range_t(t)) |
| RangeProperties.ExtendIdempotent | components/ospcommon/range.h:53-57 | extending twice by the same value gives the same bounds as extending once |
| RangeProperties.ExtendByIdempotent | components/ospcommon/range.h:59-63 | extending twice by the same range gives the same bounds as extending once, and extending a range by itself changes nothing |
| RangeProperties.ExtendByEmpty | components/ospcommon/range.h:59-63 | extending by the canonical empty range leaves the bounds unchanged, and extending the empty range by r gives r |
| RangeProperties.ExtendByCommutativeAssociative | components/ospcommon/range.h:59-63 | extend(range) does not depend on operand order or grouping |
| RangeProperties.ExtendIsLeast | components/ospcommon/range.h:53-57 | on a canonical range, every range that holds t and the old contents also holds everything extend(t) holds, and the result is again canonical |
| RangeProperties.ExtendByIsLeast | components/ospcommon/range.h:59-63 | on canonical operands, every range that holds both operands' contents also holds everything extend(other) holds, and the result is again canonical |
| RangeProperties.ExtendNonCanonicalEmpty | components/ospcommon/range.h:53-57 | the empty range [5,3] extended by 0 becomes [0,3], which contains 2 |
| RangeProperties.ClampIdempotent | components/ospcommon/range.h:70-73 | clamping an already clamped value leaves it unchanged |
| RangeProperties.FromStringKeepsOrder | components/ospcommon/range.h:119-121 | scanned bounds are not reordered: "a b" with b < a gives the empty range [a,b] |
| RangeProperties.FromStringDefaultsToEmpty | components/ospcommon/range.h:77-80 | without two scanned numbers and with no default argument, the result is the empty range and contains nothing |
| Decimal.NatToString | apps/ospTutorial.cpp:41 | the digits of a natural number: at least one digit, no leading zero, one digit exactly below 10 |
| Decimal.IntToString | apps/ospTutorial.cpp:41 | %i text: starts with '-' exactly for negative numbers, is otherwise all digits, and the text of a non-zero number has no leading zero |
| Decimal.IntToStringZero | apps/ospTutorial.cpp:41 | %i writes zero as the single digit "0" |
| Decimal.ParseIntToString | apps/ospTutorial.cpp:41 | parsing the %i text of n gives back n |
| Decimal.IntToStringInjective | apps/ospTutorial.cpp:41 | different integers print as different text |
| Ppm.Header | apps/ospTutorial.cpp:41 | the header fprintf writes has one byte per character of the text "P6\n%i %i\n255\n" with width and height filled in; its bytes are stated by PpmProperties.HeaderConcat and PpmProperties.HeaderParts |
| PpmProperties.HeaderConcat | apps/ospTutorial.cpp:41 | the header is the ASCII bytes of "P6\n", the width, a space, the height and "\n255\n", one after another |
| PpmProperties.HeaderParts | apps/ospTutorial.cpp:41 | the header starts with the bytes P 6 LF and ends with LF 2 5 5 LF |
| PpmProperties.HeaderInjective | apps/ospTutorial.cpp:41 | the header determines the width and the height it was written for |
| PpmProperties.RowCountIsPassCount | apps/ospTutorial.cpp:43 | the loop for (y = 0; y < height; y++) passes through y = 0, 1, ... and makes RowCount(height) passes, none for a negative height |
| Ppm.RowRgb | apps/ospTutorial.cpp:45-49 | the inner loop over width pixels produces 3*width bytes; which bytes is stated by PpmProperties.RowRgbPixel |
| PpmProperties.RowRgbPixel | apps/ospTutorial.cpp:45-49 | output bytes 3x..3x+2 of a scanline are input bytes 4x..4x+2 of the source pixel |
| Ppm.InputRow | apps/ospTutorial.cpp:44-49 | the scanline read from buffer row r, which starts at pixel r*width, has 3*width bytes |
| Ppm.Scanlines | apps/ospTutorial.cpp:43-49 | the output scanlines are height lines of 3*width bytes each; that line y comes from buffer row height-1-y is stated by PpmProperties.PayloadPixel |
| Ppm.Payload | apps/ospTutorial.cpp:43-51 | the scanlines written back to back by fwrite come to 3*width*height bytes |
| Ppm.Encode | apps/ospTutorial.cpp:36-54 | writePPM's file as a pure function: header, payload, newline, of length header + 3*width*height + 1, starting with the header and ending with a newline; PpmProperties.PpmIffEncode ties it to IsPpmOf |
| Ppm.IsPpmOf | apps/ospTutorial.cpp:36-54 | an independent byte-level description of the file: the header, then for each output pixel (x, y) the first three bytes of pixel x of buffer row height-1-y, then one newline; PpmProperties.PpmIffEncode proves it holds exactly of Encode |
| PpmProperties.FlattenBlock | apps/ospTutorial.cpp:43-51 | scanlines of 3*width bytes written back to back put scanline y at bytes 3*width*y up to 3*width*(y+1) |
| PpmProperties.PayloadPixel | apps/ospTutorial.cpp:43-49 | in the payload, output pixel (x, y) is the first three bytes of pixel x of buffer row height-1-y |
| PpmProperties.ConcatIsLayout | apps/ospTutorial.cpp:41-52 | a header, then the flipped scanlines, then a newline has exactly the layout: header, height rows of 3*width bytes, one final newline |
| PpmProperties.EncodeIsPpm | apps/ospTutorial.cpp:36-54 | the written file starts with the header, holds height rows of 3*width bytes taken in reverse row order from the first three bytes of each pixel, and ends with exactly one newline |
| PpmProperties.PayloadCover | apps/ospTutorial.cpp:43-49 | every payload byte belongs to the RGB bytes of some output pixel |
| PpmProperties.PixelUnique | apps/ospTutorial.cpp:43-49 | no payload byte belongs to the RGB bytes of two different output pixels, so with PayloadCover each byte has exactly one pixel |
| PpmProperties.LayoutIsUnique | apps/ospTutorial.cpp:41-52 | two files with the same header and pixels in that layout are equal |
| PpmProperties.PpmIsUnique | apps/ospTutorial.cpp:36-54 | two files of the described shape for the same input are equal |
| PpmProperties.PpmIffEncode | apps/ospTutorial.cpp:36-54 | a byte sequence has the described shape iff it is the file writePPM writes |
| PpmProperties.PixelsFlippedIgnoresAlpha | apps/ospTutorial.cpp:45-49 | the flipped-pixel relation does not depend on the fourth byte of any input pixel |
| PpmProperties.AlphaIgnored | apps/ospTutorial.cpp:45-49 | the fourth byte of a pixel is never copied: framebuffers that differ only there give the same file |
| PpmWriter.CopyRgb | apps/ospTutorial.cpp:45-49 | the inner loop fills the line buffer with the first three bytes of each of width pixels |
| PpmWriter.WriteScanline | apps/ospTutorial.cpp:43-51 | one pass of the outer loop appends exactly output scanline y (buffer row height-1-y) to the bytes written so far |
| PpmWriter.WritePpm | apps/ospTutorial.cpp:36-54 | the nested loops over rows and columns write exactly the file Encode describes |

## Left out

- `center()`: it multiplies by `.5f`, which is floating-point arithmetic.
- `toVec2f` and `operator<<`: conversion and stream output, with no logic to model.
- Vector-valued `T` with componentwise `anyLessThan`: only scalar `T` is modelled. For
  scalars, `anyLessThan` is `<`.
- Floating-point `T`, in particular NaN and rounding: `T` is the integers extended by
  ±infinity.
- Ranges.FromString: the text scanning done by `sscanf("%f %f")` is not modelled. The
  function takes the scan's outcome (EOF, or 0, 1 or 2 numbers converted) as its input.
- writePPM's file I/O (`fopen`, `fprintf`, `fwrite`, `fclose`) and a failing `fopen`
  are not modelled. The model is the byte sequence written.
- The reinterpretation of `uint32_t` pixels as bytes, and so the byte order: the
  framebuffer is taken as 4 bytes per pixel.
- The 32-bit `int` arithmetic is not modelled. `4*x` overflows for widths above 2^29;
  `3*size.x` and `3*x + 2` overflow from width 715,827,883 on; `(size.y-1-y)*size.x`
  overflows once (height-1)*width reaches 2^31.
- A negative width is excluded (`width: nat`): `alloca` and `fwrite` with a negative
  size are undefined behaviour.
- `main` of apps/ospTutorial.cpp (OSPRay API calls and rendering) is not part of this
  model.
