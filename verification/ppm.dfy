/**
  `writePPM` of the tutorial application: the framebuffer, 4 bytes per pixel
  with row 0 at the bottom, written as a binary Netpbm image ("P6", maxval
  255): an ASCII header, the scanlines from the top row of the image (the
  last row of the buffer) down, 3 bytes per pixel, then one newline. The file
  is modelled as the byte sequence written to it.
 */
module Ppm {
  import opened Decimal

  newtype byte = x: int | 0 <= x < 256

  const Newline: byte := 10

  /** Every character of s is below 128. */
  predicate IsAscii(s: string) {
    forall i :: 0 <= i < |s| ==> (s[i] as int) < 128
  }

  /** `%i` text is ASCII: a minus sign and digits. */
  lemma IntToStringIsAscii(n: int)
    ensures IsAscii(IntToString(n))
  {
  }

  /** The bytes of an ASCII string. */
  function Ascii(s: string): (b: seq<byte>)
    requires IsAscii(s)
    ensures |b| == |s|
  {
    seq(|s|, i requires 0 <= i < |s| => s[i] as int as byte)
  }

  /** The header text `"P6\n%i %i\n255\n"` with width and height filled in. */
  function HeaderText(width: nat, height: int): string {
    "P6\n" + IntToString(width) + " " + IntToString(height) + "\n255\n"
  }

  /** The header as `fprintf` writes it: the ASCII codes of the header text. */
  function Header(width: nat, height: int): (h: seq<byte>)
    ensures |h| == |HeaderText(width, height)|
  {
    IntToStringIsAscii(width);
    IntToStringIsAscii(height);
    Ascii(HeaderText(width, height))
  }

  /** Number of scanlines the loop `for (y = 0; y < height; y++)` writes. */
  function RowCount(height: int): nat {
    if height < 0 then 0 else height
  }

  /** A product of naturals is a natural. */
  lemma MulNat(a: nat, b: nat)
    ensures a * b >= 0
  {
  }

  /** Multiplication distributes over a successor. */
  lemma MulSucc(a: nat, b: nat)
    ensures a * (b + 1) == a * b + a
  {
  }

  /** Multiplying by a fixed natural is monotone. */
  lemma MulMono(a: nat, b: nat, c: nat)
    requires b <= c
    ensures a * b <= a * c
  {
  }

  /** Every byte of pixel x of buffer row r lies below the end of a `rows`-row buffer. */
  lemma PixelFits(w: nat, r: nat, rows: nat, x: nat)
    requires r < rows && x < w
    ensures 4 * w * r + 4 * x + 4 <= 4 * w * rows
  {
    MulMono(w, r + 1, rows);
  }

  /** Byte offset of buffer row r in a framebuffer w pixels wide. */
  function RowStart(w: nat, r: nat): nat {
    4 * w * r
  }

  /** All of buffer row r lies below the end of a `rows`-row buffer. */
  lemma RowFits(w: nat, r: nat, rows: nat)
    requires r < rows
    ensures RowStart(w, r) + 4 * w <= 4 * w * rows
  {
    MulMono(w, r + 1, rows);
  }

  /**
    The first n output pixels of a scanline whose input starts at byte `base`:
    bytes 0, 1 and 2 of each 4-byte input pixel, the fourth byte dropped.
   */
  function RowRgb(p: seq<byte>, base: nat, n: nat): (r: seq<byte>)
    requires base + 4 * n <= |p|
    ensures |r| == 3 * n
  {
    if n == 0 then []
    else RowRgb(p, base, n - 1) + p[base + 4 * (n - 1) .. base + 4 * (n - 1) + 3]
  }

  /** Output scanline for buffer row r: the RGB bytes of its w pixels. */
  function InputRow(p: seq<byte>, w: nat, rows: nat, r: nat): (line: seq<byte>)
    requires r < rows && 4 * w * rows <= |p|
    ensures |line| == 3 * w
  {
    RowFits(w, r, rows);
    RowRgb(p, RowStart(w, r), w)
  }

  /** The output scanlines in file order: output scanline y is buffer row rows-1-y. */
  function Scanlines(p: seq<byte>, w: nat, rows: nat): (lines: seq<seq<byte>>)
    requires 4 * w * rows <= |p|
    ensures |lines| == rows
    ensures forall y :: 0 <= y < rows ==> |lines[y]| == 3 * w
  {
    seq(rows, y requires 0 <= y < rows => InputRow(p, w, rows, rows - 1 - y))
  }

  /** The lines written one after another. */
  function Flatten(lines: seq<seq<byte>>): seq<byte> {
    if |lines| == 0 then [] else Flatten(lines[..|lines| - 1]) + lines[|lines| - 1]
  }

  /** Lines of a common length len concatenate to len times their number of bytes. */
  lemma {:induction false} FlattenLength(lines: seq<seq<byte>>, len: nat)
    requires forall i :: 0 <= i < |lines| ==> |lines[i]| == len
    ensures |Flatten(lines)| == len * |lines|
  {
    if |lines| > 0 {
      FlattenLength(lines[..|lines| - 1], len);
      MulSucc(len, |lines| - 1);
    }
  }

  /** The payload bytes of the first y output scanlines. */
  function Written(p: seq<byte>, w: nat, rows: nat, y: nat): seq<byte>
    requires 4 * w * rows <= |p| && y <= rows
  {
    Flatten(Scanlines(p, w, rows)[..y])
  }

  /** A header, a payload and the closing newline, one after another. */
  lemma FrameParts(h: seq<byte>, payload: seq<byte>)
    ensures |h + payload + [Newline]| == |h| + |payload| + 1
    ensures (h + payload + [Newline])[..|h|] == h
    ensures (h + payload + [Newline])[|h| + |payload|] == Newline
  {
  }

  /** The scanlines of a `rows`-row framebuffer, in file order and back to back. */
  function Payload(p: seq<byte>, w: nat, rows: nat): (payload: seq<byte>)
    requires 4 * w * rows <= |p|
    ensures |payload| == 3 * w * rows
  {
    FlattenLength(Scanlines(p, w, rows), 3 * w);
    Flatten(Scanlines(p, w, rows))
  }

  /** The whole file `writePPM` writes for a width x height framebuffer p. */
  function Encode(width: nat, height: int, p: seq<byte>): (file: seq<byte>)
    requires 4 * width * RowCount(height) <= |p|
    ensures |file| == |Header(width, height)| + 3 * width * RowCount(height) + 1
    ensures file[..|Header(width, height)|] == Header(width, height)
    ensures file[|file| - 1] == Newline
  {
    FrameParts(Header(width, height), Payload(p, width, RowCount(height)));
    Header(width, height) + Payload(p, width, RowCount(height)) + [Newline]
  }

  /** Byte offset, within the payload, of output pixel x of output scanline y. */
  function OutOffset(w: nat, rows: nat, y: nat, x: nat): (o: nat)
    requires y < rows && x < w
    ensures o + 3 <= 3 * w * rows
  {
    PixelFits(w, y, rows, x);
    3 * (w * y + x)
  }

  /** Byte offset, within the framebuffer, of pixel x of buffer row r. */
  function InOffset(w: nat, rows: nat, r: nat, x: nat): (o: nat)
    requires r < rows && x < w
    ensures o + 4 <= 4 * w * rows
    ensures o % 4 == 0
  {
    PixelFits(w, r, rows, x);
    var k := w * r + x;
    4 * k
  }

  /**
    Starting at byte `at` of out, output pixel x of output scanline y holds
    bytes 0..2 of pixel x of buffer row rows-1-y, for every y and x.
   */
  ghost predicate PixelsFlipped(out: seq<byte>, at: nat, w: nat, rows: nat, p: seq<byte>)
    requires at + 3 * w * rows <= |out| && 4 * w * rows <= |p|
  {
    forall y: nat, x: nat | y < rows && x < w ::
      out[at + OutOffset(w, rows, y, x) .. at + OutOffset(w, rows, y, x) + 3]
      == p[InOffset(w, rows, rows - 1 - y, x) .. InOffset(w, rows, rows - 1 - y, x) + 3]
  }

  /**
    The layout of a file with header h for a `rows`-row framebuffer p: h, then
    for every output scanline y and column x the first three bytes of pixel x
    of buffer row rows-1-y, scanlines back to back, then one newline and
    nothing more.
   */
  ghost predicate IsLayout(out: seq<byte>, h: seq<byte>, w: nat, rows: nat, p: seq<byte>)
    requires 4 * w * rows <= |p|
  {
    && |out| == |h| + 3 * w * rows + 1
    && out[..|h|] == h
    && PixelsFlipped(out, |h|, w, rows, p)
    && out[|out| - 1] == Newline
  }

  /** What the file written for a width x height framebuffer p must be. */
  ghost predicate IsPpmOf(out: seq<byte>, width: nat, height: int, p: seq<byte>)
    requires 4 * width * RowCount(height) <= |p|
  {
    IsLayout(out, Header(width, height), width, RowCount(height), p)
  }
}
