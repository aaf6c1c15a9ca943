/**
  `writePPM` as the source writes it: the header, then for each output
  scanline a pass over its pixels that fills a line buffer of 3*width bytes
  (allocated once, reused for every line), which is appended to the file;
  then the closing newline. The framebuffer is read-only (`const uint32_t *`
  in the source), so it is an immutable sequence; the line buffer is the one
  array the methods write. The scanlines are collected into `payload`, and the
  file is the header, the payload and the newline: the same bytes, in the same
  order, that the source hands to `fprintf` and `fwrite`.
 */
module PpmWriter {
  import opened Ppm
  import opened PpmProperties

  /** The inner loop: bytes 0..2 of each of the `width` pixels from `inBase` on, into `out`. */
  method CopyRgb(pixel: seq<byte>, inBase: nat, width: nat, out: array<byte>)
    requires inBase + 4 * width <= |pixel|
    requires out.Length == 3 * width
    modifies out
    ensures out[..] == RowRgb(pixel, inBase, width)
  {
    var x := 0;
    while x < width
      invariant 0 <= x <= width
      invariant out[..3 * x] == RowRgb(pixel, inBase, x)
    {
      out[3 * x + 0] := pixel[inBase + 4 * x + 0];
      out[3 * x + 1] := pixel[inBase + 4 * x + 1];
      out[3 * x + 2] := pixel[inBase + 4 * x + 2];
      assert out[..3 * (x + 1)] == out[..3 * x] + pixel[inBase + 4 * x .. inBase + 4 * x + 3];
      x := x + 1;
    }
    assert out[..] == out[..3 * width];
  }

  /** One pass of the outer loop: output scanline y, which is buffer row rows-1-y, goes through the line buffer. */
  method WriteScanline(pixel: seq<byte>, width: nat, rows: nat, y: nat, out: array<byte>, written: seq<byte>)
    returns (more: seq<byte>)
    requires 4 * width * rows <= |pixel| && y < rows
    requires out.Length == 3 * width
    requires written == Written(pixel, width, rows, y)
    modifies out
    ensures more == Written(pixel, width, rows, y + 1)
  {
    var r := rows - 1 - y;
    ScanlinesStep(pixel, width, rows, y, r);
    CopyRgb(pixel, RowStart(width, r), width, out);
    more := written + out[..];
  }

  /** The file written for a width x height framebuffer, one scanline at a time. */
  method WritePpm(width: nat, height: int, pixel: seq<byte>) returns (file: seq<byte>)
    requires 4 * width * RowCount(height) <= |pixel|
    ensures file == Encode(width, height, pixel)
  {
    var rows := RowCount(height);
    var header := Header(width, height);
    var out := new byte[3 * width];
    var payload := [];
    var y := 0;
    while y < height
      invariant 0 <= y <= rows
      invariant fresh(out) && out.Length == 3 * width
      invariant payload == Written(pixel, width, rows, y)
    {
      payload := WriteScanline(pixel, width, rows, y, out, payload);
      y := y + 1;
    }
    WrittenAll(width, height, pixel);
    file := header + payload + [Newline];
  }
}
