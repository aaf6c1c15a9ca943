/** What the file `writePPM` writes is, byte by byte. */
module PpmProperties {
  import opened Decimal
  import opened Ppm

  /** Output pixel x of a scanline is bytes 0..2 of input pixel x. */
  lemma {:induction false} RowRgbPixel(p: seq<byte>, base: nat, n: nat, x: nat)
    requires base + 4 * n <= |p|
    requires x < n
    ensures RowRgb(p, base, n)[3 * x .. 3 * x + 3] == p[base + 4 * x .. base + 4 * x + 3]
  {
    var prefix := RowRgb(p, base, n - 1);
    if x < n - 1 {
      RowRgbPixel(p, base, n - 1, x);
      assert RowRgb(p, base, n)[3 * x .. 3 * x + 3] == prefix[3 * x .. 3 * x + 3];
    } else {
      assert RowRgb(p, base, n)[3 * x .. 3 * x + 3] == RowRgb(p, base, n)[|prefix| ..];
    }
  }

  /** Line y of lines of a common length len sits at bytes len*y .. len*y+len. */
  lemma {:induction false} FlattenBlock(lines: seq<seq<byte>>, len: nat, y: nat)
    requires forall i :: 0 <= i < |lines| ==> |lines[i]| == len
    requires y < |lines|
    ensures len * y + len <= |Flatten(lines)|
    ensures Flatten(lines)[len * y .. len * y + len] == lines[y]
  {
    var init := lines[..|lines| - 1];
    FlattenLength(lines, len);
    FlattenLength(init, len);
    MulSucc(len, y);
    MulMono(len, y + 1, |lines|);
    if y < |lines| - 1 {
      FlattenBlock(init, len, y);
      MulMono(len, y + 1, |init|);
      assert Flatten(lines)[len * y .. len * y + len] == Flatten(init)[len * y .. len * y + len];
    } else {
      assert len * y == |Flatten(init)|;
    }
  }

  /** The values y takes, in order, in `for (; y < height; y++)` started at y. */
  function Passes(y: int, height: int): seq<int>
    decreases height - y
  {
    if y < height then [y] + Passes(y + 1, height) else []
  }

  /** From a start y >= 0, the loop passes through y, y+1, ... up to height-1. */
  lemma {:induction false} PassesFrom(y: nat, height: int)
    ensures |Passes(y, height)| == if y < height then height - y else 0
    ensures forall i :: 0 <= i < |Passes(y, height)| ==> Passes(y, height)[i] == y + i
    decreases height - y
  {
    if y < height {
      PassesFrom(y + 1, height);
    }
  }

  /** The outer loop makes RowCount(height) passes, y = 0, 1, ..., none when height <= 0. */
  lemma RowCountIsPassCount(height: int)
    ensures |Passes(0, height)| == RowCount(height)
    ensures forall i :: 0 <= i < RowCount(height) ==> Passes(0, height)[i] == i
  {
    PassesFrom(0, height);
  }

  /** Output scanlines 0..y are scanlines 0..y-1 followed by the RGB of buffer row rows-1-y. */
  lemma ScanlinesStep(p: seq<byte>, w: nat, rows: nat, y: nat, r: nat)
    requires 4 * w * rows <= |p|
    requires y < rows && r == rows - 1 - y
    ensures RowStart(w, r) + 4 * w <= |p|
    ensures Written(p, w, rows, y + 1) == Written(p, w, rows, y) + RowRgb(p, RowStart(w, r), w)
  {
    var lines := Scanlines(p, w, rows);
    RowFits(w, r, rows);
    assert lines[..y + 1][..y] == lines[..y];
    assert lines[y] == InputRow(p, w, rows, r);
  }

  /** Once every scanline is written, the closing newline completes the file. */
  lemma WrittenAll(width: nat, height: int, p: seq<byte>)
    requires 4 * width * RowCount(height) <= |p|
    ensures Encode(width, height, p)
            == Header(width, height) + Written(p, width, RowCount(height), RowCount(height)) + [Newline]
  {
    var lines := Scanlines(p, width, RowCount(height));
    assert lines[..RowCount(height)] == lines;
  }

  /** Pixel offsets distribute over the row/column split. */
  lemma OffsetsSplit(w: nat, y: nat, x: nat)
    ensures 3 * (w * y + x) == 3 * w * y + 3 * x
    ensures 4 * (w * y + x) == 4 * w * y + 4 * x
  {
  }

  /** Output pixel x of buffer row r's scanline is bytes 0..2 of that row's pixel x. */
  lemma InputRowBytes(p: seq<byte>, w: nat, rows: nat, r: nat, x: nat)
    requires 4 * w * rows <= |p|
    requires r < rows && x < w
    ensures InputRow(p, w, rows, r)[3 * x .. 3 * x + 3]
            == p[InOffset(w, rows, r, x) .. InOffset(w, rows, r, x) + 3]
  {
    RowFits(w, r, rows);
    OffsetsSplit(w, r, x);
    RowRgbPixel(p, RowStart(w, r), w, x);
  }

  /** A slice taken inside a slice is a slice of the whole sequence. */
  lemma SliceOfSlice(s: seq<byte>, a: nat, len: nat, c: nat, n: nat)
    requires a + len <= |s| && c + n <= len
    ensures s[a .. a + len][c .. c + n] == s[a + c .. a + c + n]
  {
    var t := s[a .. a + len][c .. c + n];
    var u := s[a + c .. a + c + n];
    forall i | 0 <= i < n
      ensures t[i] == u[i]
    {
    }
  }

  /** Output pixel (x, y) of the payload is the RGB of pixel x of buffer row rows-1-y. */
  lemma PayloadPixel(p: seq<byte>, w: nat, rows: nat, y: nat, x: nat)
    requires 4 * w * rows <= |p|
    requires y < rows && x < w
    ensures |Flatten(Scanlines(p, w, rows))| == 3 * w * rows
    ensures Flatten(Scanlines(p, w, rows))[OutOffset(w, rows, y, x) .. OutOffset(w, rows, y, x) + 3]
            == p[InOffset(w, rows, rows - 1 - y, x) .. InOffset(w, rows, rows - 1 - y, x) + 3]
  {
    var lines := Scanlines(p, w, rows);
    var payload := Flatten(lines);
    var lineLen := 3 * w;
    var start := lineLen * y;
    MulNat(lineLen, y);
    FlattenLength(lines, lineLen);
    FlattenBlock(lines, lineLen, y);
    OffsetsSplit(w, y, x);
    assert lines[y] == InputRow(p, w, rows, rows - 1 - y);
    InputRowBytes(p, w, rows, rows - 1 - y, x);
    SliceOfSlice(payload, start, lineLen, 3 * x, 3);
  }

  /** Any header followed by the flipped scanlines and a newline has the layout `IsLayout` describes. */
  lemma ConcatIsLayout(h: seq<byte>, w: nat, rows: nat, p: seq<byte>)
    requires 4 * w * rows <= |p|
    ensures IsLayout(h + Flatten(Scanlines(p, w, rows)) + [Newline], h, w, rows, p)
  {
    var payload := Flatten(Scanlines(p, w, rows));
    var out := h + payload + [Newline];
    FlattenLength(Scanlines(p, w, rows), 3 * w);
    assert out[..|h|] == h;
    forall y: nat, x: nat | y < rows && x < w
      ensures out[|h| + OutOffset(w, rows, y, x) .. |h| + OutOffset(w, rows, y, x) + 3]
              == p[InOffset(w, rows, rows - 1 - y, x) .. InOffset(w, rows, rows - 1 - y, x) + 3]
    {
      var o := OutOffset(w, rows, y, x);
      PayloadPixel(p, w, rows, y, x);
      assert out[|h| + o .. |h| + o + 3] == payload[o .. o + 3];
    }
  }

  /** The file `Encode` produces has the shape `IsPpmOf` describes. */
  lemma EncodeIsPpm(width: nat, height: int, p: seq<byte>)
    requires 4 * width * RowCount(height) <= |p|
    ensures IsPpmOf(Encode(width, height, p), width, height, p)
  {
    ConcatIsLayout(Header(width, height), width, RowCount(height), p);
  }

  /** Every payload byte j falls inside the RGB triple of some output pixel (x, y). */
  lemma PayloadCover(w: nat, rows: nat, j: nat) returns (y: nat, x: nat)
    requires j < 3 * w * rows
    ensures y < rows && x < w
    ensures OutOffset(w, rows, y, x) <= j < OutOffset(w, rows, y, x) + 3
  {
    assert w > 0;
    var k := j / 3;
    y := k / w;
    x := k % w;
    assert k == w * y + x;
    if y >= rows {
      MulMono(w, rows, y);
      assert false;
    }
  }

  /** No payload byte lies in the RGB triples of two different output pixels. */
  lemma PixelUnique(w: nat, rows: nat, j: nat, y1: nat, x1: nat, y2: nat, x2: nat)
    requires y1 < rows && x1 < w && y2 < rows && x2 < w
    requires OutOffset(w, rows, y1, x1) <= j < OutOffset(w, rows, y1, x1) + 3
    requires OutOffset(w, rows, y2, x2) <= j < OutOffset(w, rows, y2, x2) + 3
    ensures y1 == y2 && x1 == x2
  {
    var k1 := w * y1 + x1;
    var k2 := w * y2 + x2;
    assert OutOffset(w, rows, y1, x1) == 3 * k1;
    assert OutOffset(w, rows, y2, x2) == 3 * k2;
    assert k1 == k2;
    if y1 < y2 {
      MulMono(w, y1 + 1, y2);
      MulSucc(w, y1);
      assert false;
    } else if y2 < y1 {
      MulMono(w, y2 + 1, y1);
      MulSucc(w, y2);
      assert false;
    }
  }

  /** Two files holding the same flipped pixels agree on every payload byte. */
  lemma PayloadByteDetermined(a: seq<byte>, b: seq<byte>, at: nat, w: nat, rows: nat, p: seq<byte>, j: nat)
    requires at + 3 * w * rows <= |a| && at + 3 * w * rows <= |b| && 4 * w * rows <= |p|
    requires PixelsFlipped(a, at, w, rows, p) && PixelsFlipped(b, at, w, rows, p)
    requires j < 3 * w * rows
    ensures a[at + j] == b[at + j]
  {
    var y, x := PayloadCover(w, rows, j);
    var o := at + OutOffset(w, rows, y, x);
    var i := InOffset(w, rows, rows - 1 - y, x);
    assert a[o .. o + 3] == p[i .. i + 3] == b[o .. o + 3];
    assert a[at + j] == a[o .. o + 3][at + j - o];
    assert b[at + j] == b[o .. o + 3][at + j - o];
  }

  /** Two sequences that both start with h agree on h's positions. */
  lemma SamePrefix(a: seq<byte>, b: seq<byte>, h: seq<byte>)
    requires |h| <= |a| && |h| <= |b|
    requires a[..|h|] == h && b[..|h|] == h
    ensures forall i :: 0 <= i < |h| ==> a[i] == b[i]
  {
  }

  /** Two files of the same layout, for the same header and input, are equal. */
  lemma LayoutIsUnique(a: seq<byte>, b: seq<byte>, h: seq<byte>, w: nat, rows: nat, p: seq<byte>)
    requires 4 * w * rows <= |p|
    requires IsLayout(a, h, w, rows, p) && IsLayout(b, h, w, rows, p)
    ensures a == b
  {
    var n := |h|;
    SamePrefix(a, b, h);
    forall i | n <= i < |a|
      ensures a[i] == b[i]
    {
      if i < |a| - 1 {
        PayloadByteDetermined(a, b, n, w, rows, p, i - n);
      }
    }
  }

  /** Two files of the shape `IsPpmOf` describes, for the same input, are equal. */
  lemma PpmIsUnique(a: seq<byte>, b: seq<byte>, width: nat, height: int, p: seq<byte>)
    requires 4 * width * RowCount(height) <= |p|
    requires IsPpmOf(a, width, height, p) && IsPpmOf(b, width, height, p)
    ensures a == b
  {
    LayoutIsUnique(a, b, Header(width, height), width, RowCount(height), p);
  }

  /** `Encode` is the one file of the shape `IsPpmOf` describes. */
  lemma PpmIffEncode(out: seq<byte>, width: nat, height: int, p: seq<byte>)
    requires 4 * width * RowCount(height) <= |p|
    ensures IsPpmOf(out, width, height, p) <==> out == Encode(width, height, p)
  {
    EncodeIsPpm(width, height, p);
    if IsPpmOf(out, width, height, p) {
      PpmIsUnique(out, Encode(width, height, p), width, height, p);
    }
  }

  /** Buffers equal outside every fourth byte agree on bytes 0..2 of the pixel at i. */
  lemma RgbAgrees(p: seq<byte>, q: seq<byte>, n: nat, i: nat)
    requires n <= |p| && n <= |q| && i + 4 <= n && i % 4 == 0
    requires forall j :: 0 <= j < n && j % 4 != 3 ==> p[j] == q[j]
    ensures p[i .. i + 3] == q[i .. i + 3]
  {
  }

  /** Framebuffers equal outside the fourth byte of each pixel flip to the same pixels. */
  lemma PixelsFlippedIgnoresAlpha(out: seq<byte>, at: nat, w: nat, rows: nat, p: seq<byte>, q: seq<byte>)
    requires at + 3 * w * rows <= |out| && 4 * w * rows <= |p| && 4 * w * rows <= |q|
    requires forall i :: 0 <= i < 4 * w * rows && i % 4 != 3 ==> p[i] == q[i]
    requires PixelsFlipped(out, at, w, rows, p)
    ensures PixelsFlipped(out, at, w, rows, q)
  {
    forall y: nat, x: nat | y < rows && x < w
      ensures out[at + OutOffset(w, rows, y, x) .. at + OutOffset(w, rows, y, x) + 3]
              == q[InOffset(w, rows, rows - 1 - y, x) .. InOffset(w, rows, rows - 1 - y, x) + 3]
    {
      RgbAgrees(p, q, 4 * w * rows, InOffset(w, rows, rows - 1 - y, x));
    }
  }

  /**
    The fourth byte of every pixel is never copied: framebuffers that differ
    only there give the same file.
   */
  lemma AlphaIgnored(width: nat, height: int, p: seq<byte>, q: seq<byte>)
    requires 4 * width * RowCount(height) <= |p| && 4 * width * RowCount(height) <= |q|
    requires forall i :: 0 <= i < 4 * width * RowCount(height) && i % 4 != 3 ==> p[i] == q[i]
    ensures Encode(width, height, p) == Encode(width, height, q)
  {
    var out := Encode(width, height, p);
    EncodeIsPpm(width, height, p);
    var h := Header(width, height);
    PixelsFlippedIgnoresAlpha(out, |h|, width, RowCount(height), p, q);
    assert IsLayout(out, h, width, RowCount(height), q);
    PpmIffEncode(out, width, height, q);
  }

  /** ASCII encoding distributes over concatenation. */
  lemma {:induction false} AsciiConcat(s: string, t: string)
    requires IsAscii(s) && IsAscii(t)
    ensures IsAscii(s + t)
    ensures Ascii(s + t) == Ascii(s) + Ascii(t)
  {
  }

  /** Different ASCII strings encode to different bytes. */
  lemma AsciiInjective(s: string, t: string)
    requires IsAscii(s) && IsAscii(t)
    requires Ascii(s) == Ascii(t)
    ensures s == t
  {
    forall i | 0 <= i < |s|
      ensures s[i] == t[i]
    {
      assert Ascii(s)[i] == Ascii(t)[i];
    }
  }

  /** `%i` text holds neither a space nor a newline. */
  lemma IntToStringHasNoSeparator(n: int)
    ensures forall i :: 0 <= i < |IntToString(n)| ==> IntToString(n)[i] != ' ' && IntToString(n)[i] != '\n'
  {
  }

  /** The byte right after a in a + " " + b is the space. */
  lemma SpaceAfter(a: string, b: string)
    ensures (a + " " + b)[|a|] == ' '
  {
  }

  /** A string joined by one space to another splits back at the first space. */
  lemma SplitAtSpace(a: string, b: string, c: string, d: string)
    requires forall i :: 0 <= i < |a| ==> a[i] != ' '
    requires forall i :: 0 <= i < |c| ==> c[i] != ' '
    requires a + " " + b == c + " " + d
    ensures a == c && b == d
  {
    var s := a + " " + b;
    if |a| < |c| {
      SpaceAfter(a, b);
      assert false;
    } else if |c| < |a| {
      SpaceAfter(c, d);
      assert false;
    }
    assert a == s[..|a|] == c;
    assert b == s[|a| + 1..] == d;
  }

  /** The header text is ASCII, and the header is its byte encoding. */
  lemma HeaderTextIsAscii(width: nat, height: int)
    ensures IsAscii(HeaderText(width, height))
    ensures Header(width, height) == Ascii(HeaderText(width, height))
  {
    IntToStringIsAscii(width);
    IntToStringIsAscii(height);
  }

  /** The header is the concatenation of the ASCII bytes of its five parts. */
  lemma HeaderConcat(width: nat, height: int)
    ensures IsAscii(IntToString(width)) && IsAscii(IntToString(height))
    ensures Header(width, height)
            == Ascii("P6\n") + Ascii(IntToString(width)) + Ascii(" ") + Ascii(IntToString(height)) + Ascii("\n255\n")
  {
    var w := IntToString(width);
    var ht := IntToString(height);
    IntToStringIsAscii(width);
    IntToStringIsAscii(height);
    HeaderTextIsAscii(width, height);
    AsciiConcat("P6\n", w);
    AsciiConcat("P6\n" + w, " ");
    AsciiConcat("P6\n" + w + " ", ht);
    AsciiConcat("P6\n" + w + " " + ht, "\n255\n");
  }

  /** The header starts with the bytes of "P6\n" and ends with those of "\n255\n". */
  lemma HeaderParts(width: nat, height: int)
    ensures Header(width, height)[..3] == [80, 54, 10]
    ensures Header(width, height)[|Header(width, height)| - 5..] == [10, 50, 53, 53, 10]
  {
    HeaderConcat(width, height);
    AsciiFrame();
    FrameSlices(Ascii("P6\n"), Ascii(IntToString(width)) + Ascii(" ") + Ascii(IntToString(height)), Ascii("\n255\n"));
  }

  /** The bytes of the fixed text around the two numbers. */
  lemma AsciiFrame()
    ensures Ascii("P6\n") == [80, 54, 10]
    ensures Ascii("\n255\n") == [10, 50, 53, 53, 10]
  {
  }

  /** In head + middle + tail, the first |head| and last |tail| bytes are head and tail. */
  lemma FrameSlices(head: seq<byte>, middle: seq<byte>, tail: seq<byte>)
    ensures (head + middle + tail)[..|head|] == head
    ensures (head + middle + tail)[|head + middle + tail| - |tail|..] == tail
  {
  }

  /** The header text frames its two fields in a way that can be undone. */
  lemma HeaderFieldsSplit(a1: string, b1: string, a2: string, b2: string)
    requires forall i :: 0 <= i < |a1| ==> a1[i] != ' '
    requires forall i :: 0 <= i < |a2| ==> a2[i] != ' '
    requires "P6\n" + a1 + " " + b1 + "\n255\n" == "P6\n" + a2 + " " + b2 + "\n255\n"
    ensures a1 == a2 && b1 == b2
  {
    var t1 := "P6\n" + a1 + " " + b1 + "\n255\n";
    var t2 := "P6\n" + a2 + " " + b2 + "\n255\n";
    assert a1 + " " + b1 == t1[3 .. |t1| - 5];
    assert a2 + " " + b2 == t2[3 .. |t2| - 5];
    SplitAtSpace(a1, b1, a2, b2);
  }

  /** The header text determines the width and height it was written for. */
  lemma HeaderTextInjective(w1: nat, h1: int, w2: nat, h2: int)
    requires HeaderText(w1, h1) == HeaderText(w2, h2)
    ensures w1 == w2 && h1 == h2
  {
    IntToStringHasNoSeparator(w1);
    IntToStringHasNoSeparator(w2);
    HeaderFieldsSplit(IntToString(w1), IntToString(h1), IntToString(w2), IntToString(h2));
    IntToStringInjective(w1, w2);
    IntToStringInjective(h1, h2);
  }

  /** The header determines the width and height it was written for. */
  lemma HeaderInjective(w1: nat, h1: int, w2: nat, h2: int)
    requires Header(w1, h1) == Header(w2, h2)
    ensures w1 == w2 && h1 == h2
  {
    HeaderTextIsAscii(w1, h1);
    HeaderTextIsAscii(w2, h2);
    AsciiInjective(HeaderText(w1, h1), HeaderText(w2, h2));
    HeaderTextInjective(w1, h1, w2, h2);
  }
}
