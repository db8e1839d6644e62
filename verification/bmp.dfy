/** The byte stream Write produces: a 14-byte BITMAPFILEHEADER, a 40-byte
    BITMAPINFOHEADER (uncompressed, 24 bits per pixel), then the pixel rows from
    the bottom row up, each pixel as blue, green, red, each row padded with zero
    bytes to a multiple of 4. Encode is the layout stated field by field; Write
    follows the loops of the source and is proved to produce the same bytes. */
module Bmp {
  import opened Bytes
  import opened Pixels

  /** Size of the two headers together, which is also the pixel data offset. */
  const HeaderSize: int := 54
  const InfoHeaderSize: int := 40
  const BitsPerPixel: int := 24
  /** The C `int` holding paddedSize and the file size. */
  const IntMax: int := 0x7FFF_FFFF

  /** Zero bytes appended to each row so that its length 3*w becomes a multiple
      of 4 (the source computes 4 - (w*3) % 4 and maps 4 to 0; w is positive, so
      C's remainder agrees with Dafny's). */
  function ExtraBytes(w: int): (e: int)
    requires w > 0
    ensures 0 <= e <= 3
    ensures (3 * w + e) % 4 == 0
  {
    var e := 4 - (w * 3) % 4;
    var q := (w * 3) / 4;
    assert 3 * w == 4 * q + (w * 3) % 4;
    assert 3 * w + e == 4 * (q + 1);
    if e == 4 then 0 else e
  }

  /** Bytes per stored row, padding included. */
  function Stride(w: int): int
    requires w > 0
  {
    3 * w + ExtraBytes(w)
  }

  /** paddedSize: the pixel data length, which is also biSizeImage. */
  function PaddedSize(img: Image): int
    requires img.Valid()
  {
    Stride(img.w) * img.h
  }

  /** A valid image whose file size fits the C `int` the source computes it in. */
  predicate Fits(img: Image) {
    img.Valid() && HeaderSize + PaddedSize(img) <= IntMax
  }

  lemma FitsBounds(img: Image)
    requires Fits(img)
    ensures 0 < img.w < IntMax && 0 < img.h < IntMax && 0 < PaddedSize(img)
  {
    MulAtLeastFactors(Stride(img.w), img.h);
  }

  lemma MulNonNegative(a: int, b: int)
    requires a >= 0 && b >= 0
    ensures a * b >= 0
  {
  }

  lemma MulAtLeastFactors(a: int, b: int)
    requires a >= 1 && b >= 1
    ensures a * b >= a && a * b >= b
  {
    assert a * b == a + a * (b - 1);
    assert a * b == b + (a - 1) * b;
  }

  // ---------------------------------------------------------------------------
  // Reference layout

  /** The header words in the order the writer emits them; the slot of word 6
      (biPlanes and biBitCount, two 16-bit fields) is never assigned and its four
      bytes are written literally instead, so it is 0 here and never read. */
  function HeaderWords(img: Image): (r: seq<int>)
    requires Fits(img)
    ensures |r| == 13 && forall i :: 0 <= i < 13 ==> IsU32(r[i])
  {
    FitsBounds(img);
    var padded := PaddedSize(img);
    [ padded + HeaderSize,  // bfSize: the whole file
      0,                    // bfReserved1 and bfReserved2
      HeaderSize,           // bfOffBits: where the pixel data starts
      InfoHeaderSize,       // biSize
      img.w,                // biWidth
      img.h,                // biHeight
      0,                    // (biPlanes, biBitCount)
      0,                    // biCompression: none
      padded,               // biSizeImage
      0, 0,                 // biXPelsPerMeter, biYPelsPerMeter
      0, 0 ]                // biClrUsed, biClrImportant
  }

  /** Words written one after the other, each little-endian. */
  function Words(ws: seq<int>): (r: seq<Byte>)
    requires forall i :: 0 <= i < |ws| ==> IsU32(ws[i])
    ensures |r| == 4 * |ws|
    decreases |ws|
  {
    if |ws| == 0 then [] else Words(ws[..|ws| - 1]) + LE32(ws[|ws| - 1])
  }

  const Magic: seq<Byte> := ['B' as int, 'M' as int]
  const PlanesAndBitCount: seq<Byte> := [1, 0, BitsPerPixel, 0]

  /** The 54 header bytes: "BM", words 0 to 5, the planes (1) and bit count (24)
      as two little-endian 16-bit fields, words 7 to 12. */
  function Header(img: Image): (r: seq<Byte>)
    requires Fits(img)
    ensures |r| == HeaderSize
  {
    var ws := HeaderWords(img);
    Magic + Words(ws[..6]) + PlanesAndBitCount + Words(ws[7..])
  }

  /** A pixel row as blue, green, red triples, left to right. */
  function Bgr(row: seq<Color>): (r: seq<Byte>)
    ensures |r| == 3 * |row|
    decreases |row|
  {
    if |row| == 0 then []
    else
      var p := row[|row| - 1];
      Bgr(row[..|row| - 1]) + [p.b, p.g, p.r]
  }

  function Zeros(n: nat): (r: seq<Byte>)
    ensures |r| == n && forall i :: 0 <= i < n ==> r[i] == 0
  {
    seq(n, _ => 0)
  }

  /** One stored row: its pixels followed by the padding. */
  function RowBytes(row: seq<Color>, extra: nat): seq<Byte> {
    Bgr(row) + Zeros(extra)
  }

  /** The rows stored from the last in memory to the first. */
  function PixelRows(rows: seq<seq<Color>>, extra: nat): seq<Byte>
    decreases |rows|
  {
    if |rows| == 0 then [] else PixelRows(rows[1..], extra) + RowBytes(rows[0], extra)
  }

  /** The bytes Write() sends to the file: the 54 header bytes, then the rows
      from the last in memory to the first (EncodeLength: paddedSize bytes). */
  function Encode(img: Image): (e: seq<Byte>)
    requires Fits(img)
    ensures |e| >= HeaderSize && e[..HeaderSize] == Header(img)
  {
    Header(img) + PixelRows(img.cells, ExtraBytes(img.w))
  }

  /** Offset of in-memory row y in the stream. */
  function RowOffset(img: Image, y: int): (o: int)
    requires img.Valid() && 0 <= y < img.h
    ensures HeaderSize <= o
  {
    var rowsBelow, s := img.h - 1 - y, Stride(img.w);
    MulNonNegative(rowsBelow, s);
    HeaderSize + rowsBelow * s
  }

  // ---------------------------------------------------------------------------
  // Properties of the layout

  /** The row padding is the least number of bytes making the row length a
      multiple of 4. */
  lemma ExtraBytesLeast(w: int, e: int)
    requires w > 0 && 0 <= e && (3 * w + e) % 4 == 0
    ensures ExtraBytes(w) <= e
  {
  }

  /** Row padding for widths whose 3*w covers every remainder modulo 4. */
  lemma PaddingExamples()
    ensures ExtraBytes(1) == 1 && ExtraBytes(2) == 2 && ExtraBytes(3) == 3
    ensures ExtraBytes(4) == 0 && ExtraBytes(5) == 1 && ExtraBytes(85) == 1
  {
    assert (5 * 3) % 4 == 3;
    assert (85 * 3) % 4 == 3;
  }

  /** Pixel x of a row is stored at 3*x, 3*x + 1, 3*x + 2 as blue, green, red. */
  lemma {:induction false} BgrAt(row: seq<Color>, x: int)
    requires 0 <= x < |row|
    ensures Bgr(row)[3 * x] == row[x].b
    ensures Bgr(row)[3 * x + 1] == row[x].g
    ensures Bgr(row)[3 * x + 2] == row[x].r
    decreases |row|
  {
    var n := |row|;
    assert Bgr(row) == Bgr(row[..n - 1]) + [row[n - 1].b, row[n - 1].g, row[n - 1].r];
    if x < n - 1 {
      BgrAt(row[..n - 1], x);
      assert row[..n - 1][x] == row[x];
    }
  }

  predicate RowsOfWidth(rows: seq<seq<Color>>, w: int) {
    forall y :: 0 <= y < |rows| ==> |rows[y]| == w
  }

  lemma {:induction false} PixelRowsLength(rows: seq<seq<Color>>, extra: nat, w: nat)
    requires RowsOfWidth(rows, w)
    ensures |PixelRows(rows, extra)| == |rows| * (3 * w + extra)
    decreases |rows|
  {
    if |rows| > 0 {
      PixelRowsLength(rows[1..], extra, w);
      assert |rows| * (3 * w + extra) == (|rows| - 1) * (3 * w + extra) + (3 * w + extra);
    }
  }

  /** Row y of n, stored in reverse, starts (n - 1 - y) strides in and ends
      before the rows stored after it. */
  lemma RowOffsetBounds(n: int, y: int, s: int, k: int)
    requires 0 <= y < n && 0 <= k < s
    ensures 0 <= (n - 1 - y) * s
    ensures 1 <= y ==> (n - 1 - y) * s + k < (n - 1) * s
  {
    MulNonNegative(n - 1 - y, s);
    if 1 <= y {
      MulAtLeastFactors(y, s);
      MulSubDistributes(n - 1, y, s);
    }
  }

  lemma MulSubDistributes(a: int, b: int, s: int)
    ensures (a - b) * s == a * s - b * s
  {
  }

  /** Byte k of in-memory row y sits (|rows| - 1 - y) strides into the rows. */
  lemma {:induction false} PixelRowsAt(rows: seq<seq<Color>>, extra: nat, w: nat, y: int, k: int)
    requires RowsOfWidth(rows, w)
    requires 0 <= y < |rows| && 0 <= k < 3 * w + extra
    ensures 0 <= (|rows| - 1 - y) * (3 * w + extra) + k < |PixelRows(rows, extra)|
    ensures PixelRows(rows, extra)[(|rows| - 1 - y) * (3 * w + extra) + k] == RowBytes(rows[y], extra)[k]
    decreases |rows|
  {
    var s := 3 * w + extra;
    var n := |rows|;
    var o := (n - 1 - y) * s + k;
    var rest := PixelRows(rows[1..], extra);
    PixelRowsLength(rows[1..], extra, w);
    assert |rest| == (n - 1) * s;
    assert PixelRows(rows, extra) == rest + RowBytes(rows[0], extra);
    RowOffsetBounds(n, y, s, k);
    if y == 0 {
      assert o == |rest| + k;
    } else {
      PixelRowsAt(rows[1..], extra, w, y - 1, k);
      assert o == (|rows[1..]| - 1 - (y - 1)) * s + k;
      assert o < |rest|;
      assert rows[1..][y - 1] == rows[y];
    }
  }

  /** The stream is the 54 header bytes and then paddedSize bytes of pixel data. */
  lemma EncodeLength(img: Image)
    requires Fits(img)
    ensures |Encode(img)| == HeaderSize + PaddedSize(img)
  {
    PixelRowsLength(img.cells, ExtraBytes(img.w), img.w);
    assert img.h * Stride(img.w) == PaddedSize(img);
  }

  /** Word i of a run of words occupies bytes 4*i to 4*i + 3. */
  lemma {:induction false} WordsAt(ws: seq<int>, i: int)
    requires forall j :: 0 <= j < |ws| ==> IsU32(ws[j])
    requires 0 <= i < |ws|
    ensures Words(ws)[4 * i..4 * i + 4] == LE32(ws[i])
    decreases |ws|
  {
    var n := |ws|;
    var front := Words(ws[..n - 1]);
    assert Words(ws) == front + LE32(ws[n - 1]);
    if i < n - 1 {
      WordsAt(ws[..n - 1], i);
      assert ws[..n - 1][i] == ws[i];
      assert Words(ws)[4 * i..4 * i + 4] == front[4 * i..4 * i + 4];
    } else {
      assert |front| == 4 * i;
    }
  }

  /** Header word i (other than the planes/bit-count slot) occupies bytes
      2 + 4*i to 2 + 4*i + 3 of the header. */
  lemma HeaderSlot(img: Image, i: int)
    requires Fits(img) && 0 <= i < 13 && i != 6
    ensures Header(img)[2 + 4 * i..2 + 4 * i + 4] == LE32(HeaderWords(img)[i])
  {
    var ws := HeaderWords(img);
    if i < 6 {
      WordsAt(ws[..6], i);
    } else {
      WordsAt(ws[7..], i - 7);
    }
  }

  /** Header word i reads back from the header at offset 2 + 4*i. */
  lemma HeaderWordAt(img: Image, i: int)
    requires Fits(img) && 0 <= i < 13 && i != 6
    ensures ReadLE32(Header(img), 2 + 4 * i) == HeaderWords(img)[i]
  {
    HeaderSlot(img, i);
    ReadLE32At(Header(img), 2 + 4 * i, HeaderWords(img)[i]);
  }

  /** The file header fields: "BM", the file size, the reserved word and the
      offset of the pixel data. */
  lemma HeaderFileFields(img: Image)
    requires Fits(img)
    ensures var h := Header(img);
      && h[..2] == Magic
      && ReadLE32(h, 2) == HeaderSize + PaddedSize(img)
      && ReadLE32(h, 6) == 0 && ReadLE32(h, 10) == HeaderSize
  {
    assert Header(img)[..2] == Magic;
    HeaderWordAt(img, 0);
    HeaderWordAt(img, 1);
    HeaderWordAt(img, 2);
  }

  /** The info header fields up to the image size: its own size, width, height,
      one plane of 24 bits, no compression, and paddedSize. */
  lemma HeaderInfoFields(img: Image)
    requires Fits(img)
    ensures var h := Header(img);
      && ReadLE32(h, 14) == InfoHeaderSize
      && ReadLE32(h, 18) == img.w && ReadLE32(h, 22) == img.h
      && h[26..30] == PlanesAndBitCount
      && ReadLE32(h, 30) == 0 && ReadLE32(h, 34) == PaddedSize(img)
  {
    assert Header(img)[26..30] == PlanesAndBitCount;
    HeaderWordAt(img, 3);
    HeaderWordAt(img, 4);
    HeaderWordAt(img, 5);
    HeaderWordAt(img, 7);
    HeaderWordAt(img, 8);
  }

  /** The resolution and palette fields, the last 16 header bytes, are 0. */
  lemma HeaderTail(img: Image)
    requires Fits(img)
    ensures Header(img)[38..] == Zeros(16)
  {
    var h := Header(img);
    HeaderSlot(img, 9);
    HeaderSlot(img, 10);
    HeaderSlot(img, 11);
    HeaderSlot(img, 12);
    assert LE32(0) == [0, 0, 0, 0];
    assert h[38..] == h[38..42] + h[42..46] + h[46..50] + h[50..54];
  }

  /** Header word i reads back from the stream at offset 2 + 4*i. */
  lemma HeaderField(img: Image, i: int)
    requires Fits(img) && 0 <= i < 13 && i != 6
    ensures 2 + 4 * i + 4 <= |Encode(img)|
    ensures ReadLE32(Encode(img), 2 + 4 * i) == HeaderWords(img)[i]
  {
    var e, o := Encode(img), 2 + 4 * i;
    HeaderSlot(img, i);
    assert e[o..o + 4] == Header(img)[o..o + 4];
    ReadLE32At(e, o, HeaderWords(img)[i]);
  }

  /** The 14-byte file header read back from the stream: 'B', 'M', the file size
      equal to the stream length, both reserved fields 0, the pixel data offset 54. */
  lemma EncodeFileHeader(img: Image)
    requires Fits(img)
    ensures var e := Encode(img);
      && |e| == HeaderSize + PaddedSize(img)
      && e[0] == 'B' as int && e[1] == 'M' as int
      && ReadLE32(e, 2) == |e|
      && ReadLE32(e, 6) == 0
      && ReadLE32(e, 10) == HeaderSize
  {
    EncodeLength(img);
    var e := Encode(img);
    assert e[..2] == Header(img)[..2] == Magic;
    HeaderField(img, 0);
    HeaderField(img, 1);
    HeaderField(img, 2);
  }

  /** The first 24 bytes of the info header read back from the stream: its size
      40, the width, the height, one plane and 24 bits per pixel, no
      compression, and the image size paddedSize. */
  lemma EncodeInfoHeader(img: Image)
    requires Fits(img)
    ensures var e := Encode(img);
      && |e| >= HeaderSize
      && ReadLE32(e, 14) == InfoHeaderSize
      && ReadLE32(e, 18) == img.w
      && ReadLE32(e, 22) == img.h
      && e[26..30] == [1, 0, 24, 0]
      && ReadLE32(e, 30) == 0
      && ReadLE32(e, 34) == PaddedSize(img)
  {
    var e, h := Encode(img), Header(img);
    assert e[..HeaderSize] == h;
    assert e[26..30] == h[26..30] == PlanesAndBitCount;
    HeaderField(img, 3);
    HeaderField(img, 4);
    HeaderField(img, 5);
    HeaderField(img, 7);
    HeaderField(img, 8);
  }

  /** The last 16 header bytes (resolution and palette fields) are all 0. */
  lemma EncodeHeaderTail(img: Image)
    requires Fits(img)
    ensures var e := Encode(img);
      |e| >= HeaderSize && e[38..54] == Zeros(16)
  {
    var e, h := Encode(img), Header(img);
    HeaderTail(img);
    assert e[38..54] == h[38..];
  }

  /** Byte k of stored row y is at RowOffset(y) + k. */
  lemma EncodeRowByte(img: Image, y: int, k: int)
    requires Fits(img) && 0 <= y < img.h && 0 <= k < Stride(img.w)
    ensures RowOffset(img, y) + k < |Encode(img)|
    ensures Encode(img)[RowOffset(img, y) + k] == RowBytes(img.cells[y], ExtraBytes(img.w))[k]
  {
    var extra := ExtraBytes(img.w);
    var rows := PixelRows(img.cells, extra);
    var j := (img.h - 1 - y) * (3 * img.w + extra) + k;
    PixelRowsAt(img.cells, extra, img.w, y, k);
    assert RowOffset(img, y) + k == HeaderSize + j;
    ConcatAt(Header(img), rows, j);
  }

  lemma ConcatAt(a: seq<Byte>, b: seq<Byte>, j: int)
    requires 0 <= j < |b|
    ensures (a + b)[|a| + j] == b[j]
  {
  }

  /** In-memory pixel (x, y) is stored as blue, green, red at RowOffset(y) + 3*x. */
  lemma EncodePixel(img: Image, x: int, y: int)
    requires Fits(img) && img.InRange(x, y)
    ensures var e, o := Encode(img), RowOffset(img, y) + 3 * x;
      && o + 2 < |e|
      && e[o] == img.At(x, y).b && e[o + 1] == img.At(x, y).g && e[o + 2] == img.At(x, y).r
  {
    var row := img.cells[y];
    EncodeRowByte(img, y, 3 * x);
    EncodeRowByte(img, y, 3 * x + 1);
    EncodeRowByte(img, y, 3 * x + 2);
    BgrAt(row, x);
  }

  /** Every row ends with ExtraBytes(w) zero bytes, after its 3*w pixel bytes. */
  lemma EncodePadding(img: Image, y: int, k: int)
    requires Fits(img) && 0 <= y < img.h && 0 <= k < ExtraBytes(img.w)
    ensures var e, o := Encode(img), RowOffset(img, y) + 3 * img.w + k;
      o < |e| && e[o] == 0
  {
    EncodeRowByte(img, y, 3 * img.w + k);
  }

  /** A 2x2 black image is 54 + (2*3 + 2)*2 = 70 bytes, bit depth 24 at offset 28. */
  lemma SmallImageExample()
    ensures var img := Image(2, 2, [[Color(0, 0, 0), Color(0, 0, 0)], [Color(0, 0, 0), Color(0, 0, 0)]]);
      Fits(img) && |Encode(img)| == 70 && Encode(img)[28] == 24 && Encode(img)[..2] == Magic
  {
    var img := Image(2, 2, [[Color(0, 0, 0), Color(0, 0, 0)], [Color(0, 0, 0), Color(0, 0, 0)]]);
    assert ExtraBytes(2) == 2;
    EncodeLength(img);
  }

  // ---------------------------------------------------------------------------
  // The writer, loop for loop

  /** The inner loop of the header writer: each word as four bytes, least
      significant first. */
  method WriteWords(ws: seq<int>) returns (out: seq<Byte>)
    requires forall i :: 0 <= i < |ws| ==> IsU32(ws[i])
    ensures out == Words(ws)
  {
    out := [];
    var i := 0;
    while i < |ws|
      invariant 0 <= i <= |ws|
      invariant out == Words(ws[..i])
    {
      assert ws[..i + 1][..i] == ws[..i];
      out := out + LE32(ws[i]);
      i := i + 1;
    }
    assert ws[..i] == ws;
  }

  /** The header part of Write(): "BM", header words 0 to 5, the planes and bit
      count bytes, header words 7 to 12. */
  method WriteHeader(img: Image) returns (out: seq<Byte>)
    requires Fits(img)
    ensures |out| == HeaderSize && out[..2] == Magic
    ensures ReadLE32(out, 2) == HeaderSize + PaddedSize(img)
    ensures ReadLE32(out, 6) == 0 && ReadLE32(out, 10) == HeaderSize
    ensures ReadLE32(out, 14) == InfoHeaderSize
    ensures ReadLE32(out, 18) == img.w && ReadLE32(out, 22) == img.h
    ensures out[26..30] == PlanesAndBitCount
    ensures ReadLE32(out, 30) == 0 && ReadLE32(out, 34) == PaddedSize(img)
    ensures out[38..] == Zeros(16)
    ensures out == Header(img)
  {
    var headers := HeaderWords(img);
    var low := WriteWords(headers[..6]);
    var high := WriteWords(headers[7..]);
    out := Magic + low + PlanesAndBitCount + high;
    HeaderFileFields(img);
    HeaderInfoFields(img);
    HeaderTail(img);
  }

  /** One pass of the row loop of Write(): b, g, r for each pixel from left to
      right, then extra zero bytes. */
  method WriteRow(row: seq<Color>, extra: nat) returns (out: seq<Byte>)
    ensures out == RowBytes(row, extra)
  {
    out := [];
    var x := 0;
    while x < |row|
      invariant 0 <= x <= |row|
      invariant out == Bgr(row[..x])
    {
      assert row[..x + 1][..x] == row[..x];
      out := out + [row[x].b, row[x].g, row[x].r];
      x := x + 1;
    }
    assert row[..x] == row;
    if extra != 0 {
      var k := 1;
      while k <= extra
        invariant 1 <= k <= extra + 1
        invariant out == Bgr(row) + Zeros(k - 1)
      {
        assert Zeros(k) == Zeros(k - 1) + [0];
        out := out + [0];
        k := k + 1;
      }
    }
  }

  /** Write(): the headers, then rows y = h-1 down to 0, each as b, g, r per pixel
      followed by extraBytes zeros. Produces exactly Encode(img). */
  method Write(img: Image) returns (out: seq<Byte>)
    requires Fits(img)
    ensures out == Encode(img)
  {
    var extraBytes := ExtraBytes(img.w);
    out := WriteHeader(img);
    ghost var hd := out;
    var y := img.h - 1;
    while y >= 0
      invariant -1 <= y < img.h
      invariant out == hd + PixelRows(img.cells[y + 1..], extraBytes)
    {
      var rowBytes := WriteRow(img.cells[y], extraBytes);
      out := out + rowBytes;
      assert img.cells[y..][1..] == img.cells[y + 1..];
      assert out == hd + PixelRows(img.cells[y..], extraBytes);
      y := y - 1;
    }
    assert img.cells[0..] == img.cells;
  }
}
