# EasyBMP core in Dafny

A model of the header-only EasyBMP library: an in-memory RGB image, the two
rasterisers that draw on it (Bresenham lines and midpoint or filled circles),
and the serialiser that turns the image into the bytes of an uncompressed
24-bit Windows bitmap (a 14-byte BITMAPFILEHEADER, a 40-byte BITMAPINFOHEADER,
then rows bottom-to-top, each pixel as blue, green, red and each row padded
with zeros to a multiple of four bytes).

Modules, one per part of the library:

- `Bytes` (bytes.dfy): bytes as `int` in 0..255, and 32-bit little-endian
  words with both round trips.
- `Pixels` (pixels.dfy): `Color` (the library's `RGBColor`), `Image` (width,
  height and a row-major `seq<seq<Color>>`), construction, `SetPixel` and
  `Plot`, a clipped `SetPixel` applied to a sequence of points in order.
- `Bresenham` (bresenham.dfy): the point sequences of `DrawLineLow`,
  `DrawLineHigh` and the endpoint dispatch of `DrawLine`, with the
  decision-variable invariant that puts the last point on the far endpoint.
- `Midpoint` (midpoint.dfy): the filled scan of `DrawCircle` and the midpoint
  loop of its unfilled branch, with the loop invariant, termination measure and
  the eight-way symmetry of the points written.
- `Drawing` (drawing.dfy): `DrawLine` and `DrawCircle` on an image.
- `Bmp` (bmp.dfy): the reference byte layout `Encode` and the loop-by-loop
  writer `Write`, proved to produce exactly `Encode(img)`.

The library's `assert`s become a `Result`: a non-positive dimension at
construction is `Failure(InvalidDimension)`, and an out-of-range `SetPixel`
without the ignore flag, or an out-of-range circle centre, is
`Failure(OutOfRange)`. Coordinates and sizes are mathematical integers. The
writer requires `Fits(img)`: 54 plus the padded pixel-data size fits in a
signed 32-bit int, so no header field is truncated.

The row padding `extraBytes` is `4 - (3*width) % 4`, with 4
mapped to 0, which gives 1, 2, 3, 0, 1, 1 bytes for widths 1, 2, 3, 4, 5, 85.
It is the least padding that makes a row a multiple of four bytes
(`Bmp.ExtraBytesLeast`, `Bmp.PaddingExamples`).

## Model

| member | source | states |
|---|---|---|
| Pixels.Create | EasyBMP.hpp:122-143 | Construction fails exactly when width or height is not positive. Otherwise it yields a valid image of that size in which every cell is the background colour. |
| Pixels.CreateDefault | EasyBMP.hpp:93-130 | The constructors without a colour make an image in which every cell is white (255,255,255). They fail under the same dimension condition. |
| Pixels.SetPixel | EasyBMP.hpp:151-156 | Fails (OutOfRange) iff the ignore flag is off and (x,y) is outside the image. Out of range with the flag on, the image is unchanged. In range, only cell (x,y) changes and it becomes the colour. Dimensions never change. |
| Pixels.Plot | EasyBMP.hpp:151-156 | A clipped SetPixel applied to each point in turn. Each in-range cell is set to the colour if its point is in the sequence, and keeps its old value otherwise. |
| Pixels.ClipVersusAssert | EasyBMP.hpp:151-153 | For the same out-of-range point, clipping leaves the image unchanged and the asserting mode fails with OutOfRange. |
| Bresenham.Walk | EasyBMP.hpp:189-197 | The inner loop of DrawLineLow/DrawLineHigh plots one point per major coordinate from a to a1 inclusive. |
| Bresenham.WalkShape | EasyBMP.hpp:189-197 | Point i of the loop has major coordinate a+i. The first point has the starting minor coordinate. Between consecutive points the minor coordinate either stays or moves by the step (+1 or -1). |
| Bresenham.Octant | EasyBMP.hpp:179-219 | One call of DrawLineLow or DrawLineHigh plots a1-a0+1 points (none when a0>a1). Point i is at a0+i along the major axis, and the minor coordinate changes by at most 1 per step. |
| Bresenham.LineLow | EasyBMP.hpp:179-198 | DrawLineLow plots x1-x0+1 points with x = x0+i. Consecutive y values differ by at most 1. |
| Bresenham.LineHigh | EasyBMP.hpp:200-219 | DrawLineHigh plots y1-y0+1 points with y = y0+i. Consecutive x values differ by at most 1. |
| Bresenham.ShallowLine | EasyBMP.hpp:161-167 | For a shallow line, after the endpoint swap, there is one point per x from the smaller x upward, abs(x1-x0)+1 in all, and y moves by at most 1 per step. |
| Bresenham.SteepLine | EasyBMP.hpp:169-175 | For a steep line, after the endpoint swap, there is one point per y from the smaller y upward, abs(y1-y0)+1 in all, and x moves by at most 1 per step. |
| Bresenham.Line | EasyBMP.hpp:159-177 | DrawLine plots max(abs(dx),abs(dy))+1 points, one per unit step along the dominant axis starting at the smaller coordinate. The minor coordinate moves by at most 1 per step. |
| Bresenham.InvariantStep | EasyBMP.hpp:191-196 | One update of the decision value D keeps the loop invariant. After i steps with k minor moves, D = 2(i·db − k·da) + 2db − da, and the plotted point's scaled offset from the ideal line stays bounded: −da ≤ 2(i·db − k·da) ≤ da. |
| Bresenham.InvariantEnd | EasyBMP.hpp:188-197 | When the invariant holds after all da steps, the minor coordinate has moved exactly db times. |
| Bresenham.WalkLast | EasyBMP.hpp:189-197 | The last point's minor coordinate is the starting one moved by the number of times D was positive. |
| Bresenham.MovesAtEndValue | EasyBMP.hpp:188-197 | From any state satisfying the invariant, the minor coordinate moves exactly db times in total by the end of the loop. |
| Bresenham.OctantEnds | EasyBMP.hpp:179-219 | When the minor extent does not exceed the major extent, DrawLineLow/High starts on (x0,y0) and ends exactly on (x1,y1). |
| Bresenham.LineEnds | EasyBMP.hpp:159-219 | Both endpoints are plotted, and the point sequence runs from one endpoint to the other. |
| Bresenham.LineSymmetric | EasyBMP.hpp:159-177 | Swapping the endpoints yields the same point sequence. |
| Drawing.DrawLine | EasyBMP.hpp:159-219 | The image keeps its shape. Every in-range cell whose point is on the Bresenham line takes the colour, and every other cell keeps its value. In particular an in-range endpoint is always painted. |
| Drawing.DrawLineSymmetric | EasyBMP.hpp:159-177 | Drawing from (x0,y0) to (x1,y1) and drawing from (x1,y1) to (x0,y0) give the same image. |
| Midpoint.SqIsProduct | EasyBMP.hpp:226-229 | The squaring used in the model equals v*v, the product the filled scan computes. |
| Midpoint.ColumnMembers | EasyBMP.hpp:228-235 | The inner scan over dy writes exactly the points of column x0+dx with dy in range and dx²+dy² <= r². |
| Midpoint.RowsMembers | EasyBMP.hpp:227-236 | The outer scan from dx onwards writes exactly the points whose x offset is at least dx and whose offset is in the disk. |
| Midpoint.Disk | EasyBMP.hpp:225-237 | The filled scan's writes, in order. A point is among them iff its offset from the centre is InDisk: in the box [-r,r]² and dx²+dy² <= r². |
| Midpoint.DiskMembers | EasyBMP.hpp:225-237 | The filled scan writes point (x,y) iff abs(x-x0) <= r, abs(y-y0) <= r and (x-x0)²+(y-y0)² <= r². |
| Midpoint.DiskIsSquaredDistance | EasyBMP.hpp:225-237 | For r >= 0 the filled scan writes exactly the lattice points (x0+dx, y0+dy) with dx²+dy² <= r². |
| Midpoint.Step | EasyBMP.hpp:256-266 | Each iteration increments y or decrements x (and never the reverse), so x - y decreases and the loop terminates. |
| Midpoint.Visit | EasyBMP.hpp:246-266 | The octant points at the loop head. The loop is not entered iff x < y; otherwise it runs at most x - y + 1 times. |
| Midpoint.StartInv | EasyBMP.hpp:240-244 | The initial state x=r-1, y=0, dx=dy=1, err=1-2r satisfies the loop invariant: dy=2y+1, dx=2(r-1-x)+1, err=x²+y²-r². |
| Midpoint.StepInv | EasyBMP.hpp:246-266 | An iteration entered with x >= y keeps the invariant and advances y by exactly 1. |
| Midpoint.HeadBounds | EasyBMP.hpp:246-254 | At the head of each iteration the octant point lies inside the circle, x²+y² <= r², and within one pixel of it, (x+1)²+y² >= r². |
| Midpoint.VisitBounds | EasyBMP.hpp:246-266 | Point i visited from a state has y = start y + i and lies on the octant arc: x >= y >= 0 with x²+y² <= r² <= (x+1)²+y². |
| Midpoint.OctantBounds | EasyBMP.hpp:240-267 | The octant points of the whole loop are (x, i) for i = 0, 1, ..., each on the arc with x >= y >= 0. |
| Midpoint.Eight | EasyBMP.hpp:247-254 | The eight writes of one iteration. Every one is at an image (±x,±y) or (±y,±x) of the octant point. |
| Midpoint.Spread | EasyBMP.hpp:246-266 | The loop writes eight points per iteration. |
| Midpoint.Outline | EasyBMP.hpp:240-267 | The unfilled branch's writes, in order: eight per octant point. Nothing is written iff r <= 0. |
| Midpoint.SpreadMembers | EasyBMP.hpp:246-254 | A point is written by the loop iff it is one of the eight images of some octant point. |
| Midpoint.EightMembers | EasyBMP.hpp:247-254 | The eight writes of one iteration are the images (±x,±y) and (±y,±x) of the octant point. |
| Midpoint.OutlineMembers | EasyBMP.hpp:240-267 | An offset (a,b) from the centre is written iff it is one of the eight images of some octant point of the loop. |
| Midpoint.OutlineSymmetric | EasyBMP.hpp:247-254 | The written outline is closed under mirroring in x, mirroring in y and swapping the axes. |
| Midpoint.OutlineOnCircle | EasyBMP.hpp:240-267 | Every written offset (a,b) satisfies a²+b² <= r² and lies within one pixel of the circle in x or in y. It is therefore also a point of the filled disk. |
| Midpoint.OutlineInDisk | EasyBMP.hpp:240-267 | Every point the unfilled branch writes is within distance r of the centre. |
| Drawing.DrawCircle | EasyBMP.hpp:221-269 | Fails (OutOfRange) iff the centre is outside the image, and keeps the shape otherwise. Filled, the cells that take the colour are exactly those whose offset from the centre satisfies InDisk (squared distance at most r² when r >= 0; none when r < 0), and all others are unchanged. Unfilled, exactly the in-range cells whose point is in the midpoint outline are set to the colour, all others keep their value, and every cell that changes lies in that disk. |
| Drawing.FilledCell | EasyBMP.hpp:225-237 | The filled scan sets a cell to the colour if its offset from the centre is in the disk, and leaves it unchanged otherwise. |
| Drawing.OutlineCell | EasyBMP.hpp:238-267 | A cell changed by the unfilled branch has the colour and lies inside the disk. |
| Bytes.LE32 | EasyBMP.hpp:334-339 | The four bytes the header loop writes for a word, least significant first. Their little-endian value is the word. |
| Bytes.ReadWriteLE32 | EasyBMP.hpp:334-339 | Reading back the four little-endian bytes written for a 32-bit value gives the value. |
| Bytes.WriteReadLE32 | EasyBMP.hpp:334-339 | Re-encoding a 32-bit value read from four bytes reproduces those bytes. |
| Bmp.ExtraBytes | EasyBMP.hpp:296-302 | The row padding is in 0..3 and makes 3·width + padding a multiple of 4. |
| Bmp.ExtraBytesLeast | EasyBMP.hpp:296-302 | Any padding that makes a row a multiple of 4 bytes is at least extraBytes, so the padding is the least one possible. |
| Bmp.PaddingExamples | EasyBMP.hpp:296-302 | Widths 1, 2, 3, 4, 5 and 85 are padded by 1, 2, 3, 0, 1 and 1 bytes. |
| Bmp.Words | EasyBMP.hpp:334-350 | The header word loops: four bytes per word, 4·(number of words) in all. WordsAt gives the offsets. |
| Bmp.WordsAt | EasyBMP.hpp:334-350 | Word i occupies bytes 4i..4i+3, least significant byte first. |
| Bmp.Header | EasyBMP.hpp:332-350 | The 54 header bytes: 'B','M', words 0-5, the bytes 1,0,24,0, words 7-12. HeaderFileFields, HeaderInfoFields and HeaderTail give the fields. |
| Bmp.Bgr | EasyBMP.hpp:360-363 | The pixel loop of one row: three bytes per pixel. BgrAt gives the order. |
| Bmp.BgrAt | EasyBMP.hpp:360-363 | Pixel x of a row occupies bytes 3x, 3x+1, 3x+2 as blue, green, red. |
| Bmp.PixelRows | EasyBMP.hpp:359-370 | The row loop from the last in-memory row to the first. PixelRowsLength and PixelRowsAt give its length and offsets. |
| Bmp.PixelRowsLength | EasyBMP.hpp:359-370 | Rows of equal width w take (3w + extraBytes) bytes each. |
| Bmp.PixelRowsAt | EasyBMP.hpp:359-370 | Byte k of in-memory row y is at (rows−1−y)·(3w + extraBytes) + k of the pixel data. |
| Bmp.Encode | EasyBMP.hpp:284-370 | The byte stream of Write: it begins with the 54 header bytes, whose fields the header lemmas fix, followed by the pixel rows from the last in memory to the first. |
| Bmp.EncodeLength | EasyBMP.hpp:304-370 | The stream is 54 + paddedSize bytes long, where paddedSize = (3·width + extraBytes)·height. |
| Bmp.HeaderWords | EasyBMP.hpp:309-325 | The 13 header words in emission order (file size, reserved, data offset, 40, width, height, the unassigned planes/bit-count slot, compression, paddedSize, four zeros). Each fits in 32 bits. |
| Bmp.HeaderWordAt | EasyBMP.hpp:334-350 | Each assigned header word reads back little-endian from the header at offset 2+4i. |
| Bmp.HeaderFileFields | EasyBMP.hpp:309-339 | The header starts 'B','M', then holds the file size 54 + paddedSize, the reserved word 0 and the data offset 54. |
| Bmp.HeaderInfoFields | EasyBMP.hpp:314-350 | The header holds 40, width, height, the bytes 1,0,24,0, compression 0 and paddedSize at offsets 14, 18, 22, 26, 30 and 34. |
| Bmp.HeaderTail | EasyBMP.hpp:322-350 | The last 16 header bytes (resolutions and palette counts) are 0. |
| Bmp.HeaderSlot | EasyBMP.hpp:309-350 | Every assigned header word except word 6 is written at offset 2+4i as its four little-endian bytes. |
| Bmp.EncodeFileHeader | EasyBMP.hpp:309-339 | Bytes 0-1 are 'B','M'. Bytes 2-5 hold the stream length. Bytes 6-9 are 0. Bytes 10-13 hold 54. |
| Bmp.EncodeInfoHeader | EasyBMP.hpp:314-350 | Bytes 14-17 hold 40 and bytes 18-21 and 22-25 hold width and height. Bytes 26-29 are exactly 1,0,24,0. Bytes 30-33 are 0 and bytes 34-37 hold paddedSize. |
| Bmp.EncodeHeaderTail | EasyBMP.hpp:322-350 | Bytes 38-53 (resolutions and palette counts) are all 0. |
| Bmp.EncodeRowByte | EasyBMP.hpp:359-370 | In-memory row y starts at offset 54 + (height-1-y)·(3·width + extraBytes) and holds that row's bytes. |
| Bmp.EncodePixel | EasyBMP.hpp:359-366 | Pixel (x,y) occupies 3 bytes at its row's offset + 3x, in the order blue, green, red. |
| Bmp.EncodePadding | EasyBMP.hpp:367-369 | Each row ends with extraBytes zero bytes. |
| Bmp.SmallImageExample | EasyBMP.hpp:284-370 | A 2×2 image encodes to 70 bytes starting with 'B','M', and byte 28 is the bit count 24. |
| Bmp.WriteWords | EasyBMP.hpp:334-339 | The header loop writes each word as its four little-endian bytes, in order. |
| Bmp.WriteHeader | EasyBMP.hpp:332-350 | The header writing code emits 54 bytes: 'B','M'; the file size 54 + paddedSize at 2; 0 at 6; 54 at 10; 40 at 14; width at 18 and height at 22; the bytes 1,0,24,0 at 26; 0 at 30; paddedSize at 34; zeros from 38 to 53. |
| Bmp.WriteRow | EasyBMP.hpp:360-369 | Writing one row produces its pixels as blue, green, red followed by extraBytes zero bytes. |
| Bmp.Write | EasyBMP.hpp:284-373 | Write's byte stream, rows written bottom-to-top, is exactly the reference layout Encode(img). |

## Left out

- File output: the file name (`SetFileName`, `Write(name)`), opening and closing the `ofstream`, and its failure are I/O plumbing. Write is modelled as the byte sequence it sends to the stream.
- Allocation failure is not modelled: the source prints a message to `std::cerr` and aborts via `assert(false)`. The destructor and the row-pointer allocation are not modelled either. The only other `std::cerr` message reports a file that cannot be opened, which belongs to file output above.
- The `RGBColor` default constructor and copy operations are not modelled separately; a colour is a value of three bytes.
- Bmp.Write: requires Fits(img), that 54 + paddedSize fits in a signed 32-bit int. The source's unsigned 32-bit header words and its int arithmetic are not modelled past that bound.
- Drawing.DrawLine: coordinates are unbounded integers, so the 64-bit overflow of `int64_t` arithmetic on extreme coordinates is not modelled.
- Drawing.DrawCircle: r is an unbounded integer. The 64-bit overflow of r*r is not modelled, and neither is the left shift of a negative r, which the model treats as 2r.
- Header word 6 (biPlanes and biBitCount) is never assigned in the source; its bytes are written literally as 1,0,24,0, so the model keeps it as 0 and never reads it.
- With NDEBUG set, the source's asserts disappear and an out-of-range write would touch memory outside the buffer. The model keeps the asserts as failures.
- There is no bitmap reader in the library, so there is no decoder and no decode/encode round trip here.
- sample.cpp is a demonstration driver that uses a random number generator and writes a file. It has no logic of its own.
