/**
 * Byte-level helpers and the parts of Go's `image` package the core relies on:
 * rectangles, 8-bit samples, the uint8/uint32 conversions and the 4:2:2 YCbCr
 * image whose luma plane the background model reads.
 */
module Imaging {

  /** An 8-bit sample (Go's `uint8`). */
  type Byte = b: int | 0 <= b < 256

  /** Go's `uint8(x)` conversion of an `int`: two's-complement truncation. */
  function Uint8(x: int): (r: Byte)
    ensures 0 <= x < 256 ==> r == x
    ensures (r - x) % 256 == 0
  {
    x % 256
  }

  /** Go's `uint32` arithmetic: every result is reduced modulo 2^32. */
  const Two32: int := 0x1_0000_0000

  function Uint32(x: int): (r: nat)
    ensures r < Two32
    ensures 0 <= x < Two32 ==> r == x
  {
    x % Two32
  }

  function Abs(x: int): (r: nat)
    ensures r == x || r == -x
  {
    if x < 0 then -x else x
  }

  /** Go's `image.Rectangle`: the half-open box [minX, maxX) x [minY, maxY). */
  datatype Rect = Rect(minX: int, minY: int, maxX: int, maxY: int)
  {
    /** `image.NewGray` and `image.NewYCbCr` panic on negative dimensions. */
    predicate WellFormed() { minX <= maxX && minY <= maxY }

    function Dx(): nat requires WellFormed() { maxX - minX }

    function Dy(): nat requires WellFormed() { maxY - minY }

    /** `image.Point.In`: the half-open membership test. */
    predicate Contains(x: int, y: int) { minX <= x < maxX && minY <= y < maxY }
  }

  lemma MulMonotone(a: nat, b: nat, c: nat)
    requires a <= b
    ensures a * c <= b * c
  {
    assert b * c == a * c + (b - a) * c;
  }

  /**
   * Row-major addressing with a stride: when the last sample of the last row
   * is inside the plane, so is every sample of the `height` x `width` box.
   */
  lemma RowMajorIndex(row: nat, col: nat, stride: nat, width: nat, height: nat, length: nat)
    requires row < height && col < width
    requires (height - 1) * stride + width <= length
    ensures row * stride + col < length
  {
    MulMonotone(row, height - 1, stride);
  }

  /**
   * Go's `*image.YCbCr` restricted to what the core reads: the rectangle,
   * the luma plane with its stride, and the two chroma planes.
   */
  datatype YCbCr = YCbCr(rect: Rect, yStride: nat, y: seq<Byte>, cStride: nat, cb: seq<Byte>, cr: seq<Byte>)
  {
    /**
     * Every point of the rectangle addresses a sample of the luma plane. The
     * stride may exceed the width and the plane may run past the last row,
     * as in the sub-image `jpeg.Decode` returns for a size that is not a
     * multiple of the MCU.
     */
    predicate Valid() {
      && rect.WellFormed()
      && (rect.Dx() == 0 || rect.Dy() == 0 || (rect.Dy() - 1) * yStride + rect.Dx() <= |y|)
    }

    /** `YOffset`: the index of the luma sample of a point, relative to the rectangle's corner. */
    function YOffset(x: int, yy: int): int
      requires rect.WellFormed()
    {
      (yy - rect.minY) * yStride + (x - rect.minX)
    }

    /** The luma sample of `YCbCrAt(x, y)`; a point outside the rectangle reads as zero. */
    function LumaAt(x: int, yy: int): (r: Byte)
      requires Valid()
      ensures !rect.Contains(x, yy) ==> r == 0
    {
      if rect.Contains(x, yy) then
        RowMajorIndex(yy - rect.minY, x - rect.minX, yStride, rect.Dx(), rect.Dy(), |y|);
        y[YOffset(x, yy)]
      else 0
    }
  }

  /** `Valid` is exactly the condition under which no point of the rectangle reads past the luma plane. */
  lemma ValidIffInBounds(img: YCbCr)
    requires img.rect.WellFormed()
    ensures img.Valid() <==> forall x, yy :: img.rect.Contains(x, yy) ==> 0 <= img.YOffset(x, yy) < |img.y|
  {
    var r := img.rect;
    if img.Valid() {
      forall x, yy | r.Contains(x, yy)
        ensures 0 <= img.YOffset(x, yy) < |img.y|
      {
        RowMajorIndex(yy - r.minY, x - r.minX, img.yStride, r.Dx(), r.Dy(), |img.y|);
      }
    } else {
      assert r.Contains(r.maxX - 1, r.maxY - 1);
    }
  }

  /** A 2 x 1 image stored with a stride of 16, as the decoder pads it, is accepted. */
  lemma PaddedStrideIsValid()
    ensures YCbCr(Rect(0, 0, 2, 1), 16, seq(16, _ => 0), 8, seq(8, _ => 0), seq(8, _ => 0)).Valid()
  {
  }
}
