/**
 * What the capture device and the codecs hand back to the core, as values:
 * the pixel-format codes both programs accept, the outcome of waiting for
 * and reading a frame, and the outcome of decoding a JPEG. The V4L2 calls
 * and the codecs themselves are not part of this model; their results are
 * inputs.
 */
module Device {
  import opened Imaging

  /** `webcam.PixelFormat`, a V4L2 fourcc code (a `uint32`). */
  type PixelFormat = f: nat | f < Two32

  /** Fourcc 'YUYV' and 'MJPG', little-endian. */
  const FmtYUYV: PixelFormat := 0x56595559
  const FmtMJPEG: PixelFormat := 0x47504a4d

  /** The `supportedFormats` table: a lookup of any other code yields false. */
  predicate Supported(f: PixelFormat)
  {
    f == FmtYUYV || f == FmtMJPEG
  }

  /** What `WaitForFrame` returns: nil, a `*webcam.Timeout`, or another error. */
  datatype Wait = Ready | Timeout | WaitError

  /** What `ReadFrame` returns: the frame bytes, or an error. */
  datatype Read = Frame(bytes: seq<Byte>) | ReadError

  /** What `jpeg.Decode` yields, seen through the `*image.YCbCr` type assertion: a YCbCr image, an image of another colour model (gray, CMYK), or an error. */
  datatype Decoded = DecodedYCbCr(img: YCbCr) | DecodedOther | DecodeError
}
