/**
 * main.go's capture loop and its `encodeToImage` goroutine: one round of
 * waiting for and reading a frame, and the encoder's reused frame buffer
 * with the YUYV unpack or the MJPEG pass-through that follows it.
 */
module Capture {
  import opened Imaging
  import opened Wrappers
  import opened Device
  import opened Yuyv

  /** How one round of `main`'s capture loop ends. */
  datatype CaptureStep =
    | Exit             // `return` from `main`
    | Retry            // `continue` after a timeout
    | Skip             // a zero-length frame: nothing is handed on
    | Deliver(frame: seq<Byte>)   // offered to the encoder (dropped if it is busy)

  /**
   * One round of the loop. Any error from `WaitForFrame` returns at the
   * first check, so the type switch after it only ever sees nil: its
   * timeout branch cannot be reached, and a timeout ends the program.
   */
  function CaptureRound(wait: Wait, read: Read): (r: CaptureStep)
    ensures r != Retry
    ensures wait != Ready ==> r == Exit
    ensures r == Exit <==> wait != Ready || read.ReadError?
    ensures r == Skip <==> wait == Ready && read.Frame? && |read.bytes| == 0
    ensures r.Deliver? <==> wait == Ready && read.Frame? && |read.bytes| > 0
    ensures r.Deliver? ==> r.frame == read.bytes
  {
    if wait != Ready then Exit
    else
      match wait
      case Timeout => Retry
      case WaitError => Exit
      case Ready =>
        match read
        case ReadError => Exit
        case Frame(bytes) => if |bytes| == 0 then Skip else Deliver(bytes)
  }

  /**
   * The encoder's buffer after `bframe` is copied in: it is reallocated to
   * `len(bframe)` only when too short, and otherwise keeps whatever it held
   * beyond the new frame.
   */
  function Reused(buf: seq<Byte>, bframe: seq<Byte>): (r: seq<Byte>)
    ensures |r| == if |buf| < |bframe| then |bframe| else |buf|
    ensures r[..|bframe|] == bframe
    ensures r[|bframe|..] == if |buf| < |bframe| then [] else buf[|bframe|..]
  {
    if |buf| < |bframe| then bframe else bframe + buf[|bframe|..]
  }

  /** After a long frame, a shorter one leaves the long one's tail in the buffer. */
  lemma StaleTail()
    ensures Reused(Reused([], [1, 2, 3, 4]), [5, 6]) == [5, 6, 3, 4]
  {
    assert Reused([], [1, 2, 3, 4]) == [1, 2, 3, 4];
    assert [1, 2, 3, 4][2..] == [3, 4];
  }

  /** The buffer after a run of frames, starting from `buf`. */
  function LoadAll(buf: seq<Byte>, frames: seq<seq<Byte>>): seq<Byte>
    decreases |frames|
  {
    if |frames| == 0 then buf else Reused(LoadAll(buf, frames[..|frames| - 1]), frames[|frames| - 1])
  }

  /** Once the buffer has grown, it never shrinks, and it holds the latest frame at its front. */
  lemma {:induction false} BufferHoldsLongestFrame(buf: seq<Byte>, frames: seq<seq<Byte>>)
    ensures |LoadAll(buf, frames)| >= |buf|
    ensures forall k :: 0 <= k < |frames| ==> |LoadAll(buf, frames)| >= |frames[k]|
    ensures |frames| > 0 ==> LoadAll(buf, frames)[..|frames[|frames| - 1]|] == frames[|frames| - 1]
    decreases |frames|
  {
    if |frames| > 0 {
      BufferHoldsLongestFrame(buf, frames[..|frames| - 1]);
      assert forall k :: 0 <= k < |frames| - 1 ==> frames[..|frames| - 1][k] == frames[k];
    }
  }

  /** What `encodeToImage` hands to the HTTP clients, or the `log.Fatal` that ends the program. */
  datatype Encoded = Broadcast(payload: seq<Byte>) | Fatal

  /**
   * The state `encodeToImage` keeps from one frame to the next: the reused
   * `frame` buffer, and the image parameters it was started with.
   */
  class Encoder {
    var frame: array<Byte>
    const w: nat
    const h: nat
    const format: PixelFormat

    constructor (w: nat, h: nat, format: PixelFormat)
      ensures frame.Length == 0 && this.w == w && this.h == h && this.format == format
    {
      frame := new Byte[0];
      this.w := w;
      this.h := h;
      this.format := format;
    }

    /** `if len(frame) < len(bframe) { frame = make(...) }; copy(frame, bframe)`. */
    method Load(bframe: seq<Byte>)
      modifies this, frame
      ensures frame[..] == Reused(old(frame[..]), bframe)
      ensures old(frame.Length) < |bframe| ==> fresh(frame)
      ensures old(frame.Length) >= |bframe| ==> frame == old(frame)
    {
      var buf := frame;
      if buf.Length < |bframe| {
        buf := new Byte[|bframe|](_ => 0);
        frame := buf;
      }
      ghost var before := buf[..];
      for k := 0 to |bframe|
        invariant frame == buf && buf.Length >= |bframe|
        invariant buf == old(frame) || fresh(buf)
        invariant forall j :: 0 <= j < k ==> buf[j] == bframe[j]
        invariant forall j :: k <= j < buf.Length ==> buf[j] == before[j]
      {
        buf[k] := bframe[k];
      }
      assert buf[..|bframe|] == bframe;
      assert buf[|bframe|..] == before[|bframe|..];
      assert buf[..] == buf[..|bframe|] + buf[|bframe|..];
    }

    /**
     * One iteration of `encodeToImage`: copy the frame in, then either
     * unpack the whole buffer as YUYV and JPEG-encode it, or hand on the
     * whole buffer as the MJPEG image (stale tail included); any other
     * format, or an encoding error, is fatal. The unpack panics when the
     * buffer is short of the image, hence the precondition.
     */
    method Process(bframe: seq<Byte>, encode: YCbCr -> Option<seq<Byte>>) returns (out: Encoded)
      requires format == FmtYUYV ==>
        Unpackable(w, h) && (if frame.Length < |bframe| then |bframe| else frame.Length) >= 4 * Groups(w, h)
      modifies this, frame
      ensures frame[..] == Reused(old(frame[..]), bframe)
      ensures format == FmtYUYV ==>
        out == match encode(Unpacked(frame[..], w, h)) case Some(jpeg) => Broadcast(jpeg) case None => Fatal
      ensures format == FmtMJPEG ==> out == Broadcast(frame[..])
      ensures !Supported(format) ==> out == Fatal
    {
      Load(bframe);
      if format == FmtYUYV {
        var img := Unpack(frame[..], w, h);
        var encoded := encode(img);
        if encoded.None? {
          return Fatal;
        }
        return Broadcast(encoded.value);
      } else if format == FmtMJPEG {
        return Broadcast(frame[..]);
      }
      return Fatal;
    }
  }
}
