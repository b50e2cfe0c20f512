/**
 * Unpacking of V4L2's packed 4:2:2 YUYV layout, as done by the YUYV branch
 * of webcam.go `frameToImage` and, with the same loop, by main.go
 * `encodeToImage`. Every 4-byte group Y0 Cb Y1 Cr of the frame becomes two
 * luma samples and one sample of each chroma plane of an
 * `image.NewYCbCr(image.Rect(0, 0, w, h), YCbCrSubsampleRatio422)`.
 */
module Yuyv {
  import opened Imaging

  /** Chroma plane width of a 4:2:2 image over x in [0, w). */
  function ChromaWidth(w: nat): nat { (w + 1) / 2 }

  /** Samples in each chroma plane, and so the number of 4-byte groups the loop reads. */
  function Groups(w: nat, h: nat): nat { ChromaWidth(w) * h }

  /**
   * The loop writes `Y[2i + 1]` for every chroma index `i`; that stays inside
   * the `w * h` luma plane exactly when the width is even or the image empty.
   */
  predicate Unpackable(w: nat, h: nat) { w % 2 == 0 || h == 0 }

  lemma LumaIsTwiceChroma(w: nat, h: nat)
    requires Unpackable(w, h)
    ensures w * h == 2 * Groups(w, h)
  {
    if h != 0 {
      assert ChromaWidth(w) * 2 == w;
      calc {
        2 * Groups(w, h);
      == 2 * (ChromaWidth(w) * h);
      == (ChromaWidth(w) * 2) * h;
      == w * h;
      }
    }
  }

  /** The index mapping of the unpack loop, for every chroma index. */
  ghost predicate UnpackedFrom(frame: seq<Byte>, img: YCbCr)
  {
    && |img.y| == 2 * |img.cb|
    && |img.cr| == |img.cb|
    && |frame| >= 4 * |img.cb|
    && forall i :: 0 <= i < |img.cb| ==>
         && img.y[2 * i] == frame[4 * i]
         && img.y[2 * i + 1] == frame[4 * i + 2]
         && img.cb[i] == frame[4 * i + 1]
         && img.cr[i] == frame[4 * i + 3]
  }

  /** The image the YUYV loop produces, in closed form: luma sample `k` is frame byte `2k`. */
  function Unpacked(frame: seq<Byte>, w: nat, h: nat): (img: YCbCr)
    requires Unpackable(w, h) && |frame| >= 4 * Groups(w, h)
    ensures img.Valid() && img.rect == Rect(0, 0, w, h)
    ensures UnpackedFrom(frame, img)
  {
    LumaIsTwiceChroma(w, h);
    var n := Groups(w, h);
    YCbCr(Rect(0, 0, w, h), w,
          seq(w * h, k requires 0 <= k < w * h => frame[2 * k]),
          ChromaWidth(w),
          seq(n, i requires 0 <= i < n => frame[4 * i + 1]),
          seq(n, i requires 0 <= i < n => frame[4 * i + 3]))
  }

  /** Two images that both come from the frame by the YUYV mapping, over the same rectangle, are equal. */
  lemma UnpackedIsUnique(frame: seq<Byte>, w: nat, h: nat, img: YCbCr)
    requires Unpackable(w, h) && |frame| >= 4 * Groups(w, h)
    requires UnpackedFrom(frame, img) && img.rect == Rect(0, 0, w, h)
    requires img.cStride == ChromaWidth(w) && |img.cb| == Groups(w, h) && img.yStride == w
    ensures img == Unpacked(frame, w, h)
  {
    var u := Unpacked(frame, w, h);
    LumaIsTwiceChroma(w, h);
    forall k | 0 <= k < |img.y|
      ensures img.y[k] == u.y[k]
    {
      assert u.y[k] == frame[2 * k];
      if k % 2 == 0 {
        assert img.y[2 * (k / 2)] == frame[4 * (k / 2)];
      } else {
        assert img.y[2 * (k / 2) + 1] == frame[4 * (k / 2) + 2];
      }
    }
  }

  /**
   * The unpack loop. Go panics with an index out of range when the width is
   * odd (and the image not empty) or the frame is shorter than four bytes per
   * chroma sample; those are the preconditions.
   */
  method Unpack(frame: seq<Byte>, w: nat, h: nat) returns (img: YCbCr)
    requires Unpackable(w, h)
    requires |frame| >= 4 * Groups(w, h)
    ensures img.Valid() && img.rect == Rect(0, 0, w, h)
    ensures img.cStride == ChromaWidth(w) && |img.cb| == Groups(w, h)
    ensures UnpackedFrom(frame, img)
    ensures img == Unpacked(frame, w, h)
  {
    var n := Groups(w, h);
    LumaIsTwiceChroma(w, h);
    var y := new Byte[w * h](_ => 0);
    var cb := new Byte[n](_ => 0);
    var cr := new Byte[n](_ => 0);
    for i := 0 to n
      invariant forall k :: 0 <= k < i ==>
        && y[2 * k] == frame[4 * k]
        && y[2 * k + 1] == frame[4 * k + 2]
        && cb[k] == frame[4 * k + 1]
        && cr[k] == frame[4 * k + 3]
    {
      var ii := i * 4;
      y[i * 2] := frame[ii];
      y[i * 2 + 1] := frame[ii + 2];
      cb[i] := frame[ii + 1];
      cr[i] := frame[ii + 3];
    }
    img := YCbCr(Rect(0, 0, w, h), w, y[..], ChromaWidth(w), cb[..], cr[..]);
    UnpackedIsUnique(frame, w, h, img);
  }

  /** The inverse of unpacking: the planes laid out again as Y0 Cb Y1 Cr groups. */
  function Interleave(y: seq<Byte>, cb: seq<Byte>, cr: seq<Byte>): (r: seq<Byte>)
    requires |y| == 2 * |cb| && |cr| == |cb|
    ensures |r| == 4 * |cb|
    decreases |cb|
  {
    if cb == [] then []
    else [y[0], cb[0], y[1], cr[0]] + Interleave(y[2..], cb[1..], cr[1..])
  }

  lemma {:induction false} InterleaveAt(y: seq<Byte>, cb: seq<Byte>, cr: seq<Byte>, i: nat)
    requires |y| == 2 * |cb| && |cr| == |cb| && i < |cb|
    ensures Interleave(y, cb, cr)[4 * i] == y[2 * i]
    ensures Interleave(y, cb, cr)[4 * i + 1] == cb[i]
    ensures Interleave(y, cb, cr)[4 * i + 2] == y[2 * i + 1]
    ensures Interleave(y, cb, cr)[4 * i + 3] == cr[i]
    decreases i
  {
    if i > 0 {
      InterleaveAt(y[2..], cb[1..], cr[1..], i - 1);
    }
  }

  /** Re-interleaving the unpacked planes gives back the frame's first `4 * |Cb|` bytes. */
  lemma UnpackRoundTrip(frame: seq<Byte>, img: YCbCr)
    requires UnpackedFrom(frame, img)
    ensures Interleave(img.y, img.cb, img.cr) == frame[..4 * |img.cb|]
  {
    var r := Interleave(img.y, img.cb, img.cr);
    forall j | 0 <= j < |r|
      ensures r[j] == frame[j]
    {
      InterleaveAt(img.y, img.cb, img.cr, j / 4);
    }
  }

  /** And the other way: planes that are interleaved unpack to themselves. */
  lemma InterleaveUnpacks(img: YCbCr)
    requires |img.y| == 2 * |img.cb| && |img.cr| == |img.cb|
    ensures UnpackedFrom(Interleave(img.y, img.cb, img.cr), img)
  {
    forall i | 0 <= i < |img.cb|
      ensures var f := Interleave(img.y, img.cb, img.cr);
        img.y[2 * i] == f[4 * i] && img.y[2 * i + 1] == f[4 * i + 2] && img.cb[i] == f[4 * i + 1] && img.cr[i] == f[4 * i + 3]
    {
      InterleaveAt(img.y, img.cb, img.cr, i);
    }
  }
}
