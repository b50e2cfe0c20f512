/**
 * webcam.go: turning a captured frame into an image (`frameToImage`),
 * into a JPEG (`encodeToJPEG`), and fanning frames out to subscribers
 * (`Run`, `Subscribe`, `Unsubscribe`).
 *
 * The subscriber channels are modelled sequentially: each subscriber owns
 * a capacity-1 slot, a publish offers every slot a private copy of the
 * frame without blocking, and a full slot keeps the frame it holds.
 */
module Webcam {
  import opened Imaging
  import opened Wrappers
  import opened Device
  import opened Yuyv
  import opened MotionDht

  /** The errors the two conversions return. */
  datatype FrameError =
    | NotYUV          // "not YUV image": the decoded JPEG is not `*image.YCbCr`, or did not decode
    | UnknownFormat   // "unknown format", from `frameToImage`
    | InvalidFormat   // "invalid format ?", from `encodeToJPEG`
    | EncodeFailed    // the error of `jpeg.Encode`

  /**
   * `frameToImage`. YUYV frames are unpacked and returned with the frame
   * itself; MJPEG frames get the Huffman tables spliced in, are decoded, and
   * anything but a YCbCr image (a decode error included) is "not YUV image";
   * any other format is "unknown format". Go panics on a YUYV frame that is
   * too short for the image and on an MJPEG frame without an SOS marker;
   * those are the preconditions.
   */
  method FrameToImage(frame: seq<Byte>, w: nat, h: nat, format: PixelFormat, decode: seq<Byte> -> Decoded)
    returns (r: Result<(YCbCr, seq<Byte>), FrameError>)
    requires format == FmtYUYV ==> Unpackable(w, h) && |frame| >= 4 * Groups(w, h)
    requires format == FmtMJPEG ==> |Split(frame)| >= 2
    ensures format == FmtYUYV ==> r == Ok((Unpacked(frame, w, h), frame))
    ensures format == FmtMJPEG ==>
      var spliced := AddMotionDht(frame);
      r == match decode(spliced)
           case DecodedYCbCr(img) => Ok((img, spliced))
           case _ => Err(NotYUV)
    ensures !Supported(format) ==> r == Err(UnknownFormat)
  {
    if format == FmtYUYV {
      var img := Unpack(frame, w, h);
      return Ok((img, frame));
    } else if format == FmtMJPEG {
      var spliced := AddMotionDht(frame);
      var decoded := decode(spliced);
      if !decoded.DecodedYCbCr? {
        return Err(NotYUV);
      }
      return Ok((decoded.img, spliced));
    }
    return Err(UnknownFormat);
  }

  /**
   * `encodeToJPEG`: a YUYV frame is unpacked and JPEG-encoded; an MJPEG
   * frame already is a JPEG stream and is returned byte for byte; any other
   * format is an error.
   */
  method EncodeToJpeg(frame: seq<Byte>, w: nat, h: nat, format: PixelFormat, encode: YCbCr -> Option<seq<Byte>>)
    returns (r: Result<seq<Byte>, FrameError>)
    requires format == FmtYUYV ==> Unpackable(w, h) && |frame| >= 4 * Groups(w, h)
    ensures format == FmtYUYV ==>
      r == match encode(Unpacked(frame, w, h))
           case Some(jpeg) => Ok(jpeg)
           case None => Err(EncodeFailed)
    ensures format == FmtMJPEG ==> r == Ok(frame)
    ensures !Supported(format) ==> r == Err(InvalidFormat)
  {
    if format == FmtYUYV {
      // the decoder is not consulted on the YUYV branch, and that branch of
      // `frameToImage` always succeeds, so its error check never fires
      var converted := FrameToImage(frame, w, h, format, _ => DecodeError);
      var img := converted.value.0;
      var encoded := encode(img);
      if encoded.None? {
        return Err(EncodeFailed);
      }
      return Ok(encoded.value);
    } else if format == FmtMJPEG {
      return Ok(frame);
    }
    return Err(InvalidFormat);
  }

  // ---------------------------------------------------------------------
  // Subscribers
  // ---------------------------------------------------------------------

  /** A subscriber's `chan []byte`, identified by the order `Subscribe` made it in. */
  type Channel = nat

  /** The buffer of a capacity-1 channel: empty, or holding one frame. */
  type Slot = Option<seq<Byte>>

  /** A non-blocking send: an empty slot takes the frame, a full one keeps what it has. */
  function Offer(slot: Slot, frame: seq<Byte>): Slot
  {
    if slot.None? then Some(frame) else slot
  }

  /**
   * The slots after one publish of `frame`: a zero-length frame reaches no
   * one; otherwise every empty slot receives the frame and every full slot
   * keeps its older frame. No subscriber is added or removed.
   */
  function Published(subs: map<Channel, Slot>, frame: seq<Byte>): (r: map<Channel, Slot>)
    ensures r.Keys == subs.Keys
    ensures |frame| == 0 ==> r == subs
    ensures |frame| > 0 ==> forall ch :: ch in subs ==>
      && (subs[ch].None? ==> r[ch] == Some(frame))
      && (subs[ch].Some? ==> r[ch] == subs[ch])
  {
    if |frame| == 0 then subs else map ch | ch in subs :: Offer(subs[ch], frame)
  }

  /** A subscriber whose slot is still full when the next frame arrives misses that frame. */
  lemma FullSlotDropsNextFrame(subs: map<Channel, Slot>, first: seq<Byte>, second: seq<Byte>)
    requires |first| > 0
    ensures Published(Published(subs, first), second) == Published(subs, first)
  {
    var once := Published(subs, first);
    var twice := Published(once, second);
    assert forall ch :: ch in twice ==> twice[ch] == once[ch];
  }

  /** A subscriber that has just subscribed receives the next non-empty frame; the others are as without it. */
  lemma NewSubscriberReceives(subs: map<Channel, Slot>, ch: Channel, frame: seq<Byte>)
    requires ch !in subs && |frame| > 0
    ensures Published(subs[ch := None], frame) == Published(subs, frame)[ch := Some(frame)]
  {
    var with := Published(subs[ch := None], frame);
    var without := Published(subs, frame)[ch := Some(frame)];
    assert with.Keys == without.Keys;
    assert forall c :: c in with ==> with[c] == without[c];
  }

  /** How one default round of `Run` ends: go round again, or return an error. */
  datatype RunStep = Continue | Stop(err: RunError)

  datatype RunError = WaitFailed | ReadFailed

  /**
   * The outcome of a capture round of `Run`: a timeout is logged and retried,
   * any other wait error or a read error ends the loop, and a frame that was
   * read continues it.
   */
  function RoundOutcome(wait: Wait, read: Read): (r: RunStep)
    ensures r == Continue <==> wait == Timeout || (wait == Ready && read.Frame?)
    ensures wait == WaitError ==> r == Stop(WaitFailed)
    ensures wait == Ready && read == ReadError ==> r == Stop(ReadFailed)
  {
    match wait
    case Ready => if read.ReadError? then Stop(ReadFailed) else Continue
    case Timeout => Continue
    case WaitError => Stop(WaitFailed)
  }

  /**
   * The subscriber registry of the camera together with the fan-out of
   * `Run`. `subs` maps each live subscriber to its slot; `closed` holds the
   * channels `Unsubscribe` has closed; channels are numbered in the order
   * they were made, so `made` counts them.
   */
  class Hub {
    var subs: map<Channel, Slot>
    var closed: set<Channel>
    var made: nat

    /** Every channel made so far is either live or closed, and not both. */
    ghost predicate Valid()
      reads this
    {
      && subs.Keys !! closed
      && (forall ch :: ch in subs ==> ch < made)
      && (forall ch :: ch in closed ==> ch < made)
      && (forall ch: Channel :: ch < made ==> ch in subs || ch in closed)
    }

    /** Closing a channel twice panics, so only an open channel may be unsubscribed. */
    predicate CanUnsubscribe(ch: Channel)
      reads this
    {
      ch < made && ch !in closed
    }

    constructor ()
      ensures Valid() && subs == map[] && closed == {} && made == 0
    {
      subs := map[];
      closed := {};
      made := 0;
    }

    /** `Subscribe`: a new channel with an empty capacity-1 slot joins the registry. */
    method Subscribe() returns (ch: Channel)
      requires Valid()
      modifies this
      ensures Valid()
      ensures ch !in old(subs) && ch !in old(closed) && CanUnsubscribe(ch)
      ensures subs == old(subs)[ch := None] && closed == old(closed) && made == old(made) + 1
    {
      ch := made;
      made := made + 1;
      subs := subs[ch := None];
    }

    /**
     * `Unsubscribe`: the channel is closed first and then removed; the other
     * subscribers are untouched. Afterwards the channel can no longer be
     * unsubscribed: a second call would close it again and panic.
     */
    method Unsubscribe(ch: Channel)
      requires Valid() && CanUnsubscribe(ch)
      modifies this
      ensures Valid() && !CanUnsubscribe(ch)
      ensures subs == old(subs) - {ch} && closed == old(closed) + {ch} && made == old(made)
    {
      closed := closed + {ch};
      if ch in subs {
        subs := subs - {ch};
      }
    }

    /** The fan-out loop of `Run`: each subscriber in turn is offered its own copy of the frame. */
    method Publish(frame: seq<Byte>)
      requires Valid()
      modifies this
      ensures Valid()
      ensures subs == Published(old(subs), frame) && closed == old(closed) && made == old(made)
    {
      if |frame| != 0 {
        ghost var before := subs;
        var pending := subs.Keys;
        while pending != {}
          invariant pending <= before.Keys && subs.Keys == before.Keys
          invariant forall ch :: ch in subs ==> subs[ch] == if ch in pending then before[ch] else Offer(before[ch], frame)
          invariant closed == old(closed) && made == old(made)
          invariant Valid()
          decreases pending
        {
          var ch :| ch in pending;
          var fc := frame;
          if subs[ch].None? {
            subs := subs[ch := Some(fc)];
          }
          pending := pending - {ch};
        }
        assert subs == Published(before, frame);
      }
    }

    /**
     * One default round of `Run`: wait for a frame (a timeout retries),
     * read it, and publish it. A round that stops publishes nothing.
     */
    method Round(wait: Wait, read: Read) returns (step: RunStep)
      requires Valid()
      modifies this
      ensures Valid() && closed == old(closed) && made == old(made)
      ensures step == RoundOutcome(wait, read)
      ensures subs == if wait == Ready && read.Frame? then Published(old(subs), read.bytes) else old(subs)
    {
      match wait {
        case Ready =>
        case Timeout =>
          return Continue;
        case WaitError =>
          return Stop(WaitFailed);
      }
      if read.ReadError? {
        return Stop(ReadFailed);
      }
      Publish(read.bytes);
      return Continue;
    }
  }
}
