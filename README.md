# frogcam in Dafny

A Dafny model of the frame-processing core of frogcam, a Go webcam server
that streams a V4L2 camera as Motion-JPEG and runs sigma-delta
background subtraction on the same frames. The model covers the
following parts.

- **Sigma-delta estimator** (`sigmadelta.go`, module `SigmaDelta`).
  - The estimator keeps four 8-bit planes over a rectangle:
    - mean `m`;
    - absolute deviation `o`;
    - dispersion `v`;
    - motion mask `e`.
  - `Update` makes four passes over them in place.
  - It is modelled as a class over four `array2<Byte>` planes, one method per pass.
  - Each pass is proved against a per-pixel transition function (`PixelStep`), and the properties of that function are proved as lemmas.
- **Huffman-table splice** (`webcam.go` `addMotionDht`, module `MotionDht`).
  - Camera MJPEG frames leave out the DHT (define Huffman table) segment.
  - The splice splits the frame on the start-of-scan marker `FF DA` (as `bytes.Split` does).
  - It inserts `FF C4` and a fixed segment body just before the marker.
  - The body is built from ITU-T T.81 Annex K, Tables K.3 to K.6. It is proved to parse back, under the syntax of section B.2.4.2, into exactly those four tables, with a length field of 418.
- **YUYV unpacking** (`webcam.go` `frameToImage`, repeated in `main.go` `encodeToImage`; module `Yuyv`).
  - Each packed 4:2:2 group `Y0 Cb Y1 Cr` becomes two luma samples and one sample of each chroma plane.
  - This is proved in both directions against re-interleaving.
- **Frame conversion and fan-out** (`webcam.go`, module `Webcam`).
  - The format dispatch of `frameToImage` and `encodeToJPEG`.
  - The subscriber registry (`Subscribe`, `Unsubscribe`) and the drop-when-full publish of `Run`. A subscriber is a capacity-1 slot; a publish fills empty slots and leaves full ones alone.
- **Capture configuration** (`main.go`, modules `Selection` and `Strconv`).
  - The `byArea` ordering (uint32 products that wrap) and the sort.
  - The pixel-format choice from `-f`.
  - The frame-size choice from `-s`: an empty value, `WxH` parsed with `strconv.Atoi`, or a size label.
- **Capture loop and encoder** (`main.go`, module `Capture`).
  - One round of the capture loop.
  - `encodeToImage`'s reused frame buffer, followed by the YUYV unpack or the MJPEG pass-through.
- **Motion detection** (`motion.go`, module `Motion`).
  - One tick: update the model, filter the labelled components in place by size, and emit an event only if one survives.

Device calls, codecs and the labeller are inputs or function parameters:
- the outcomes of waiting for and reading a frame (module `Device`);
- `jpeg.Decode`;
- `jpeg.Encode`;
- `FrameSize.GetString`;
- the blur plus `grayscale.CoCos` labelling.

Where the code does not do what its comments and names suggest, the model follows the code:
- **Dispersion floor.** A floor of 1 on the dispersion would keep it from ever reaching 0. The code starts every plane at 0 and only stops *decrements* at 1. A pixel whose deviation stays 0 therefore keeps a dispersion of 0 and is marked as motion on every update (`SigmaDelta.SettledAtZeroIsMotion`, `SigmaDelta.FreshPixelUnderConstantInput`).
- **Unsubscribe.** Unsubscribing twice is not harmless. The code closes the channel first, so a second call panics (`Webcam.Hub.Unsubscribe`).
- **Timeouts.** `main` in `main.go` has a branch that retries after a device timeout, as `Run` in `webcam.go` does. But `main` returns on any `WaitForFrame` error before its type switch, so that branch is never reached and a timeout ends the program (`Capture.CaptureRound`).
- **Loop bounds.** The estimator's loops run `i <= bounds.Max.X`. The iterations on the far edge read 0 through `GrayAt` and are ignored by `SetGray`, and the model keeps them. Only the half-open rectangle changes, and the planes hold no pixel outside it.
- **Loop variable.** The size loop stores `&f` without a `break`. It is modelled with Go 1.22+ per-iteration loop variables, so the last matching size is chosen.

## Model

| member | source | states |
|---|---|---|
| SigmaDelta.MeanStep | sigmadelta.go:40-52 | the new mean is one unit closer to the input (`|m'-in| = max(0, |m-in|-1)`), moves at most one unit, lies between the old mean and the input, and stays a byte |
| SigmaDelta.Deviation | sigmadelta.go:55-67 | the deviation computed through `int` and `uint8` is exactly `|m'-in|`, so the conversion loses nothing |
| SigmaDelta.DispersionStep | sigmadelta.go:70-89 | the dispersion moves at most one unit and never away from `n*o'`; it rises only when below the target and falls only when above it; it stays put only at the target, at 255 or at the floor; once at least 1 it stays at least 1 |
| SigmaDelta.MaskOf | sigmadelta.go:92-104 | the mask is 0 or 255, and 0 exactly when the deviation is below the dispersion |
| SigmaDelta.PixelStep | sigmadelta.go:35-107 | one update of a pixel leaves a mask of 0 or 255, 0 exactly when the new mean's distance from the input is below the new dispersion |
| SigmaDelta.PixelStepIsLocal | sigmadelta.go:35-107 | a pixel's new four values depend only on its old mean, its old dispersion, its input luma and `n` |
| SigmaDelta.PixelStepFacts | sigmadelta.go:35-107 | after one update the mean is one unit closer, the deviation is the distance of the new mean to the input, the dispersion moves at most one unit, and a positive dispersion stays positive |
| SigmaDelta.IterateDistance | sigmadelta.go:40-52 | after k updates with constant input the mean is `max(0, |m0-in| - k)` from it |
| SigmaDelta.SettledStaysSettled | sigmadelta.go:40-67 | once the mean equals the constant input it stays there and the deviation is 0 on every later update |
| SigmaDelta.MeanConverges | sigmadelta.go:40-67 | with constant input, after `k >= |m0-in|` updates (k ≥ 1) the mean equals the input and the deviation is 0 |
| SigmaDelta.SettledIsBackground | sigmadelta.go:70-104 | a settled pixel with dispersion ≥ 1 is background (mask 0) on every later update |
| SigmaDelta.SettledAtZeroIsMotion | sigmadelta.go:70-104 | a pixel with dispersion 0 whose mean is at most one unit from a constant input keeps dispersion 0 and, from the first update on, has mean equal to the input, deviation 0 and mask 255 (motion) |
| SigmaDelta.FreshPixelUnderConstantInput | sigmadelta.go:23-107 | a zeroed pixel under constant luma `in` with gain n ≥ 1 ends as background after `in` updates when `in ≥ 2`, and is motion for ever when `in ≤ 1` |
| SigmaDelta.StaysPositive | sigmadelta.go:70-89 | a dispersion of at least 1 stays at least 1 under a constant input |
| SigmaDelta.StepChangeDetected | sigmadelta.go:35-107 | an input that jumps at least two units beyond the dispersion from the mean is marked as motion on the first update |
| SigmaDelta.HundredUpdatesScenario | sigmadelta.go:35-107 | a zeroed pixel fed luma 100 for 100 updates with gain 2 has mean 100, deviation 0 and mask 0 |
| SigmaDelta.Estimator.constructor | sigmadelta.go:23-33 | `newSigmaDelta` makes four fresh, distinct, zero-filled planes over the given rectangle with the given gain |
| Imaging.ValidIffInBounds | sigmadelta.go:42 | an input image is accepted exactly when every point of its rectangle addresses a luma sample through `YOffset`, whatever its stride |
| Imaging.PaddedStrideIsValid | sigmadelta.go:42 | an image whose stride is wider than its rectangle, as the JPEG decoder returns, is accepted |
| SigmaDelta.Estimator.UpdateMean | sigmadelta.go:40-52 | the mean pass applies `MeanStep` to every pixel of the rectangle with that pixel's input luma |
| SigmaDelta.Estimator.UpdateDeviation | sigmadelta.go:55-67 | the deviation pass sets every pixel's deviation to `Deviation` of the updated mean and the input |
| SigmaDelta.Estimator.UpdateDispersion | sigmadelta.go:70-89 | the dispersion pass applies `DispersionStep` toward `n` times the new deviation at every pixel |
| SigmaDelta.Estimator.UpdateMask | sigmadelta.go:92-104 | the mask pass sets every pixel's mask to `MaskOf` of the new deviation and dispersion |
| SigmaDelta.Estimator.Update | sigmadelta.go:35-107 | `Update` advances every pixel of the rectangle by exactly one `PixelStep` on its own luma, writes nothing but the four planes, always returns nil, and leaves a 0/255 mask and `o = |m - in|` |
| MotionDht.IndexFrom | webcam.go:174 | the marker search returns the first `FF DA` at or after the start position, or reports that there is none |
| MotionDht.Split | webcam.go:174 | the first piece is the frame up to its first `FF DA` (the whole frame when there is none), and a second piece exists exactly when there is a marker |
| MotionDht.JoinSplit | webcam.go:174 | splitting on `FF DA` loses nothing: joining the pieces with the marker gives the frame back |
| MotionDht.SplitPiecesHaveNoSos | webcam.go:174 | no piece of the split contains the marker |
| MotionDht.SplitHasSecondPiece | webcam.go:174-175 | `jpegParts[1]` exists exactly when the frame holds a marker; without one the index panics |
| MotionDht.AddMotionDht | webcam.go:168-176 | the spliced frame is the bytes before the first marker, `FF C4`, the segment, then the bytes from that marker up to the next marker or the end; everything from a second marker on is dropped |
| MotionDht.AddMotionDhtOneMarker | webcam.go:174-175 | with exactly one marker the splice is `frame[..i] + FF C4 + dht + frame[i..]`, 420 bytes longer than the frame |
| MotionDht.ParseTables | webcam.go:171 | every table read from a segment body has 16 counts that sum to its number of values |
| MotionDht.ParseEncodeTables | webcam.go:171 | parsing the encoding of valid tables gives the same tables back |
| MotionDht.ParseEncodeSegment | webcam.go:171 | parsing an encoded DHT segment body (length field included) gives the tables back |
| MotionDht.TableK3Valid | webcam.go:171 | the luminance DC table's counts sum to its 12 values |
| MotionDht.TableK4Valid | webcam.go:171 | the chrominance DC table's counts sum to its 12 values |
| MotionDht.TableK5Valid | webcam.go:171 | the luminance AC table's counts sum to its 162 values |
| MotionDht.TableK6Valid | webcam.go:171 | the chrominance AC table's counts sum to its 162 values |
| MotionDht.AnnexKValid | webcam.go:171 | all four Annex K tables are valid and encode to 416 bytes |
| MotionDht.DhtWellFormed | webcam.go:171 | the embedded segment body is 418 bytes, its length field `01 A2` says 418, and it parses as exactly Tables K.3 to K.6 |
| MotionDht.AnnexKShape | webcam.go:171 | the tables are, in order, Tc/Th 0/0, 0/1, 1/0, 1/1 with 12, 12, 162 and 162 values |
| Yuyv.LumaIsTwiceChroma | webcam.go:181-185 | for an even width (or an empty image) the luma plane has exactly two samples per chroma sample, so every `Y[2i+1]` write is in range |
| Yuyv.Unpacked | webcam.go:180-190 | the unpacked image is a valid `w x h` YCbCr image satisfying the index mapping `Y[2i]=f[4i]`, `Y[2i+1]=f[4i+2]`, `Cb[i]=f[4i+1]`, `Cr[i]=f[4i+3]` |
| Yuyv.Unpack | webcam.go:180-190 | the unpack loop fills the planes by that mapping for every chroma index; short frames and odd widths, on which Go panics, are excluded |
| Yuyv.Interleave | webcam.go:182-188 | re-interleaving produces four bytes per chroma sample |
| Yuyv.UnpackRoundTrip | webcam.go:182-188 | re-interleaving the unpacked planes as `Y0 Cb Y1 Cr` reproduces `frame[0 .. 4·len(Cb))` |
| Yuyv.InterleaveUnpacks | webcam.go:182-188 | planes that are interleaved unpack back to themselves |
| Webcam.FrameToImage | webcam.go:178-204 | YUYV returns the unpacked image and the unchanged frame; MJPEG returns the decoded image and the spliced frame, or "not YUV image" for any other decode outcome, a decode error included; any other format is "unknown format" |
| Webcam.EncodeToJpeg | webcam.go:206-225 | YUYV is unpacked and JPEG-encoded (an encoder error is returned); an MJPEG frame is returned byte for byte; any other format is "invalid format" |
| Webcam.Published | webcam.go:260-271 | a publish keeps the subscriber set; a zero-length frame changes nothing; otherwise empty slots receive the frame and full slots keep their older frame |
| Webcam.FullSlotDropsNextFrame | webcam.go:262-269 | a second publish before anyone reads changes nothing: every slot filled by the first is full and drops the second frame |
| Webcam.NewSubscriberReceives | webcam.go:262-269 | a subscriber added before a publish receives that (non-empty) frame, and the others fare as without it |
| Webcam.RoundOutcome | webcam.go:245-259 | a round continues exactly on a timeout or a frame read; another wait error or a read error stops `Run` with that error |
| Webcam.Hub.constructor | webcam.go:233 | the registry starts empty |
| Webcam.Hub.Subscribe | webcam.go:291-298 | a fresh channel with an empty capacity-1 slot is added; nothing else changes |
| Webcam.Hub.Unsubscribe | webcam.go:300-311 | the channel is closed and removed, the others untouched; afterwards it cannot be unsubscribed again (closing twice panics) |
| Webcam.Hub.Publish | webcam.go:260-271 | the fan-out loop leaves the registry as `Published` of the old slots and the frame |
| Webcam.Hub.Round | webcam.go:245-272 | one default round of `Run`: outcome as `RoundOutcome`, and the frame is published only when it was read |
| Strconv.Atoi | main.go:109-110 | `Atoi` succeeds exactly on one or more digits after an optional `+` or `-` whose signed value lies in the 64-bit `int` range, and then yields that value |
| Strconv.SpellsIsFunctional | main.go:109-110 | a string spells at most one value, so `Atoi`'s contract fixes its result |
| Strconv.TrailingLetterRejected | main.go:109-112 | `"1a"` is a syntax error |
| Strconv.AtoiDecimal | main.go:109-110 | `Atoi` reads back the decimal spelling of every `int`, negative ones with a leading `-` |
| Selection.Area | main.go:34-38 | the area is the width × height product reduced modulo 2^32, equal to the true product when that fits |
| Selection.Less | main.go:34-38 | `Less` orders by the true area whenever both products fit in 32 bits |
| Selection.LessIsStrictWeakOrder | main.go:34-38 | `Less` is irreflexive and transitive, and two sizes are unordered exactly when their wrapped areas are equal |
| Selection.AreaWraps | main.go:34-38 | the wrap is visible: 65536 × 65536 orders before 1 × 1 |
| Selection.Swap | main.go:41-43 | `Swap` exchanges two elements and keeps the multiset |
| Selection.SortByArea | main.go:96-97 | after sorting, areas are non-decreasing and the sizes are a permutation of the input |
| Selection.FirstStop | main.go:74-89 | the format loop stops at the first entry that is supported (empty `-f`) or carries the `-f` description, or runs to the end |
| Selection.ChooseFormat | main.go:72-93 | the chosen format is the stop entry's if supported, "not supported" if it is not, "no format" if the loop found none; every chosen format is supported; with empty `-f` a format is chosen iff some entry is supported |
| Selection.CountXCounts | main.go:107 | `CountX` is the number of occurrences of 'x' in the string |
| Selection.IndexX | main.go:108 | the split point is the first 'x' |
| Selection.ParseSize | main.go:107-117 | the `WxH` parse succeeds exactly when both sides of the 'x' pass `Atoi`; it then sets only the maximum width and height, each the value the side spells truncated to 32 bits |
| Selection.ParseSizeRoundTrip | main.go:107-117 | a size spelled `WxH` in decimal has one 'x' and parses to `FrameSize{MaxWidth: W, MaxHeight: H}` |
| Selection.LastMatch | main.go:118-123 | the label search finds the last size whose label equals `-s`, or none |
| Selection.ChooseSize | main.go:103-129 | empty `-s` takes the last size, the largest when sorted; one 'x' parses (a non-numeric side is fatal); otherwise the last size whose label matches, and no match is an error |
| Capture.CaptureRound | main.go:160-182 | a round never retries; it exits exactly on a wait error (a timeout included) or a read error; it skips exactly on an empty frame; a frame is handed on exactly when it was read and is non-empty |
| Capture.Reused | main.go:209-214 | the buffer grows to `len(bframe)` only when shorter, starts with `bframe`, and otherwise keeps its old tail |
| Capture.StaleTail | main.go:209-214 | loading `[1,2,3,4]` and then `[5,6]` leaves `[5,6,3,4]` in the buffer |
| Capture.BufferHoldsLongestFrame | main.go:208-214 | over any run of frames the buffer never shrinks, is at least as long as the longest frame, and starts with the latest frame |
| Capture.Encoder.constructor | main.go:205-207 | the encoder starts with an empty buffer |
| Capture.Encoder.Load | main.go:209-214 | the copy leaves the buffer as `Reused` of its old contents and the frame, reallocating only when it is too short |
| Capture.Encoder.Process | main.go:209-240 | YUYV unpacks the whole buffer and broadcasts its JPEG (an encoder error is fatal); MJPEG broadcasts the whole buffer, stale tail included; any other format is fatal |
| Motion.Filtered | motion.go:47-53 | the filtered list is no longer than the input and holds only components of more than `minCoCo` points |
| Motion.Survivors | motion.go:49-53 | the survivor indices are increasing and are exactly the components with more than `minCoCo` points |
| Motion.FilteredAreSurvivors | motion.go:47-53 | the filtered list is the survivors in their original order, their contents unchanged |
| Motion.FilteredMembership | motion.go:49-53 | a component is kept iff it was in the input and has strictly more than `minCoCo` points |
| Motion.BoundaryComponentDropped | motion.go:50 | a component of exactly `minCoCo` points is dropped |
| Motion.FilterInPlace | motion.go:47-53 | filtering into `cocos[:0]` leaves the filtered list at the front of the same array and the rest of the array as it was |
| Motion.Event | motion.go:55-57 | an event is sent exactly when the filtered list is non-empty, and carries that list |
| Motion.Tick | motion.go:28-57 | an image error skips the tick with no event and an untouched model; otherwise every pixel takes one `PixelStep` and the event is `Event` of the filtered components of the new mask |

## Left out

- V4L2 device calls are not modelled; their outcomes are inputs (`Device.Wait`, `Device.Read`, the format and size lists). These are `Open`, `GetSupportedFormats`, `GetSupportedFrameSizes`, `SetImageFormat`, `StartStreaming`, `WaitForFrame`, `ReadFrame`, `GetFrame` and `ReleaseFrame`.
- `jpeg.Decode`, `jpeg.Encode`, PNG rendering and the `mjpeg` AVI writer are foreign codecs. Decode and encode are function parameters; the others are absent.
- The Gaussian blur (floating point) and `grayscale.CoCos` labelling are foreign; together they are one function parameter of `Motion.Tick`.
- HTTP serving is absent: `ServeHTTP` in `webcam.go` and `sigmadelta.go`, `httpVideo`, and the multipart writer. So a subscriber's slot is never drained in the model.
- Goroutines, channels and locks are absent:
  - the `fi`/`back` handshake between `main` and `encodeToImage`;
  - the "up to 50 ready clients" send on `li`;
  - the `select` between `sub`, `unsub` and a frame round in `Run`;
  - the `RWMutex` around the planes and the registry;
  - the ticker.
  Each operation is modelled as one atomic step.
- The source keeps two subscriber sets: `Run`'s local map fed by the `sub`/`unsub` channels, and `mc.subs`, which `Subscribe`/`Unsubscribe` write but the struct does not declare. The model has one registry, `Webcam.Hub`.
- `newMotionCam` in `webcam.go` repeats `main`'s format and size selection, returning errors instead of logging for an unsupported format, no format or no matching size; an unparsable `WxH` is fatal (`log.Fatalf`) in both, which is `Unparsable` here. It is modelled once, in `Selection`. `GetImage` enters only through its result in `Motion.Tick`.
- Motion.Tick: its error case stands only for a `GetFrame` failure. `GetImage` discards `frameToImage`'s error and returns a nil image with a nil error, so a failed conversion ("not YUV image", "unknown format") is not skipped: it reaches `sd.Update` as a nil image, whose first `YCbCrAt` dereferences nil. That path is not modelled.
- fps printing (time and `float64`) and `html.go` (a static string) are absent.
- Webcam.Hub.Publish: the per-subscriber `make`/`copy` is a copy of a value here, so aliasing between subscribers' buffers is not represented.
- Capture.Encoder.Process: `bytes.NewBuffer(frame)` hands clients the reused buffer itself, which the next frame overwrites. That sharing across goroutines is not modelled.
- Selection.SortByArea: `sort.Sort` is not stable and uses another algorithm. Only its promise (sorted by `Less`, same elements) is claimed, and the order among equal areas may differ from Go's.
- Selection.ChooseFormat: the formats come in as a list in the order `range` visits the map. Go randomises that order, so "first supported" means first in that list.
- Strconv.Atoi: Go's `int` is taken to be 64 bits wide.
- SigmaDelta.DispersionStep: `n * o` is an unbounded integer. Go's 64-bit `int` would wrap only for gains beyond 2^55.
- Yuyv.Unpack, Webcam.FrameToImage, Capture.Encoder.Process: the index-out-of-range panics are preconditions rather than outcomes. They happen on an odd width, a frame shorter than four bytes per chroma sample, or an MJPEG frame without `FF DA`.
- SigmaDelta.Estimator.Update, Motion.Tick: an input image whose luma plane is too short for its rectangle makes `YCbCrAt` panic in Go; `YCbCr.Valid` (exactly the in-range condition, `Imaging.ValidIffInBounds`) is a precondition instead. Images with padded strides are accepted. `YCbCr.Valid` constrains only the luma plane, because the estimator reads only luma; a short `Cb` or `Cr` plane, which also makes `YCbCrAt` panic in Go, is not excluded, and the model returns where Go would panic.
- SigmaDelta.Estimator.constructor: `image.NewGray` panics on a rectangle with negative width or height; here that is the precondition `bounds.WellFormed()`.
- Webcam.EncodeToJpeg: the YUYV path inherits `frameToImage`'s index-out-of-range panic on an odd width or a short frame; here that is a precondition.
- SigmaDelta.Estimator.Update: the Go loops run `i <= bounds.Max.X` (and `j <= bounds.Max.Y`) over Go's 64-bit `int`, so a rectangle whose `Max` is the largest `int` would make `i++` wrap and the loop never end; the model's loops over unbounded integers always end.
- Selection.ChooseSize: an empty size list with an empty `-s` panics in Go; here it is a precondition.
- `log.Fatal` and `log.Fatalf` are outcomes (`Fatal`, `Unparsable`), not process exits.
