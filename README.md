# secretCam frame pipeline, modelled in Dafny

secretCam's `CameraFragment` takes each YUV_420_888 camera image and handles it in four steps:

1. A rate gate drops the image if it arrives less than `1000 / MAX_FPS` ms after the last image it let through.
2. The image is converted to an NV21 byte array. Luma rows are copied through a reused scratch row, dropping the row padding. The chroma samples follow as interleaved (V, U) pairs.
3. The NV21 array is JPEG-encoded.
4. The JPEG is sent over a long-lived socket. The server receives the four ASCII bytes `SEND` once per connection, then one frame per image: a 4-byte big-endian length, then the payload. A failed send drops the connection and asks for a reconnect.

The model has one module per part:

- `Jvm`: the Java library behaviour the converter relies on.
  - `ByteBuffer`: relative bulk `get`, and absolute `get`, which throws past the limit.
  - `System.arraycopy`, which throws when a range does not fit.
- `Arith`: products written as repeated addition (`Mul`), with lemmas linking them to `*`.
- `Nv21Spec`: what `yuv420ToNv21` returns, as functions of the image, and what that output holds byte by byte.
- `Nv21`: the image class and `yuv420ToNv21` itself, as methods over arrays and buffers with loop invariants, proved against `Nv21Spec`.
- `RateGate`: the `lastSentTs` gate as a class, plus the sequence of admitted timestamps and the spacing it guarantees.
- `Framing`: the bytes the client writes, the server's reading of them, and the round trips between the two.
- `Streaming`: the `socket`/`dataOutput` bookkeeping (`connectToServer`, `sendFrame`, the socket part of `closeCamera`) as a class. Its `stream` field records what the current connection carried.
- `Pipeline`: one call of the image listener, chaining the gate, the converter, the encoder and the sender.

All source paths are in `app/src/main/java/com/android/example/secretcam/CameraFragment.kt`, abbreviated `CF` below; the table cells use the full path.

Behaviour of the code worth knowing, which the model keeps:

- The gate rejects a frame at time 0 right after start-up, because `lastSentTs` starts at 0 (CF:50) and `0 - 0 < 100` (CF:194). `RateGate.AdmittedFromZero` shows this on a run of times that starts at 0. `RateGate.AdmitExample` shows the alternating admit-and-drop pattern on a run that starts at 1000.
- Odd image sizes are not rejected. The code floor-divides (`height / 2`, `width / 2`, CF:316-317) and leaves the rest of the output zero (`Nv21Spec.TailIsZero`).
- The comment at CF:198 says the `AtomicLong` makes the update race-free, but CF:193 and CF:199 are a separate get and set. The model keeps the two steps and is single-threaded.
- A short Y buffer is never detected (CF:310). A short read fills only part of the scratch row, and the rest keeps the previous row's bytes (`Nv21Spec.LumaByte`).

## Model

| member | source | states |
|---|---|---|
| Nv21.Yuv420ToNv21 | app/src/main/java/com/android/example/secretcam/CameraFragment.kt:286-330 | Returns an array exactly when no copy or read throws; the array's contents are `Nv21Layout` of the image as it was; the Y buffer's cursor ends after `height` reads |
| Nv21.CopyLuma | app/src/main/java/com/android/example/secretcam/CameraFragment.kt:304-313 | The luma loop succeeds iff every arraycopy fits (`height == 0` or `width <= yRowStride`); then the output holds the luma rows in its first `width*height` bytes, zeros after, and the cursor is at `ReadPos(height)` |
| Nv21.CopyLumaRow | app/src/main/java/com/android/example/secretcam/CameraFragment.kt:310-312 | One iteration: the bulk get of `min(yRowStride, remaining)` bytes and the arraycopy of `width` bytes advance the loop state by one row, and fail exactly when `width > yRowStride` |
| Nv21.LumaRowCopied | app/src/main/java/com/android/example/secretcam/CameraFragment.kt:311-312 | After the arraycopy at `pos = row*width` the output prefix grows by the scratch row's first `width` bytes and the rest stays zero |
| Nv21.ScratchStep | app/src/main/java/com/android/example/secretcam/CameraFragment.kt:308-310 | A bulk get overwrites the first `RowLength` scratch bytes with the next Y bytes, keeps the others, and moves the cursor by `RowLength` |
| Nv21.InterleaveChroma | app/src/main/java/com/android/example/secretcam/CameraFragment.kt:316-327 | The chroma loops succeed iff every one of the `(height/2) x (width/2)` samples is readable in U and V; then the output holds luma rows, then all chroma rows, then zeros |
| Nv21.InterleaveRow | app/src/main/java/com/android/example/secretcam/CameraFragment.kt:319-326 | One chroma row: either all its `width/2` pairs are appended, or a read failed and the whole image is not convertible |
| Nv21.WritePair | app/src/main/java/com/android/example/secretcam/CameraFragment.kt:321-325 | Succeeds iff index `row*uvRowStride + col*uvPixelStride` is below both chroma limits; then V is written at `pos` and U at `pos+1` |
| Nv21.PairStep | app/src/main/java/com/android/example/secretcam/CameraFragment.kt:321-325 | Writing V then U at `pos` and `pos+1` extends the output by exactly that pair and keeps the zero tail |
| Nv21.PairFits | app/src/main/java/com/android/example/secretcam/CameraFragment.kt:290-292 | Every pair the loops write lies inside the `ySize + uvSize` output |
| Nv21.ReadableBelowFails | app/src/main/java/com/android/example/secretcam/CameraFragment.kt:323-325 | A failed read at any (row, col) means the last sample is out of bounds too, so failure is a property of the image |
| Nv21.Image.Close | app/src/main/java/com/android/example/secretcam/CameraFragment.kt:211 | `image.close()` is counted once more |
| Nv21Spec.Nv21Layout | app/src/main/java/com/android/example/secretcam/CameraFragment.kt:286-330 | The array the converter returns: the luma rows, then the (V, U) pairs, then zeros up to `Nv21Size`; its length is `Nv21Size` |
| Nv21Spec.ReadPos | app/src/main/java/com/android/example/secretcam/CameraFragment.kt:309-310 | The Y cursor before read k+1: each read advances it by `min(yRowStride, remaining)`; it stays between `yStart` and the limit |
| Nv21Spec.RowLength | app/src/main/java/com/android/example/secretcam/CameraFragment.kt:310 | How many bytes read k+1 copies: `yRowStride.coerceAtMost(remaining)`, at most `yRowStride` and never past the limit |
| Nv21Spec.ScratchByte | app/src/main/java/com/android/example/secretcam/CameraFragment.kt:308-310 | Byte i of the reused `yBytes` after k reads: zero initially, overwritten only by reads long enough to reach it |
| Nv21Spec.ChromaIndex | app/src/main/java/com/android/example/secretcam/CameraFragment.kt:323-325 | The absolute index `row * uvRowStride + col * uvPixelStride` at which both chroma buffers are read |
| RateGate.Admits | app/src/main/java/com/android/example/secretcam/CameraFragment.kt:194 | A frame at `now` passes when `now - lastTs >= minFrameIntervalMs`, which is 100 |
| Framing.WriteInt | app/src/main/java/com/android/example/secretcam/CameraFragment.kt:265 | `DataOutputStream.writeInt`: four bytes, the two's-complement bits high byte first (`Framing.ReadWriteInt` and `Framing.WriteReadInt` are its round trips) |
| Framing.Frame | app/src/main/java/com/android/example/secretcam/CameraFragment.kt:265-268 | One sent frame: `writeInt(jpeg.size)` then the payload, `4 + size` bytes |
| Framing.Handshake | app/src/main/java/com/android/example/secretcam/CameraFragment.kt:234 | `"SEND".toByteArray(Charsets.UTF_8)`: the bytes 0x53 0x45 0x4E 0x44 written once per connection |
| RateGate.MaxFps | app/src/main/java/com/android/example/secretcam/CameraFragment.kt:48 | `MAX_FPS = 10` |
| RateGate.MinFrameIntervalMs | app/src/main/java/com/android/example/secretcam/CameraFragment.kt:49 | `minFrameIntervalMs = 1000L / MAX_FPS` with integer division, which is 100 |
| Nv21Spec.Nv21Size | app/src/main/java/com/android/example/secretcam/CameraFragment.kt:290-292 | The size of the `ByteArray` allocated: `ySize + uvSize` with `ySize = width*height` and `uvSize = width*height/2` |
| Nv21Spec.LumaCopies | app/src/main/java/com/android/example/secretcam/CameraFragment.kt:311 | `System.arraycopy(yBytes, 0, nv21, pos, width)` never throws: there are no rows, or `width <= yRowStride` (the scratch row's length) |
| Nv21Spec.ChromaReadable | app/src/main/java/com/android/example/secretcam/CameraFragment.kt:323-325 | Neither absolute get of sample (row, col) throws: its `ChromaIndex` is below the limit of both the V and the U buffer |
| Nv21Spec.ChromaRowsReadable | app/src/main/java/com/android/example/secretcam/CameraFragment.kt:318-325 | No chroma read of the first k rows throws; since the index grows with row and column, it suffices that the last sample of row k-1 is readable |
| Nv21Spec.Convertible | app/src/main/java/com/android/example/secretcam/CameraFragment.kt:309-327 | The converter throws nothing: `LumaCopies` and every chroma read of the `height/2` rows in bounds (`Nv21Spec.ConvertibleIffAllReadable` spells this out per sample) |
| Nv21.Image.View | app/src/main/java/com/android/example/secretcam/CameraFragment.kt:288-302 | What the converter reads of the image: width, height, the Y buffer's bytes and cursor, plane 0's row stride, the U and V bytes, and plane 1's row and pixel strides for both chroma planes |
| Nv21Spec.Scratch | app/src/main/java/com/android/example/secretcam/CameraFragment.kt:308-310 | The reused `yBytes` array after k reads, byte by byte `ScratchByte`, always `yRowStride` long |
| Nv21Spec.LumaRows | app/src/main/java/com/android/example/secretcam/CameraFragment.kt:308-313 | The first k luma rows of the output: after each read, the first `width` bytes of the scratch row; `k*width` bytes |
| Nv21Spec.ChromaRow | app/src/main/java/com/android/example/secretcam/CameraFragment.kt:319-326 | The first k (V, U) pairs of one chroma row, each read at `ChromaIndex`; `2*k` bytes |
| Nv21Spec.ChromaRows | app/src/main/java/com/android/example/secretcam/CameraFragment.kt:318-327 | The first k chroma rows, `width/2` pairs each; `2*k*(width/2)` bytes |
| Nv21Spec.Nv21LayoutLength | app/src/main/java/com/android/example/secretcam/CameraFragment.kt:288-292 | The output has `width*height + width*height/2` bytes |
| Nv21Spec.ConvertibleIffAllReadable | app/src/main/java/com/android/example/secretcam/CameraFragment.kt:309-327 | Conversion succeeds iff the luma copies fit and every chroma sample (r, c) with `r < height/2`, `c < width/2` is readable: both directions |
| Nv21Spec.ReadPosClosed | app/src/main/java/com/android/example/secretcam/CameraFragment.kt:309-310 | After k reads the Y cursor is `min(limit, yStart + k*yRowStride)` |
| Nv21Spec.LumaRowsAt | app/src/main/java/com/android/example/secretcam/CameraFragment.kt:309-312 | Byte `r*width + c` of the luma rows is scratch byte c after the (r+1)-th read |
| Nv21Spec.LayoutLumaAt | app/src/main/java/com/android/example/secretcam/CameraFragment.kt:304-313 | The first `width*height` output bytes are the luma rows |
| Nv21Spec.ScratchByteAt | app/src/main/java/com/android/example/secretcam/CameraFragment.kt:310 | Read k+1 puts Y byte `yStart + k*yRowStride + c` into scratch byte c if that index is below the limit, else leaves the byte as it was |
| Nv21Spec.LumaByte | app/src/main/java/com/android/example/secretcam/CameraFragment.kt:304-313 | Output byte `r*width + c` is Y byte `yStart + r*yRowStride + c` below the limit; past it, row r-1's byte (0 for row 0) |
| Nv21Spec.LumaDropsPadding | app/src/main/java/com/android/example/secretcam/CameraFragment.kt:304-313 | With a full Y buffer, output byte `r*width + c` is Y byte `yStart + r*yRowStride + c`: the row padding is dropped |
| Nv21Spec.ChromaRowAt | app/src/main/java/com/android/example/secretcam/CameraFragment.kt:319-326 | Pair c of a chroma row is (V, U) read at `ChromaIndex(row, c)` |
| Nv21Spec.ChromaRowsAt | app/src/main/java/com/android/example/secretcam/CameraFragment.kt:318-327 | Pair (r, c) of the chroma rows sits at `2*(r*(width/2) + c)` |
| Nv21Spec.ChromaPair | app/src/main/java/com/android/example/secretcam/CameraFragment.kt:316-327 | Output bytes `width*height + 2*(r*(width/2)+c)` and the next are the V and U samples at `ChromaIndex(r, c)` (product form via `Mul`) |
| Nv21Spec.ChromaVThenU | app/src/main/java/com/android/example/secretcam/CameraFragment.kt:300-326 | The same with the source's products: V first, then U, both read at `r*uvRowStride + c*uvPixelStride` with plane 1's strides |
| Nv21Spec.ChromaReadsInBounds | app/src/main/java/com/android/example/secretcam/CameraFragment.kt:323-325 | If the last sample's index is within both limits, every sample's index is |
| Nv21Spec.ReadableBelow | app/src/main/java/com/android/example/secretcam/CameraFragment.kt:323-325 | The chroma index is monotone in row and column, so readability carries downwards |
| Nv21Spec.TailIsZero | app/src/main/java/com/android/example/secretcam/CameraFragment.kt:292-329 | Output bytes past the luma rows and the `(height/2) x (width/2)` pairs stay zero |
| Nv21Spec.EvenSizeFillsOutput | app/src/main/java/com/android/example/secretcam/CameraFragment.kt:290-317 | With even width and height the pairs fill the output exactly (in `Mul` form) |
| Nv21Spec.EvenChromaFillsTail | app/src/main/java/com/android/example/secretcam/CameraFragment.kt:290-317 | With even width and height, `2*(height/2)*(width/2) == uvSize` and the output has no zero tail |
| RateGate.FrameGate.Admit | app/src/main/java/com/android/example/secretcam/CameraFragment.kt:192-199 | Admits iff `now - lastSentTs >= 100`; on admission `lastSentTs = now`, otherwise it is unchanged; keeps `lastSentTs` and the admitted times equal to the fold over all offered times |
| RateGate.FrameGate.constructor | app/src/main/java/com/android/example/secretcam/CameraFragment.kt:50 | `lastSentTs` starts at 0 with nothing offered |
| RateGate.AdmittedSnoc | app/src/main/java/com/android/example/secretcam/CameraFragment.kt:193-199 | Offering one more time extends the admitted times by it exactly when the gate admits it, and updates the last admitted time accordingly |
| RateGate.AdmittedAmongOffered | app/src/main/java/com/android/example/secretcam/CameraFragment.kt:194-196 | The gate only drops: admitted times are no more than, and among, the offered ones |
| RateGate.AdmittedSpaced | app/src/main/java/com/android/example/secretcam/CameraFragment.kt:194-199 | Consecutive admitted times are at least 100 ms apart, the first at least 100 ms after the initial `lastSentTs` |
| RateGate.AdmittedRate | app/src/main/java/com/android/example/secretcam/CameraFragment.kt:194-199 | Admitted times i < j are at least `minFrameIntervalMs*(j-i)` apart: at most `MAX_FPS` frames per second |
| RateGate.AdmitExample | app/src/main/java/com/android/example/secretcam/CameraFragment.kt:192-199 | From a fresh gate, times 1000, 1050, 1100, 1150 are admitted, dropped, admitted, dropped |
| RateGate.AdmittedFromZero | app/src/main/java/com/android/example/secretcam/CameraFragment.kt:193-199 | From a fresh gate, times 0, 50, 100, 150 admit only 100 |
| Framing.ReadWriteInt | app/src/main/java/com/android/example/secretcam/CameraFragment.kt:265 | Reading back the four big-endian bytes of `writeInt(n)` gives n, for every Java int |
| Framing.WriteReadInt | app/src/main/java/com/android/example/secretcam/CameraFragment.kt:265 | Every four bytes are `writeInt` of exactly one int |
| Framing.FrameExample | app/src/main/java/com/android/example/secretcam/CameraFragment.kt:265-268 | A three-byte payload is framed as `00 00 00 03` followed by the payload |
| Framing.FramesAppend | app/src/main/java/com/android/example/secretcam/CameraFragment.kt:265-268 | Sending one more payload appends its frame to the stream |
| Framing.FramesRoundTrip | app/src/main/java/com/android/example/secretcam/CameraFragment.kt:263-268 | The server decodes the concatenated frames back to exactly the payloads, in order |
| Framing.DecodeFramesStep | app/src/main/java/com/android/example/secretcam/CameraFragment.kt:263-268 | A successful decoding starts with a non-negative length that fits and continues with a successful decoding of the rest |
| Framing.FrameOfPrefix | app/src/main/java/com/android/example/secretcam/CameraFragment.kt:265-268 | The length bytes and payload the server read are that payload's frame |
| Framing.DecodeFramesSound | app/src/main/java/com/android/example/secretcam/CameraFragment.kt:263-268 | Only the framing of a payload sequence decodes to it |
| Framing.StreamRoundTrip | app/src/main/java/com/android/example/secretcam/CameraFragment.kt:234-268 | A connection's bytes decode to the payloads iff they are `SEND` followed by those payloads' frames: both directions |
| Framing.FramesCons | app/src/main/java/com/android/example/secretcam/CameraFragment.kt:265-268 | The frames of a non-empty sequence are the first frame followed by the rest |
| Framing.DecodeAfterFrame | app/src/main/java/com/android/example/secretcam/CameraFragment.kt:265-268 | One frame in front of any bytes: decoding fails iff it fails on those bytes, else yields the payload followed by their payloads |
| Framing.RejectedAfterFrames | app/src/main/java/com/android/example/secretcam/CameraFragment.kt:265-268 | Bytes the server rejects are still rejected after any well-formed frames |
| Framing.DecodedAfterFrame | app/src/main/java/com/android/example/secretcam/CameraFragment.kt:265-268 | One more frame puts its payload in front of a successful decoding |
| Framing.DecodedAfterFrames | app/src/main/java/com/android/example/secretcam/CameraFragment.kt:265-268 | Frames followed by decodable bytes decode to their payloads followed by those bytes' payloads |
| Framing.PartialFrameRejected | app/src/main/java/com/android/example/secretcam/CameraFragment.kt:265-270 | A frame cut short at any length between 1 and its size minus 1 does not decode |
| Framing.CutStreamRejected | app/src/main/java/com/android/example/secretcam/CameraFragment.kt:234-270 | A connection whose last frame was cut short is rejected, whatever came before |
| Streaming.StreamingClient.constructor | app/src/main/java/com/android/example/secretcam/CameraFragment.kt:43-44 | Both `socket` and `dataOutput` start null: disconnected, nothing sent |
| Streaming.StreamingClient.Connect | app/src/main/java/com/android/example/secretcam/CameraFragment.kt:216-247 | A live connection is left alone; otherwise a new one carries exactly `SEND`, or on failure both fields are cleared; keeps "the stream is `SEND` plus one frame per sent payload" |
| Streaming.StreamingClient.SendFrame | app/src/main/java/com/android/example/secretcam/CameraFragment.kt:250-283 | Without a stream the frame is dropped; otherwise `writeInt(size)` and the payload are appended, or on failure the connection is cleared; a reconnect is requested iff the frame was not sent |
| Streaming.StreamingClient.Close | app/src/main/java/com/android/example/secretcam/CameraFragment.kt:358-363 | Both fields are cleared |
| Streaming.ServerReadsSent | app/src/main/java/com/android/example/secretcam/CameraFragment.kt:234-270 | While connected, the server decodes the stream to exactly the payloads sent on this connection |
| Pipeline.OnImageAvailable | app/src/main/java/com/android/example/secretcam/CameraFragment.kt:186-213 | No image: nothing changes. Otherwise the image is closed once. A throttled image leaves the client and the Y buffer alone. A non-convertible image is dropped. Otherwise the JPEG of `Nv21Layout` is framed onto the stream iff the connection was up and the write succeeds, and a reconnect is requested iff it was not sent |
| Arith.MulIsProduct | app/src/main/java/com/android/example/secretcam/CameraFragment.kt:290 | The repeated-addition product used in the contracts equals `*` |
| Arith.Multiply | app/src/main/java/com/android/example/secretcam/CameraFragment.kt:290 | The products the source computes (`width * height`, `row * uvRowStride`, `col * uvPixelStride`) equal `Mul` |
| Arith.HalvesFit | app/src/main/java/com/android/example/secretcam/CameraFragment.kt:316-317 | `2*(height/2)*(width/2) <= width*height/2`, with equality for even sizes |
| Jvm.ByteBuffer.Get | app/src/main/java/com/android/example/secretcam/CameraFragment.kt:310 | Relative bulk get: copies `length` bytes from the cursor into `dst[offset..]`, leaves the rest of `dst`, moves the cursor by `length` |
| Jvm.ByteBuffer.At | app/src/main/java/com/android/example/secretcam/CameraFragment.kt:323-325 | Absolute get: a byte iff the index is below the limit (otherwise the source throws) |
| Jvm.ByteBuffer.Remaining | app/src/main/java/com/android/example/secretcam/CameraFragment.kt:310 | `position + remaining == limit` |
| Jvm.ArrayCopy | app/src/main/java/com/android/example/secretcam/CameraFragment.kt:311 | Succeeds iff both ranges fit; then copies the range and changes nothing else; on failure changes nothing |

## Left out

- nv21ToJpeg (CF:333-338): the JPEG encoder is opaque platform code. It is the `encode` function parameter of `Pipeline.OnImageAvailable`, and its exceptions are not modelled.
- Sockets and streams: opening a socket, `getOutputStream`, `write` and `flush` are replaced by a `networkUp` parameter that says whether the call succeeds. A write that fails part-way leaves bytes on the wire. The model does not record them, because the failing connection is closed and its stream discarded. `Framing.PartialFrameRejected` and `Framing.CutStreamRejected` show the server would reject such bytes.
- Concurrency: `synchronized(socketLock)`, `@Volatile`, and the `AtomicLong`'s atomicity are not modelled, and the model is single-threaded. In particular the separate get and set of `lastSentTs` (CF:193,199) is not shown to be race-free. Nor is `sendFrame` reading `dataOutput` outside the lock.
- `backgroundHandler.post` (CF:217): `connectToServer` queues its work on a handler. The model does not model the queue. `SendFrame` and `OnImageAvailable` return a `reconnect` flag where the source posts a reconnection, and `Connect` is the posted work itself.
- Streaming.StreamingClient.Connect: without concurrency a non-null socket is always connected and open, so the "stale socket, close it and reopen" path (CF:221,225) is the same as the disconnected path.
- System.currentTimeMillis (CF:192): the clock reading is the `now` parameter.
- Integer widths: sizes, indices and products (`width * height`, `row * uvRowStride`) are unbounded integers, and the model does not capture 32-bit overflow of them. Timestamps are unbounded integers, and the `Long` subtraction `now - lastTs` is not wrapped. The frame length is a Java int, and `writeInt`'s two's-complement encoding is modelled.
- The Camera2 and UI lifecycle (opening the camera, the capture session, the image reader, `onResume`/`onPause`, background thread start and stop, permission handling): platform glue around the core. Only the socket part of `closeCamera` is modelled.
- Logging (`Log.i`, `Log.w`, `Log.e`, `Log.d`): has no effect on state.
- Plane 2's own row and pixel strides: the source reads only plane 1's strides (CF:300-302) and addresses the V buffer with them (CF:323). The model does the same, and `Nv21.Image.View` never reads them.
- Exceptions inside the listener other than those from the converter and the sender (acquireLatestImage throwing is covered as a null image).
