# MayaCardboard USB link, modelled in Dafny

MayaCardboard streams Maya's viewport to an Android phone over USB. The phone
runs in Android Open Accessory (AOA) mode. This project models the host-side
device class in both of its versions and the image utility the streamer uses.
It also models the phone's read loop. The pieces are:

- **Device discovery.** The candidate vendor/product ids are tried in order
  and the first one that opens is bound. Its descriptor, strings and
  configuration are read, and each endpoint is classified by the direction
  bit of its address (`Discovery`).
- **Accessory negotiation.** Vendor request 51 asks for the protocol version.
  Six identity strings follow as request 52, then request 53 starts accessory
  mode (`Accessory`).
- **Handshake.** A worker polls the IN endpoint in 500 ms bulk reads until a
  read returns something other than a timeout, or the worker is cancelled
  (`Handshake`). The phone answers with 16384 zero bytes (`Receiver.SendHandshake`).
- **Frame transport.** The streamer's send loop writes a 4-byte big-endian
  length, then the JPEG in 16384-byte chunks. On cancel it writes the poison
  frame `0 0 0 0` (`Framing`, `Streamer`). The legacy device instead sends a
  raw buffer in padded 16384-byte transfers (`Legacy`).
- **Single-slot mailbox.** The render thread converts RGBA to RGB and hands a
  JPEG to the send loop only when no frame is pending
  (`Streamer.MayaUsbDevice.SendRgbaFloat32Sync`).
- **Checkerboard stereo.** `decomposeCheckerboardStereoUchar` turns each 2x2
  block of an RGBA image into one left-eye and one right-eye pixel. Each is
  the mean of the two diagonals of the block (`ImageUtils`).
- **The phone's read loop.** It writes a 4-byte acknowledgement on every
  100th iteration and reads a signed big-endian length. It rejects lengths
  outside 0..4 MiB, stops at 0, grows its buffer and reads the payload
  (`Receiver`).
- **Cross-checks.** Lemmas tie the two ends together (`Protocol`). A stream
  of deliverable frames followed by the poison frame is read back as exactly
  those frames, ending normally.

The host's libusb calls are replaced by oracles:
- `UsbBus` says which devices open and what they report;
- `ControlPort` says which control requests succeed;
- a finite sequence of `Poll` results stands in for the handshake reads;
- `written: nat -> int` gives the byte count of the n-th bulk write.

The phone's input stream is a byte sequence, and `ackWritable` says which
acknowledgement writes succeed. A worker thread is a method that receives its
`InterruptibleThread` cancel flag.

## Model

| member | source | states |
|---|---|---|
| Wire.BigEndian32 | MayaUsbStreamer/MayaUsbDevice.cpp:286-288 | `native_to_big` of a 32-bit length is 4 bytes; `BigEndian32RoundTrip` gives their value |
| Wire.Unsigned32 | MayaUsbStreamer/MayaUsbDevice.cpp:286-288 | 4 bytes read most significant first give a value below 2^32 |
| Wire.BigEndian32RoundTrip | MayaUsbStreamer/MayaUsbDevice.cpp:286-288 | the 4 big-endian bytes of a value below 2^32 read back as that value |
| Wire.Unsigned32Determines | MayaUsbStreamer/MayaUsbDevice.cpp:286-288 | every 4-byte sequence is the big-endian encoding of the value it reads as, so the prefix is the one and only encoding of the length |
| Wire.SignedInt32 | MayaUsbReceiver/app/src/main/java/me/sdao/mayausbreceiver/MainActivity.java:211 | `readInt` yields a 32-bit signed value, negative exactly when the top bit of the first byte is set, congruent modulo 2^32 to the unsigned reading |
| Wire.SignedReadOfSmallValue | MayaUsbReceiver/app/src/main/java/me/sdao/mayausbreceiver/MainActivity.java:211 | a length below 2^31, written big-endian, is read back by `readInt` as itself |
| Wire.Int16LittleEndian | MayaUsbStreamer/MayaUsbDevice.cpp:127-142 | the 2-byte control reply as an `int16_t`: in range, negative exactly when the high byte's top bit is set, congruent to the unsigned value modulo 2^16 |
| DeviceIds.DefaultId | MayaUsbStreamer/MayaUsbDevice.h:41 | a default-constructed id is (0, 0) |
| DeviceIds.AoapIds | MayaUsbStreamer/MayaUsbDevice.h:43-48 | the default candidates are exactly Google's accessory id and then the accessory + ADB id |
| DeviceIds.SingleCandidate | MayaUsbStreamer/MayaUsbDevice.cpp:12-13 | the two-argument constructor tries exactly the one given id |
| Threads.InterruptibleThread.constructor | MayaUsbStreamer/MayaUsbDevice.h:19-25 | a new worker starts with its cancel flag clear |
| Threads.InterruptibleThread.Cancel | MayaUsbStreamer/MayaUsbDevice.h:31 | after `cancel()` the flag is set |
| Threads.InterruptibleThread.IsCancelled | MayaUsbStreamer/MayaUsbDevice.h:32 | `isCancelled()` reports whether the flag is set |
| Threads.InterruptibleThread.Destroy | MayaUsbStreamer/MayaUsbDevice.h:27-29 | destroying a worker leaves its flag set |
| ImageUtils.PixelOffset | MayaUsbStreamer/ImageUtils.h:12-15 | a pixel of a row lies within that row's span of the buffer |
| ImageUtils.Average | MayaUsbStreamer/ImageUtils.h:40-46 | the unsigned-char blend is the floor of the mean and lies between its two inputs |
| ImageUtils.TargetOffsets | MayaUsbStreamer/ImageUtils.h:69-73 | the `lDest`/`rDest` addresses of block (row, col) are pixels (row/2, col/2) and (row/2, col/2 + w/2) of the destination |
| ImageUtils.TargetsWithinTopHalf | MayaUsbStreamer/ImageUtils.h:67-77 | a block's left target is in the left half of the row row/2 and its right target in the right half, both within the top h/2 rows and within w*h*4 bytes |
| ImageUtils.TopHalfPixelHasWriter | MayaUsbStreamer/ImageUtils.h:67-77 | every pixel of the top half is written by some block: the left half by left-eye values, the right half by right-eye values |
| ImageUtils.TargetDeterminesBlock | MayaUsbStreamer/ImageUtils.h:67-77 | a destination pixel determines the block that writes it and the eye it gets, so no pixel is written twice |
| ImageUtils.LeftRightDisjoint | MayaUsbStreamer/ImageUtils.h:70-73 | no block's left target is any block's right target |
| ImageUtils.SourceBlockInBounds | MayaUsbStreamer/ImageUtils.h:36-37 | the 2x2 block at an even position inside the image lies within the w*h*4 source bytes |
| ImageUtils.DecomposedAtTargets | MayaUsbStreamer/ImageUtils.h:40-46 | after decomposition, the left target holds the mean of the top-left and bottom-right pixels and the right target the mean of the top-right and bottom-left pixels, per colour component |
| ImageUtils.DecomposedAtPixel | MayaUsbStreamer/ImageUtils.h:40-46 | each colour byte of a top-half pixel is the blend its owning block computes for its eye |
| ImageUtils.DecomposedKeepsRest | MayaUsbStreamer/ImageUtils.h:40-46 | the fourth (X) component of every destination pixel and every byte beyond the top half keep their old values |
| ImageUtils.ProcessBlockUchar | MayaUsbStreamer/ImageUtils.h:33-47 | one block writes the two blended pixels at `lDest` and `rDest` and no other byte |
| ImageUtils.DecomposeCheckerboardStereoUchar | MayaUsbStreamer/ImageUtils.h:49-80 | succeeds exactly when both dimensions are even and the destination holds w*h*4 bytes; on failure the destination is untouched, on success it equals the decomposition of the source |
| Discovery.FirstOpenable | MayaUsbStreamer/MayaUsbDevice.cpp:24-35 | an id that is bound is one of the candidates and one that opens |
| Discovery.FirstOpenableIsFirst | MayaUsbStreamer/MayaUsbDevice.cpp:24-35 | no candidate is bound iff no candidate opens; otherwise the bound id is a candidate that opens and none before it opens |
| Discovery.AccessoryPreferredOverAdb | MayaUsbStreamer/MayaUsbDevice.h:43-48 | when the plain accessory id opens it is bound, whether or not the ADB id would also open |
| Discovery.SelectCandidate | MayaUsbStreamer/MayaUsbDevice.cpp:24-35 | the id loop binds the first candidate that opens, or none |
| Discovery.IsInEndpoint | MayaUsbStreamer/MayaUsbDevice.cpp:85-86 | masking with 0b10000000 classifies an endpoint as IN exactly when its address is at least 0x80, so an IN address is never 0 |
| Discovery.LastInDirection | MayaUsbStreamer/MayaUsbDevice.cpp:83-93 | the value a field holds after the endpoint loop is either its value before the loop or one of the interface's addresses of that field's direction |
| Discovery.NoneInDirection | MayaUsbStreamer/MayaUsbDevice.cpp:83-93 | with no endpoint of a direction, that direction's field keeps the value it had before the loop |
| Discovery.LastInDirectionIsLast | MayaUsbStreamer/MayaUsbDevice.cpp:83-93 | with an endpoint of a direction, the field ends as the address of the last endpoint of that direction |
| Discovery.ClassifyEndpoints | MayaUsbStreamer/MayaUsbDevice.cpp:83-93 | the endpoint loop as written, from whatever values the fields held: each field ends as the last address of its direction, or its prior value |
| Discovery.UninitialisedInEndpointSurvives | MayaUsbStreamer/MayaUsbDevice.cpp:15-21 | a device with only an OUT endpoint keeps a garbage `_inEndpoint` (0x81 here), which is non-zero |
| Discovery.ResolveEndpoints | MayaUsbStreamer/MayaUsbDevice.cpp:83-93 | with both fields starting at 0: `in` is 0 iff there is no IN endpoint, and (addresses being non-zero) `out` is 0 iff every endpoint is IN |
| Discovery.Hex4RoundTrip | MayaUsbStreamer/MayaUsbDevice.cpp:117-119 | a 16-bit id printed as four zero-padded hex digits parses back to itself |
| Discovery.Description | MayaUsbStreamer/MayaUsbDevice.cpp:115-125 | the description is 11 characters longer than the two strings together |
| Discovery.DescriptionLayout | MayaUsbStreamer/MayaUsbDevice.cpp:115-125 | the description is `vvvv:pppp manufacturer product`: the hex fields parse back to the ids and the strings appear unchanged between the separators |
| Discovery.Connect | MayaUsbStreamer/MayaUsbDevice.cpp:15-93 | the constructor fails with "no device" iff no candidate opens; otherwise it fails at the first unreadable descriptor, in source order, or yields the first openable id, its strings and its classified endpoints |
| Accessory.GetProtocolRequest | MayaUsbStreamer/MayaUsbDevice.cpp:127-142 | request 51 is a device-to-host vendor request (direction bit set) that carries no data |
| Accessory.SendStringRequest | MayaUsbStreamer/MayaUsbDevice.cpp:158-173 | request 52 for string k is a host-to-device request at wIndex k carrying identity string k |
| Accessory.StartRequest | MayaUsbStreamer/MayaUsbDevice.cpp:144-156 | request 53 is a host-to-device request that carries no data |
| Accessory.SendStrings | MayaUsbStreamer/MayaUsbDevice.cpp:182-198 | the string phase sends at most the remaining strings, and a failed phase has sent at least the refused request |
| Accessory.ConvertToAccessory | MayaUsbStreamer/MayaUsbDevice.cpp:175-202 | negotiation always starts with the version request and sends at most the 8 protocol requests, all 8 when it succeeds |
| Accessory.ProtocolSequence | MayaUsbStreamer/MayaUsbDevice.cpp:175-202 | the full negotiation is 8 control requests |
| Accessory.SendStringsInOrder | MayaUsbStreamer/MayaUsbDevice.cpp:182-198 | the identity strings are sent as request 52 with indices 0..5, in order, and never more than six |
| Accessory.SendStringsSucceedIff | MayaUsbStreamer/MayaUsbDevice.cpp:182-198 | sending the strings succeeds iff the device accepts every remaining one, and then all of them were sent |
| Accessory.SendStringsStopAtRefusal | MayaUsbStreamer/MayaUsbDevice.cpp:158-173 | on failure the last request sent is the one the device refused, it names that request, and every earlier one was accepted |
| Accessory.ConvertSucceedsIff | MayaUsbStreamer/MayaUsbDevice.cpp:175-202 | conversion succeeds iff the version reply arrives and is at least 1, every string is accepted and the start request is accepted; on success the full 8-request sequence was sent |
| Accessory.NoStringsWithoutProtocol | MayaUsbStreamer/MayaUsbDevice.cpp:176-180 | a failed or zero version request stops negotiation before any string is sent |
| Accessory.SentIsProtocolPrefix | MayaUsbStreamer/MayaUsbDevice.cpp:175-202 | whatever happens, the requests sent are a non-empty prefix of the protocol sequence, and every string request before the last was accepted |
| Handshake.HandshakeRun | MayaUsbStreamer/MayaUsbDevice.cpp:215-241 | a received handshake reports the count of a poll that did not time out and came before the cancel; a cancelled run was cancelled within the trace; a run still polling was not cancelled within it |
| Handshake.FirstNonTimeoutIsFirst | MayaUsbStreamer/MayaUsbDevice.cpp:220-228 | the poll index found is the first whose status is not a timeout, or all remaining polls time out |
| Handshake.HandshakeOutcome | MayaUsbStreamer/MayaUsbDevice.cpp:220-241 | the poll loop is cancelled when the cancel comes no later than the first non-timeout poll; otherwise it receives that poll's byte count |
| Handshake.ReceivedBeforeCancel | MayaUsbStreamer/MayaUsbDevice.cpp:220-241 | a read that completes after only timeouts and before any cancel is the handshake received |
| Handshake.PollForHandshake | MayaUsbStreamer/MayaUsbDevice.cpp:215-229 | the imperative poll loop ends as the run of the poll trace predicts, immediately when the flag is already set |
| Framing.FramePrefix | MayaUsbStreamer/MayaUsbDevice.cpp:286-288 | the prefix is 4 bytes reading back as the length modulo 2^32 |
| Framing.PoisonIsEmptyPrefix | MayaUsbStreamer/MayaUsbDevice.cpp:272-279 | the cancel-time frame `0 0 0 0` is the prefix of an empty payload |
| Framing.ChunkLength | MayaUsbStreamer/MayaUsbDevice.cpp:304 | a chunk is non-empty and at most 16384 bytes, and a short one reaches the end of the payload |
| Framing.ChunksFrom | MayaUsbStreamer/MayaUsbDevice.cpp:301-316 | there are no chunks exactly when no payload remains from the offset (`ChunkShape` gives their sizes) |
| Framing.ChunksReassemble | MayaUsbStreamer/MayaUsbDevice.cpp:301-316 | the chunks, concatenated, are the payload |
| Framing.ChunkShape | MayaUsbStreamer/MayaUsbDevice.cpp:301-316 | there are ceil(n/16384) chunks, all full except possibly the last |
| Framing.TwoChunkExample | MayaUsbStreamer/MayaUsbDevice.cpp:301-316 | a 20000-byte payload is sent as exactly two chunks, its first 16384 bytes and then its remaining 3616 bytes |
| Framing.FrameTransfers | MayaUsbStreamer/MayaUsbDevice.cpp:284-316 | a frame is sent as one 4-byte transfer holding the length modulo 2^32, then exactly one transfer per chunk of the payload |
| Framing.EncodeFrame | MayaUsbStreamer/MayaUsbDevice.cpp:284-316 | an encoded frame is 4 bytes longer than its payload; its first 4 bytes read as the length and the rest is the payload unchanged |
| Framing.FrameTransfersSpellFrame | MayaUsbStreamer/MayaUsbDevice.cpp:284-316 | the prefix and chunks, concatenated, are the length prefix followed by the payload |
| Framing.NoShortChunkIff | MayaUsbStreamer/MayaUsbDevice.cpp:312-315 | no chunk write falls short iff every chunk write reports at least the chunk's length |
| Framing.ShortChunkIsFirst | MayaUsbStreamer/MayaUsbDevice.cpp:312-315 | the reported short write is the first one, and every earlier chunk was written whole |
| Framing.IssuedChunks | MayaUsbStreamer/MayaUsbDevice.cpp:301-316 | some chunk transfer is issued exactly when payload remains from the offset |
| Framing.IssuedChunksArePrefix | MayaUsbStreamer/MayaUsbDevice.cpp:301-316 | the chunks issued up to the first short write are a prefix of the frame's chunks, all of them when no write is short |
| Streamer.RgbaIndex | MayaUsbStreamer/MayaUsbDevice.cpp:337-341 | RGB byte i comes from component i mod 3 of pixel i/3 of the RGBA source |
| Streamer.RgbFromRgba | MayaUsbStreamer/MayaUsbDevice.cpp:336-343 | the RGB image has exactly 3 bytes per pixel |
| Streamer.RgbChannel | MayaUsbStreamer/MayaUsbDevice.cpp:336-343 | component c of RGB pixel p is the quantised component c of RGBA pixel p, and alpha is dropped |
| Streamer.UsbLibrary.InitUsb | MayaUsbStreamer/MayaUsbDevice.cpp:371-377 | initialisation is a no-op once a context exists; otherwise the new context is stored |
| Streamer.UsbLibrary.ExitUsb | MayaUsbStreamer/MayaUsbDevice.cpp:379-385 | exit releases an existing context once and always leaves none |
| Streamer.MayaUsbDevice.constructor | MayaUsbStreamer/MayaUsbDevice.cpp:15-21 | a device holds the connection's id, strings and endpoints, a fresh 16 MiB RGB buffer, no handshake, no pending frame and no worker |
| Streamer.MayaUsbDevice.GetDescription | MayaUsbStreamer/MayaUsbDevice.cpp:115-125 | the description is `vvvv:pppp manufacturer product`: the hex fields parse back to the device's ids, and the ':' and ' ' separators sit between the ids and the two strings |
| Streamer.MayaUsbDevice.IsHandshakeComplete | MayaUsbStreamer/MayaUsbDevice.cpp:248-250 | reports the flag `HandshakeWorker` stores |
| Streamer.MayaUsbDevice.WaitHandshakeAsync | MayaUsbStreamer/MayaUsbDevice.cpp:204-246 | a worker starts iff there is an IN endpoint and no handshake yet; the new worker is uncancelled, and a replaced one is cancelled |
| Streamer.MayaUsbDevice.HandshakeWorker | MayaUsbStreamer/MayaUsbDevice.cpp:214-242 | when the poll loop receives, the handshake flag and the callback both become "read > 0"; when it is cancelled nothing is reported; once the loop ends the flag is set |
| Streamer.MayaUsbDevice.BeginSendLoop | MayaUsbStreamer/MayaUsbDevice.cpp:252-327 | the send loop starts iff there is an OUT endpoint and the handshake succeeded |
| Streamer.MayaUsbDevice.SendLoopStep | MayaUsbStreamer/MayaUsbDevice.cpp:263-321 | on cancel exactly the poison frame is written and the loop exits quietly; otherwise the length prefix, then the chunks up to the first short write, are issued; a short write exits with the failure callback; a full frame clears the pending flag |
| Streamer.MayaUsbDevice.SendRgbaFloat32Sync | MayaUsbStreamer/MayaUsbDevice.cpp:329-369 | an oversized image changes nothing; otherwise the RGB buffer holds the quantised image, and a new JPEG is handed over only when the lock is taken and no frame is pending |
| Streamer.MayaUsbDevice.Close | MayaUsbStreamer/MayaUsbDevice.cpp:98-113 | closing cancels the running worker and closes the handle |
| Streamer.OpenDevice | MayaUsbStreamer/MayaUsbDevice.cpp:15-96 | "no device" iff no candidate opens; otherwise the first unreadable descriptor, in source order, is the error; when all read, a fresh device holds the first openable id, its strings and its classified endpoints, with no handshake, no pending frame and no worker |
| Legacy.StagedChunk | MayaUsbDevice.cpp:238-239 | every transfer is a full 16384-byte buffer |
| Legacy.IssuedSync | MayaUsbDevice.cpp:237-251 | a transfer is issued whenever payload remains, and none when it does not |
| Legacy.IssuedSyncStartsAtDataStart | MayaUsbDevice.cpp:237-251 | as written, every transfer starts with the payload's first byte, whatever its offset |
| Legacy.SyncRepeatsFirstChunk | MayaUsbDevice.cpp:239 | a 16385-byte payload whose last byte is 1 is sent with a second transfer that starts with 0, not with its second chunk |
| Legacy.SyncCarriesEveryChunk | MayaUsbDevice.cpp:237-251 | copying from the chunk's offset, transfer k carries chunk k of the payload, padded to 16384 bytes |
| Legacy.UsbLibrary.InitUsb | MayaUsbDevice.cpp:256-265 | a context is stored only when none exists and `libusb_init` succeeds |
| Legacy.UsbLibrary.ExitUsb | MayaUsbDevice.cpp:267-273 | exit releases an existing context once and always leaves none |
| Legacy.MayaUsbDevice.constructor | MayaUsbDevice.cpp:13-91 | a device holds the connection's id, strings and endpoints, a fresh 16384-byte transfer buffer and no worker |
| Legacy.MayaUsbDevice.WaitHandshakeAsync | MayaUsbDevice.cpp:195-230 | a worker starts iff there is an IN endpoint; the new worker is uncancelled, and a replaced one is cancelled |
| Legacy.MayaUsbDevice.HandshakeWorker | MayaUsbDevice.cpp:200-227 | the callback reports "read > 0" exactly when the poll loop receives, and the flag is set once the loop ends |
| Legacy.MayaUsbDevice.SendDataSync | MayaUsbDevice.cpp:232-254 | without an OUT endpoint nothing is sent; otherwise the transfers as written are issued up to the first short write, and the result is true iff no write is short; the staging buffer ends holding the last transfer |
| Legacy.MayaUsbDevice.SendDataSyncCorrected | MayaUsbDevice.cpp:232-254 | the same, with each transfer staged from its own offset |
| Legacy.MayaUsbDevice.Stage | MayaUsbDevice.cpp:238-239 | the `memcpy` leaves the staging buffer holding the staged chunk: the chunk length of bytes from the start of the data (or the offset), the rest of the buffer unchanged |
| Legacy.MayaUsbDevice.SendStaged | MayaUsbDevice.cpp:237-253 | the send loop, staged from the start of the data or from each chunk's offset: the transfers are the issued sequence up to the first short write, and the staging buffer ends holding the last one |
| Legacy.MayaUsbDevice.Close | MayaUsbDevice.cpp:93-104 | closing cancels the running worker and closes the handle |
| Receiver.HandshakeMessage | MayaUsbReceiver/app/src/main/java/me/sdao/mayausbreceiver/MainActivity.java:177 | the handshake is 16384 zero bytes |
| Receiver.SendHandshake | MayaUsbReceiver/app/src/main/java/me/sdao/mayausbreceiver/MainActivity.java:174-183 | the phone writes the handshake and reports success iff the write succeeds |
| Receiver.Iterate | MayaUsbReceiver/app/src/main/java/me/sdao/mayausbreceiver/MainActivity.java:205-224 | an iteration acknowledges iff its count is a multiple of 100 and the write works; a failed acknowledgement ends the loop; a frame read is 1..4 MiB long, fully present and announced by its prefix; an out-of-range length is negative or over 4 MiB |
| Receiver.ReadLoop | MayaUsbReceiver/app/src/main/java/me/sdao/mayausbreceiver/MainActivity.java:205-239 | the buffer never grows past 4 MiB, and an out-of-range end carries an out-of-range length |
| Receiver.FramesWithinPeak | MayaUsbReceiver/app/src/main/java/me/sdao/mayausbreceiver/MainActivity.java:220-224 | every delivered frame is non-empty and fits in the largest buffer, at most 4 MiB |
| Receiver.MultiplesIn | MayaUsbReceiver/app/src/main/java/me/sdao/mayausbreceiver/MainActivity.java:206-209 | the listed iterations are within the range and multiples of 100 |
| Receiver.AcksAreTheMultiples | MayaUsbReceiver/app/src/main/java/me/sdao/mayausbreceiver/MainActivity.java:205-239 | with working writes, acknowledgements go out on exactly the multiples of 100 among the iterations that run |
| Receiver.AckFailureEndsLoop | MayaUsbReceiver/app/src/main/java/me/sdao/mayausbreceiver/MainActivity.java:207-209 | a failed acknowledgement write ends the loop in error before anything is read |
| Receiver.ReadFully | MayaUsbReceiver/app/src/main/java/me/sdao/mayausbreceiver/MainActivity.java:224 | the payload lands at the start of the buffer and is the next `size` bytes of the stream |
| Receiver.PostedCompletions | MayaUsbReceiver/app/src/main/java/me/sdao/mayausbreceiver/MainActivity.java:240-254 | the last completion posted is always success, and the first is success iff the stream ended with the zero length |
| Receiver.ErrorAlsoReportsSuccess | MayaUsbReceiver/app/src/main/java/me/sdao/mayausbreceiver/MainActivity.java:240-254 | after a truncated stream the callback is posted `false` and then `true`, so the last report is success |
| Receiver.IntendedCompletions | MayaUsbReceiver/app/src/main/java/me/sdao/mayausbreceiver/MainActivity.java:240-254 | exactly one report, success iff the stream ended with the zero length |
| Receiver.IntendedMatchesPostedOnlyOnCleanEnd | MayaUsbReceiver/app/src/main/java/me/sdao/mayausbreceiver/MainActivity.java:240-254 | the code's reports agree with the single intended report iff the stream ended cleanly |
| Receiver.ReadHeader | MayaUsbReceiver/app/src/main/java/me/sdao/mayausbreceiver/MainActivity.java:206-218 | the acknowledgement and length part of one iteration: it stops exactly as the iteration does, or yields a length in 1..4 MiB announced by the prefix |
| Receiver.RunReadThread | MayaUsbReceiver/app/src/main/java/me/sdao/mayausbreceiver/MainActivity.java:185-256 | the imperative loop delivers the frames, end, acknowledgements and buffer capacity of the read-loop function, and posts its completions |
| Protocol.EncodeStream | MayaUsbStreamer/MayaUsbDevice.cpp:263-321 | what the host sends for a run of frames always ends with the poison frame `0 0 0 0` |
| Protocol.SentFrameSpellsFrame | MayaUsbStreamer/MayaUsbDevice.cpp:284-316 | when every write is whole, the send loop's transfers for one frame spell the length prefix followed by the payload |
| Protocol.PrefixReadsAsLength | MayaUsbReceiver/app/src/main/java/me/sdao/mayausbreceiver/MainActivity.java:211-214 | the host's prefix for a payload of at most 4 MiB is read by the phone as that length |
| Protocol.ReadLoopShift | MayaUsbReceiver/app/src/main/java/me/sdao/mayausbreceiver/MainActivity.java:205-239 | bytes already consumed do not affect the rest of the read loop |
| Protocol.OneFrameRoundTrip | MayaUsbReceiver/app/src/main/java/me/sdao/mayausbreceiver/MainActivity.java:211-224 | a deliverable encoded frame is read back whole and the loop continues after it |
| Protocol.PoisonEndsStream | MayaUsbReceiver/app/src/main/java/me/sdao/mayausbreceiver/MainActivity.java:216-217 | the host's poison frame ends the phone's loop normally with nothing delivered |
| Protocol.StreamRoundTrip | MayaUsbReceiver/app/src/main/java/me/sdao/mayausbreceiver/MainActivity.java:205-239 | deliverable frames sent by the host, then the poison frame, are read by the phone as exactly those frames in order, ending normally |
| Protocol.OversizeFrameRejected | MayaUsbReceiver/app/src/main/java/me/sdao/mayausbreceiver/MainActivity.java:214-215 | a payload over 4 MiB and below 2^31 bytes is announced with its own length, which ends the stream in error without delivering it |
| Protocol.EmptyFrameEndsStream | MayaUsbReceiver/app/src/main/java/me/sdao/mayausbreceiver/MainActivity.java:216-217 | an empty JPEG is indistinguishable from the poison frame and ends the stream |
| Protocol.TenByteFrame | MayaUsbStreamer/MayaUsbDevice.cpp:284-316 | a 10-byte payload is sent as `0 0 0 10` then the payload, and read back |
| Protocol.StreamAcks | MayaUsbReceiver/app/src/main/java/me/sdao/mayausbreceiver/MainActivity.java:206-209 | reading n frames and the poison frame acknowledges exactly the multiples of 100 among the n+1 iterations |
| Protocol.HandshakeAccepted | MayaUsbReceiver/app/src/main/java/me/sdao/mayausbreceiver/MainActivity.java:149-157 | the phone's 16384-byte handshake, read before any cancel, is taken by the host as a successful handshake |

## Left out

- `processBlockFloat` and `decomposeCheckerboardStereoFloat` (ImageUtils.h:17-31, 82-86): float arithmetic and the truncating float-to-byte cast are not modelled. The float path shares the loop and the bounds reasoning with the uchar path.
- Streamer.MayaUsbDevice.SendRgbaFloat32Sync: the float-to-byte quantisation (`val * 255.9999f`) and the TurboJPEG compression are parameters (`quantize`, `compress`). `initJpeg`/`exitJpeg` and the JPEG buffer management are not modelled. The size `width * height * 3` is an unbounded product in the model. The code computes it from the texture description's 32-bit unsigned fields, so the product wraps when w*h*3 >= 2^32. For example, a 37838x37838 texture wraps to 175436 bytes, passes the size check and is converted and compressed, while the model returns 0 and changes nothing.
- Threads, the mutex and the condition variable are not modelled. A lock that may or may not be taken is the parameter `lockAcquired`. A cancel from another thread is a poll index `cancelAt`, or a set flag before a send-loop step. The send loop is modelled one step (one wakeup) at a time.
- Streamer.MayaUsbDevice.Close, Legacy.MayaUsbDevice.Close: the one-second sleep that lets the worker see the cancel is not modelled. Freeing the buffers is not modelled either.
- The libusb calls are oracles. Control transfers, bulk transfers, timeouts and device enumeration are parameters; nothing models the USB bus itself.
- `beginReadLoop`, `sendStereo` and `supportsRasterFormat` are declared in MayaUsbStreamer/MayaUsbDevice.h but not defined in MayaUsbStreamer/MayaUsbDevice.cpp. Nothing is modelled for them.
- The handshake state is the code's single bool `_handshake` (MayaUsbStreamer/MayaUsbDevice.h:66).
- The mailbox drops a new frame while one is pending. This follows the code.
- Handshake.PollForHandshake: the poll trace is finite. When it runs out before a non-timeout read or a cancel, the run ends as `StillPolling`, which stands for a loop that would go on.
- Discovery.Connect: the device objects of both versions start their endpoint fields at 0 (`ResolveEndpoints`), the corrected behaviour listed under Findings. The code leaves the fields uninitialised. So the models of `waitHandshakeAsync` and `beginSendLoop` refuse an absent direction, where the code may go on with a garbage endpoint. The code's behaviour is modelled separately by `Discovery.ClassifyEndpoints` from arbitrary starting values.
- Streamer.UsbLibrary.InitUsb: the status of `libusb_init` is ignored, as in the code, so the stored context is a parameter.
- Wire.Int16LittleEndian: the reply bytes of `getControlInt16` are read as a little-endian `int16_t`. This assumes a little-endian host.
- String descriptors are truncated at 256 bytes and at the first NUL. This is not modelled: manufacturer and product are whatever the bus oracle reports.
- Exceptions are error results. The code throws some with `throw new` (in `convertToAccessory`) and others by value; the model does not tell them apart.
- Receiver.RunReadThread: the Java `int i` counter cannot overflow in the model, because iterations are unbounded naturals.
- The Android UI is not modelled: toasts, closing the `ParcelFileDescriptor`, bitmap decoding and drawing to the surface. Decoding a frame is taken to succeed.
- The MayaUsbStreamer.cpp plug-ins that drive the devices are not part of this model.

## Findings

| source | as written | input that shows it | evidently intended | confidence | as-written member | corrected member |
|---|---|---|---|---|---|---|
| MayaUsbDevice.cpp:239 | every transfer is staged with `memcpy(_syncReadBuffer, data, available)`, always from the start of `data` | a 16385-byte payload whose last byte is 1: the second transfer starts with byte 0 of the payload, not byte 16384 | copy from `data + i`, so transfer k carries chunk k | not executed | Legacy.SyncRepeatsFirstChunk | Legacy.SyncCarriesEveryChunk |
| MayaUsbReceiver/app/src/main/java/me/sdao/mayausbreceiver/MainActivity.java:240-254 | after an exception, `onCompleted(false)` is posted, then `onCompleted(true)` is posted unconditionally | a stream truncated mid-payload: reports `false` then `true` | report once, `true` only when the zero length ended the stream | not executed | Receiver.ErrorAlsoReportsSuccess | Receiver.IntendedMatchesPostedOnlyOnCleanEnd |
| MayaUsbStreamer/MayaUsbDevice.cpp:15-21 | `_inEndpoint` and `_outEndpoint` are never initialised, and the endpoint loop only assigns directions that are present | a device with the single OUT endpoint 0x01 and a garbage `_inEndpoint` of 0x81: the guard `_inEndpoint == 0` in `waitHandshakeAsync` lets the handshake poll a non-existent endpoint | both fields start at 0, so an absent direction reads as 0 | not executed | Discovery.UninitialisedInEndpointSurvives | Discovery.ResolveEndpoints |
