# Serial telemetry frame detector

This project models the receive pipeline of `usePortProvider`, the React
hook that reads the motion controller's serial port. Each chunk the port
delivers is split into single bytes (`mergeAll`). Each byte then goes
through one step (`mergeMap`) that does the following:

- It appends the byte to a captured buffer and keeps only the latest 160
  bytes.
- It waits until at least eight bytes are held.
- It looks for the end marker `0x95 'B' 'E' 'P' CR LF SUB LF` at the tail.
- It cuts the candidate packet `buffer.slice(length - 80, length)` and
  checks the start marker `0x94 'B' 'E' 'P' CR LF SUB LF` at its head.
- It decodes fourteen numeric fields and four buttons through typed-array
  views, emits the frame and empties the buffer.

The project has five modules:

- `Wrappers`: `Option` and `Result`.
- `TypedArrays`: the JavaScript byte operations the step relies on.
  - `Uint8Array.prototype.slice` with its relative-index rule.
  - Little-endian words and their inverse.
  - Two's complement 16-bit reinterpretation.
  - Element 0 of a `Uint16Array`, `Uint32Array` or `Int16Array` built over
    a slice. Such a view throws `RangeError` when the byte length is not a
    multiple of the element size. Element 0 of an empty view is `undefined`.
- `Telemetry`: the two markers, the frame layout, the button bits and
  `Decode`.
- `Framing`: the step as a function `Next` on a `State`, and the streams
  `Run` (bytes) and `RunChunks` (chunks). It also has the class
  `Detector`:
  - its fields are the captured buffer and whether the subscription has
    ended;
  - `Step` is the imperative step and is proved equal to `Next`;
  - `Feed` feeds one chunk, byte by byte.
- `Scenarios`: concrete streams. They include the three-chunk example, and
  show how the step behaves on packets shorter and longer than 80 bytes.

Three behaviours of the code are modelled as written.

1. **Short packets.** While fewer than 80 bytes are held, `length - 80` is
   negative, and `slice` counts it from the end. So the packet is the whole
   buffer when at most 40 bytes are held, and the last `80 - length` bytes
   when 40 to 79 are held. Such a packet passes the start check when it has
   at least 16 bytes and begins with the start marker. It is then decoded:
   - fields past its end read as `undefined`;
   - all four buttons read as released, because `undefined & mask` is 0.

   For example, the two markers back to back give a frame. Its globalTime,
   count and globalVersion are read from the end marker's bytes.
2. **Decode errors.** A short packet can end inside a field. One example is
   a 17-byte packet, where `number` has one byte left. Its typed-array
   constructor then throws. The exception escapes `mergeMap` and ends the
   subscription, so no later byte is ever processed. This is modelled as a
   sticky `errored` flag: the buffer keeps the held bytes and nothing is
   emitted from then on.
3. **Payload length.** A frame is start marker, 64 payload bytes, end
   marker: 80 bytes. With 72 payload bytes between the markers, the last 80
   bytes begin inside the payload. The start check then fails, the buffer is
   dropped and nothing is emitted. `Scenarios.SeventyTwoBytePayloadDropped`
   shows this on the 72-byte variant of the three-chunk example. The
   64-byte version, `Scenarios.ThreeChunkExample`, emits the expected frame.

The provider's `disconnect` only closes the port. The buffer lives in an
effect that runs once (dependency list `[]`), so it is not reset on
disconnect or reconnect. The model therefore has no reset operation besides
the ones inside the step.

## Model

| member | source | states |
|---|---|---|
| Telemetry.MarkerBytes | src/renderer/src/hooks/usePort.ts:7-26 | Both markers have eight bytes, begin with 0x94 and 0x95, and agree after byte 0. Neither 0x94 nor 0x95 occurs after byte 0, so a shifted marker never lines up with the other. |
| TypedArrays.JsSlice | src/renderer/src/hooks/usePort.ts:122 | `slice(start, end)` is the contiguous run of the input that starts at the resolved start index. For non-negative bounds it is the ordinary clamped subsequence. A negative start with the end at or past the length gives the last -start elements, or all of them when there are fewer. |
| TypedArrays.ToInt16 | src/renderer/src/hooks/usePort.ts:139-141 | The signed reading of a 16-bit word lies in [-32768, 32768) and is congruent to the word modulo 65536. |
| TypedArrays.LittleEndianOfLeBytes | src/renderer/src/hooks/usePort.ts:130-143 | Encoding a number below 256^width into width little-endian bytes and reading it back gives the number. |
| TypedArrays.LeBytesOfLittleEndian | src/renderer/src/hooks/usePort.ts:130-143 | Reading a byte string as a little-endian number and encoding it back gives the same bytes. |
| TypedArrays.FirstUint | src/renderer/src/hooks/usePort.ts:130-135 | Element 0 of an unsigned view throws exactly when the byte length is not a multiple of the width. It is `undefined` exactly when the bytes are empty. Otherwise there are at least width bytes and the value lies in [0, 256^width). |
| TypedArrays.FirstUintBytes | src/renderer/src/hooks/usePort.ts:130-135 | A defined element 0 of an unsigned view is the number whose little-endian encoding is the first width bytes. |
| TypedArrays.FirstInt16 | src/renderer/src/hooks/usePort.ts:139-141 | The same for an `Int16Array`: it throws exactly on an odd byte length, is `undefined` exactly on no bytes, and otherwise lies in the signed 16-bit range. |
| TypedArrays.FirstInt16Bytes | src/renderer/src/hooks/usePort.ts:139-141 | A defined element 0 of an `Int16Array` is the number whose two's complement little-endian encoding is the first two bytes. |
| Telemetry.CutsFieldExactly | src/renderer/src/hooks/usePort.ts:130-143 | The packet lengths that end inside a field are exactly the open intervals inside the fourteen field spans. |
| Telemetry.ReadField | src/renderer/src/hooks/usePort.ts:130-143 | One field read throws exactly when the packet ends strictly inside the field. It is `undefined` exactly when the packet ends at or before the field's offset. Otherwise the field fits in the packet. |
| Telemetry.ReadFieldValue | src/renderer/src/hooks/usePort.ts:130-143 | A defined read equals the direct little-endian reading of the field's bytes at its offset, two's complement for a signed span. |
| Telemetry.ReadAll | src/renderer/src/hooks/usePort.ts:130-143 | Read i of the fourteen reads throws exactly when the packet ends inside field i. |
| Telemetry.AssembledNumbers | src/renderer/src/hooks/usePort.ts:129-150 | On success, numeric field i of the frame object is the value of read i, in layout order. |
| Telemetry.Decode | src/renderer/src/hooks/usePort.ts:128-150 | Decoding throws exactly when the packet length ends inside a field. |
| Telemetry.BitAnd | src/renderer/src/hooks/usePort.ts:144-147 | The bitwise and of two non-negative numbers is at most either operand. |
| Telemetry.MaskTestsBit | src/renderer/src/hooks/usePort.ts:144-147 | Anding with 2^i is non-zero exactly when bit i is set. |
| Telemetry.Buttons | src/renderer/src/hooks/usePort.ts:144-149 | Four flags. Flag i is set exactly when the button slice is non-empty and bit i of its first byte is set. |
| Telemetry.ButtonsExample | src/renderer/src/hooks/usePort.ts:144-147 | The button byte 0b00001011 gives [true, true, false, true]. |
| Telemetry.DecodedFields | src/renderer/src/hooks/usePort.ts:130-143 | In a successful decode, a field is `undefined` exactly when the packet ends at or before its offset. Otherwise the field fits in the packet and holds the direct little-endian reading of its bytes (two's complement for the accelerations). |
| Telemetry.DecodedButtons | src/renderer/src/hooks/usePort.ts:128-149 | In a successful decode, the buttons are bits 0 to 3 of byte 56, or all false when the packet has no byte 56. |
| Telemetry.DecodeCompletePacket | src/renderer/src/hooks/usePort.ts:128-150 | An 80-byte packet always decodes. Each of the fourteen fields is the reading of its own offset and width, and the buttons are the low four bits of byte 56. |
| Telemetry.HeaderFieldsAtLayout | src/renderer/src/hooks/usePort.ts:130-136 | When every numeric field holds the direct reading at its layout span, globalTime to yaw are the readings of bytes 8-12, 12-14, 14-16, 16-18, 18-20, 20-24 and 24-28. |
| Telemetry.MotionFieldsAtLayout | src/renderer/src/hooks/usePort.ts:137-143 | Likewise pitch to joyY are the readings of bytes 28-32 and 32-36, the signed readings of 36-38, 38-40 and 40-42, and the readings of 48-52 and 52-56. |
| Framing.Held | src/renderer/src/hooks/usePort.ts:110-111 | Append then truncate keeps the last min(160, |buffer| + 1) bytes of buffer + [b]. |
| Framing.Packet | src/renderer/src/hooks/usePort.ts:122 | The candidate packet is a suffix of the held bytes. Its length is 80 when at least 80 bytes are held, 80 - n when 40 <= n < 80, and n when n < 40. |
| Framing.EndCheckExact | src/renderer/src/hooks/usePort.ts:117-120 | The end check holds exactly when the last eight held bytes equal the end marker. |
| Framing.StartCheckExact | src/renderer/src/hooks/usePort.ts:122-123 | Given the end marker at the tail, the start check passes exactly when the packet has at least 16 bytes and opens with the start marker. |
| Framing.NextBuffer | src/renderer/src/hooks/usePort.ts:109-155 | A stopped detector ignores the byte. Otherwise the new buffer is either the latest bytes of old buffer plus byte, or empty, and never longer than 160. |
| Framing.NextBelowSignatureLength | src/renderer/src/hooks/usePort.ts:113-115 | With fewer than eight bytes held, the step only appends and emits nothing. |
| Framing.NextWithoutEndMarker | src/renderer/src/hooks/usePort.ts:117-155 | Without the end marker at the tail, the step keeps the appended, truncated buffer and emits nothing. |
| Framing.NextResync | src/renderer/src/hooks/usePort.ts:122-126 | End marker at the tail but no start marker at the packet head: the buffer is emptied and nothing is emitted. |
| Framing.NextEmits | src/renderer/src/hooks/usePort.ts:117-152 | A frame is emitted exactly when the detector is live, both markers match and the packet does not end inside a field. The frame is then the decoded packet and the buffer is empty. |
| Framing.NextThrows | src/renderer/src/hooks/usePort.ts:128-143 | The detector stops exactly when both markers match and the packet ends inside a field. It then keeps the held bytes and emits nothing. |
| Framing.ErroredIsFinal | src/renderer/src/hooks/usePort.ts:106-158 | After the subscription has ended, no stream of bytes changes the state or emits a frame. |
| Framing.RunBounded | src/renderer/src/hooks/usePort.ts:110-111 | Whatever bytes arrive, the buffer never exceeds 160 bytes. |
| Framing.RunAppend | src/renderer/src/hooks/usePort.ts:108-109 | Feeding a + b is feeding a, then b from the state a left. The frames are those of a followed by those of b. |
| Framing.ChunkingIrrelevant | src/renderer/src/hooks/usePort.ts:108-109 | Feeding chunk by chunk gives the same frames and final state as feeding the concatenated stream. |
| Framing.QuietRun | src/renderer/src/hooks/usePort.ts:113-120 | Bytes that never complete an end marker emit nothing; the buffer then holds the latest 160 bytes of everything seen. |
| Framing.NoEarlyEndMarker | src/renderer/src/hooks/usePort.ts:7-26 | In a frame whose payload contains no end marker, no end marker is completed before its last byte, whatever bytes preceded it. |
| Framing.CompleteFrame | src/renderer/src/hooks/usePort.ts:104-157 | From any live state holding at most 160 bytes, start marker + 64 bytes without an end marker + end marker emits exactly one frame, the decoding of those 80 bytes, and leaves the buffer empty. |
| Framing.FrameHeld | src/renderer/src/hooks/usePort.ts:117-122 | Once the last byte of an 80-byte frame is held, the end check passes and the packet is exactly the frame. |
| Framing.FrameLastByte | src/renderer/src/hooks/usePort.ts:117-152 | The last byte of an 80-byte frame emits the decoded frame and empties the buffer. |
| Framing.Detector.constructor | src/renderer/src/hooks/usePort.ts:105 | The detector starts with an empty buffer and a live subscription. |
| Framing.Detector.Step | src/renderer/src/hooks/usePort.ts:109-156 | The imperative step leaves the detector in the state Next gives and returns the frame Next emits. The buffer stays within 160 bytes. |
| Framing.Detector.Feed | src/renderer/src/hooks/usePort.ts:108-109 | Feeding one chunk byte by byte leaves the state Run gives and returns the frames Run emits, in order. The buffer stays within 160 bytes. |
| Scenarios.ThreeChunkExample | src/renderer/src/hooks/usePort.ts:104-157 | Start marker, a 64-byte payload with globalTime 1000, and end marker, sent as three chunks, give exactly one frame. It has globalTime 1000, every other field 0 and all buttons released, and the buffer ends empty. |
| Scenarios.ThousandThenZeros | src/renderer/src/hooks/usePort.ts:128-150 | An 80-byte packet with 1000 at offset 8 and zeros from 12 to 72 decodes to that frame. |
| Scenarios.EmittedWhole | src/renderer/src/hooks/usePort.ts:122-152 | From the initial state, a frame with a payload under 24 bytes that contains no end marker and does not end inside a field is emitted, decoded from the whole stream. |
| Scenarios.ShortFrameShape | src/renderer/src/hooks/usePort.ts:7-26 | A frame with a payload under 24 bytes and no end marker in it is 16 to 39 bytes long, opens with the start marker, ends with the end marker and completes no end marker before its last byte. |
| Scenarios.EmitsWhole | src/renderer/src/hooks/usePort.ts:109-152 | From the initial state, such a stream is only accumulated until its last byte, which emits the decoded stream. |
| Scenarios.ShortFrameStep | src/renderer/src/hooks/usePort.ts:117-152 | With 15 to 38 bytes held that begin with the start marker, the byte that completes the end marker, when the resulting packet does not end inside a field, emits the decoding of all held bytes and empties the buffer. |
| Scenarios.ShortFrameChecks | src/renderer/src/hooks/usePort.ts:117-123 | A held stream of 16 to 39 bytes with both markers passes the end check, is its own packet and passes the start check. |
| Scenarios.QuietFromEmpty | src/renderer/src/hooks/usePort.ts:109-120 | From the initial state, at most 160 bytes without an end marker are only accumulated. |
| Scenarios.SignaturePairShortFrame | src/renderer/src/hooks/usePort.ts:122-150 | The two markers alone emit a frame with globalTime 0x50454295, count 0x0A0D and globalVersion 0x0A1A. Every other field is `undefined` and all buttons are released. |
| Scenarios.MarkersAsPacket | src/renderer/src/hooks/usePort.ts:128-150 | A 16-byte packet whose second half is the end marker decodes to that short frame. |
| Scenarios.SplitFieldStopsDetector | src/renderer/src/hooks/usePort.ts:128-143 | Start marker, any one byte, end marker: the detector stops, holding those 17 bytes. Nothing sent afterwards emits anything. |
| Scenarios.OverlongFrameDropped | src/renderer/src/hooks/usePort.ts:122-126 | With a 72- to 144-byte payload that contains no end marker and whose bytes 80 from the end are not the start marker, the frame is dropped and the buffer emptied. |
| Scenarios.ResyncStep | src/renderer/src/hooks/usePort.ts:117-126 | With 79 to 159 bytes held, a byte that completes the end marker while the byte 80 from the end does not start a start marker empties the buffer and emits nothing. |
| Scenarios.SeventyTwoBytePayloadDropped | src/renderer/src/hooks/usePort.ts:122-126 | The three-chunk example with a 72-byte payload emits nothing and ends with an empty buffer. |
| Scenarios.EndSignatureWords | src/renderer/src/hooks/usePort.ts:17-26 | The end marker's bytes read as the little-endian words 0x50454295, 0x0A0D and 0x0A1A. |

The specification functions `Framing.Next` (usePort.ts:109-156), `Framing.EndCheck` (117-120), `Framing.StartCheck` (123), `Framing.Run` (108-109), and `Framing.RunChunks` and `Framing.Flatten` (the chunks of the `Subject` flattened by `mergeAll`, 106-108, covered by `Framing.ChunkingIrrelevant`), and the `slice` helper `TypedArrays.RelativeIndex` (111, 122), carry no row of their own. The lemmas above about them and `Framing.Detector.Step` state what they do. `Telemetry.Assemble` (129-150) is covered the same way, by `Telemetry.AssembledNumbers`, `Telemetry.Decode`, `Telemetry.DecodedFields` and `Telemetry.DecodedButtons`.

## Left out

- Opening and closing the serial port are not modelled. This covers the `data`, `open` and `close` handlers, `isOpened` and `connecting`, the `beforeunload` guard, and the React context. They are I/O and UI state around the step, not part of it.
- The `Subject` and `setData` are not modelled. Chunks are fed in arrival order, and the emitted frames are returned as a sequence rather than published to React state.
- Telemetry.Decode: yaw, pitch, roll, joyX and joyY are read through `Float32Array` in the source. Here they keep their raw little-endian 32-bit word, because IEEE-754 single precision is not modelled.
- Telemetry.DecodeCompletePacket: the float fields are stated as raw words, for the same reason.
- The platform byte order is taken to be little-endian. Typed-array views use the host byte order, and a big-endian host is not modelled.
- The RangeError is only modelled by its effect: the detector stops. The unhandled-error report of the subscription is not modelled.
- There is no buffer reset on disconnect. The code keeps the captured buffer across a disconnect and a new connection.
