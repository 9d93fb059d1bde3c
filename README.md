# RazorImuMod frame decoder

A Dafny model of the receive side of `RazorImuMod`, the C# driver for a Razor
IMU attached to a serial port. The sensor sends frames of the form

    44 49 59 64 | length | id | payload (length bytes) | ck_a | ck_b

The driver's data-received handler pushes every incoming byte through a
nine-state machine (`IMUState`). The machine finds the magic header
`D I Y d` and rejects lengths above 28. It checksums the length, id and
payload bytes with an 8-bit cascading sum and stores the payload in a
30-byte buffer. After the two checksum bytes it either counts a checksum
error or dispatches on the id: id 0x02 decodes roll, pitch and yaw, and id
0x05 decodes three analog and three accelerometer readings. Payload fields
are signed big-endian 16-bit values.

The project has five modules:

- `ImuChecksum` (`checksum.dfy`): the checksum step `Update` (ck_a and ck_b
  wrap at 256), its fold `Accumulate` over a byte sequence, and a closed form
  proved for it.
- `ImuPayload` (`payload.dfy`): the `(short)((hi << 8) | lo)` conversion, the
  two decoders, an encoder, and round-trip lemmas.
- `ImuFrame` (`frame.dfy`): the receiver's fields as a `Machine` value. `Next`
  is one case of the switch on `IMU_step`. `Run` is the loop over one chunk of
  bytes. `Good` is the invariant the loop keeps. `Dispatch` is the id chain.
- `ImuFrameProperties` (`frame_properties.dfy`): header synchronisation,
  length rejection, the checksum verdict, whole frames, resynchronisation, and
  what the per-call `message_num` does to a frame split across two calls.
- `RazorImu` (`razor_imu.dfy`): class `RazorImuMod`. It has the source's fields
  and the `IMU_buffer` array, updated in place. `Step` is one iteration of the
  `for` loop. `Feed` is the handler. `Step`, `Feed`, `TakeLength`,
  `TakePayloadByte` and `FinishFrame` keep `Valid()` (`Good` of the object's
  `State()`) and move `State()` exactly as `Next`, `Run`, `LengthStep`,
  `PayloadStep` and `ChecksumStep` move a `Machine`. The smaller helpers
  (`Checksum`, `ImuJoinData`, `ImuAnalogsJoinData`, `Restart`,
  `CountChecksumError`, `DispatchMessage`) do not require `Valid()`.
  `Checksum` states the new `ck_a`, `ck_b` as one `Update` of the old pair
  and may change nothing else; each of the others states the whole new
  `State()` in terms of the old one.

Bytes are `byte = x: int | 0 <= x < 256`. C# `byte` arithmetic is written out
as `% 256`.

The source has three quirks, and all three are modelled as written:

- `message_num` is a local of the handler, so it starts at 0 on every call.
  `Step` takes it and returns it; `Feed` starts it at 0. A frame whose id byte
  and last checksum byte arrive in different calls is dispatched on id 0
  (`SplitAfterIdLosesFrame`).
- A length of 0 does not mean an empty frame: the machine always enters
  `ReadPayload` and consumes one payload byte (`PayloadBytes`). A description
  of the protocol as "length bytes of payload" would disagree here. The model
  follows the code.
- The decoders ignore the frame's length and always read buffer offsets 0–5
  or 0–11. A short payload therefore decodes stale bytes from an earlier
  frame, which `DeliverFrame` states exactly: the buffer after the frame is
  `payload + old buffer[|payload|..]`.

## Model

| member | source | states |
|---|---|---|
| ImuChecksum.UpdateWraps | IMU_Test/RazorImuMod.cs:168-171 | ck_a gains the byte and ck_b gains the new ck_a; each sum that reaches 256 loses exactly 256 (wrap-around, no saturation) |
| ImuChecksum.AccumulateSnoc | IMU_Test/RazorImuMod.cs:168-171 | checksumming s and then x is one more checksum step after s |
| ImuChecksum.AccumulateAppend | IMU_Test/RazorImuMod.cs:168-171 | checksumming s1 + s2 continues from the checksum of s1 |
| ImuChecksum.AccumulateClosedForm | IMU_Test/RazorImuMod.cs:168-171 | after s of length n, ck_a is (ck_a + sum of s) mod 256 and ck_b is (ck_b + n·ck_a + sum of (n-i)·s[i]) mod 256 |
| ImuChecksum.ChecksumClosedForm | IMU_Test/RazorImuMod.cs:168-171 | from zero, the checksum of s is (sum mod 256, position-weighted sum mod 256) |
| ImuPayload.Int16 | IMU_Test/RazorImuMod.cs:178 | a decoded field lies in [-32768, 32767] and is negative exactly when the high byte's top bit is set |
| ImuPayload.Int16Congruent | IMU_Test/RazorImuMod.cs:178-205 | the field is congruent to the unsigned word hi:lo modulo 2^16 (the short cast keeps the low 16 bits) |
| ImuPayload.SplitInt16 | IMU_Test/RazorImuMod.cs:178-205 | the two wire bytes of any int16 value decode back to that value |
| ImuPayload.SplitOfInt16 | IMU_Test/RazorImuMod.cs:178-205 | splitting a decoded field gives back its two bytes, so the byte pair and the int16 value determine each other |
| ImuPayload.DecodeAttitude | IMU_Test/RazorImuMod.cs:173-187 | roll, pitch and yaw are raw fields over 100, each within [-327.68, 327.67] |
| ImuPayload.DecodeAnalogs | IMU_Test/RazorImuMod.cs:189-208 | the six analog and accelerometer readings each fit a signed 16-bit field |
| ImuPayload.FieldOfEncoded | IMU_Test/RazorImuMod.cs:178-205 | field k of an encoded field list, followed by any bytes, is the k-th value |
| ImuPayload.AttitudeRoundTrip | IMU_Test/RazorImuMod.cs:173-187 | message 0x02 reads fields 0, 1, 2 as roll, pitch, yaw over 100, whatever follows offset 5 |
| ImuPayload.AnalogsRoundTrip | IMU_Test/RazorImuMod.cs:189-208 | message 0x05 reads fields 0 to 5 as analog x, y, z then acc x, y, z, whatever follows offset 11 |
| ImuFrame.Initial | IMU_Test/RazorImuMod.cs:10-36 | a new receiver starts in ReadHeader1 with the invariant holding |
| ImuFrame.PayloadBytes | IMU_Test/RazorImuMod.cs:114-125 | the payload state consumes max(length, 1) bytes: at least one, and exactly length when length > 0 |
| ImuFrame.DispatchOutcome | IMU_Test/RazorImuMod.cs:136-150 | ids 0x02 and 0x05 are decoded from the buffer and counted; 0x03 and 0x04 are unsupported; any other id is invalid; nothing but the reading, its flag and imu_messages_received changes |
| ImuFrame.LengthStep | IMU_Test/RazorImuMod.cs:98-109 | taking a length byte keeps the invariant |
| ImuFrame.PayloadStep | IMU_Test/RazorImuMod.cs:117-125 | storing a payload byte at payload_counter is in bounds and keeps the invariant |
| ImuFrame.ChecksumStep | IMU_Test/RazorImuMod.cs:130-161 | finishing a frame keeps the invariant |
| ImuFrame.Next | IMU_Test/RazorImuMod.cs:65-162 | one byte through the switch keeps the invariant (header and length states have counter 0 and checksum zero; payload writes stay below max(length, 1) <= 28 < 30) and reports at most one event |
| ImuFrame.NextCounts | IMU_Test/RazorImuMod.cs:98-161 | one byte grows each of the three counters by exactly the number of events of its kind it reports |
| ImuFrame.Run | IMU_Test/RazorImuMod.cs:63-163 | the loop over a chunk keeps the invariant |
| ImuFrame.RunAppend | IMU_Test/RazorImuMod.cs:63-64 | looping over s1 + s2 is looping over s1 and then s2 with message_num carried over, events concatenated |
| ImuFrame.RunCountsEvents | IMU_Test/RazorImuMod.cs:20-22 | over any chunk, each counter grows by exactly the number of reported events of its kind |
| ImuFrame.CountAppend | IMU_Test/RazorImuMod.cs:20-22 | events of a kind in a + b are those in a plus those in b |
| ImuFrameProperties.RunLast | IMU_Test/RazorImuMod.cs:63-64 | the last byte of a chunk is one Next after the rest |
| ImuFrameProperties.SkipJunk | IMU_Test/RazorImuMod.cs:66-71 | from ReadHeader1, any chunk without 0x44 changes no field and reports nothing |
| ImuFrameProperties.StrayStartMissesHeader | IMU_Test/RazorImuMod.cs:66-97 | no backtracking: a stray 0x44 right before 44 49 59 64 makes the machine miss that header and end exactly where it started |
| ImuFrameProperties.SyncAdvance | IMU_Test/RazorImuMod.cs:66-97 | the machine reaches header state k exactly from state k-1 on magic byte k-1 |
| ImuFrameProperties.SyncStepBack | IMU_Test/RazorImuMod.cs:66-97 | a chunk ending in header state k ended in state k-1 one byte earlier, and its last byte is magic byte k-1 |
| ImuFrameProperties.SyncSuffix | IMU_Test/RazorImuMod.cs:66-97 | from ReadHeader1, header state k is reached only by the first k magic bytes, consecutively, from ReadHeader1 |
| ImuFrameProperties.MagicPrecedesLength | IMU_Test/RazorImuMod.cs:66-97 | ReadPayloadLength is reached only right after 44 49 59 64, consumed from ReadHeader1 |
| ImuFrameProperties.HeaderPhase | IMU_Test/RazorImuMod.cs:66-97 | the four magic bytes take ReadHeader1 to ReadPayloadLength and change nothing else; header bytes are not checksummed |
| ImuFrameProperties.LengthByte | IMU_Test/RazorImuMod.cs:98-109 | a length above 28 counts one payload error and restarts with counter and checksum zero, after checksumming the bad byte; otherwise the checksum covers the length byte and the id comes next |
| ImuFrameProperties.RejectsLongFrame | IMU_Test/RazorImuMod.cs:66-109 | magic plus a length above 28 reports PayloadTooLong, adds one payload error, and changes no other counter |
| ImuFrameProperties.ChecksumVerdict | IMU_Test/RazorImuMod.cs:130-161 | on a match the id is dispatched and imu_messages_received grows only for 0x02 or 0x05; on a mismatch one checksum error is counted and nothing is dispatched; either way the machine restarts in ReadHeader1 with counter and checksum zero |
| ImuFrameProperties.FrameBytes | IMU_Test/RazorImuMod.cs:66-131 | a frame on the wire is magic, length, id, payload and the two checksum bytes |
| ImuFrameProperties.Head | IMU_Test/RazorImuMod.cs:98-115 | after length and id the machine is in ReadPayload with counter 0 |
| ImuFrameProperties.FrameHead | IMU_Test/RazorImuMod.cs:66-115 | header, length and id: the id becomes message_num and the checksum covers exactly length then id |
| ImuFrameProperties.PayloadPhase | IMU_Test/RazorImuMod.cs:117-125 | the payload state consumes exactly the bytes still due, writes them from the counter on, and checksums each in order |
| ImuFrameProperties.ChecksumPhase | IMU_Test/RazorImuMod.cs:126-161 | the two checksum bytes are stored, not checksummed, and decide the frame's outcome |
| ImuFrameProperties.FrameTail | IMU_Test/RazorImuMod.cs:117-161 | payload and checksum bytes store the payload at the start of the buffer and decide the outcome |
| ImuFrameProperties.DeliverFrame | IMU_Test/RazorImuMod.cs:63-163 | a whole frame is accepted exactly when the received checksum equals the checksum of length, id, payload in that order; its payload is at the buffer's start, older bytes after it |
| ImuFrameProperties.OrientationFrame | IMU_Test/RazorImuMod.cs:63-187 | a correct 0x02 frame reports the roll, pitch and yaw it encodes, counts one message and no error, and restarts |
| ImuFrameProperties.Resync | IMU_Test/RazorImuMod.cs:63-163 | after any junk that leaves the machine in ReadHeader1 (a discarded frame, say), the next frame is accepted exactly when its checksum matches, its payload is stored at the buffer's start and its id is dispatched, with the junk's events before it |
| ImuFrameProperties.MessageNumIrrelevant | IMU_Test/RazorImuMod.cs:58-113 | outside a frame's id-to-checksum span, the incoming message_num has no effect on state or events |
| ImuFrameProperties.FeedInChunks | IMU_Test/RazorImuMod.cs:56-64 | two calls with s1 then s2 give the same state and events as one call with s1 + s2, when the split is not between an id byte and its checksum |
| ImuFrameProperties.ExampleChecksum | IMU_Test/RazorImuMod.cs:168-171 | the sample orientation frame with length 6, id 0x02 and payload 00 64 FF 38 00 00 (raw roll 100, pitch -200, yaw 0) has checksum A3 D6 |
| ImuFrameProperties.SplitAfterIdLosesFrame | IMU_Test/RazorImuMod.cs:58-150 | the sample orientation frame (raw roll 100, pitch -200, yaw 0) in one call decodes to roll 1.0, pitch -2.0, yaw 0.0; split after its id byte it is reported as invalid message number 0 and not counted |
| RazorImu.RazorImuMod.constructor | IMU_Test/RazorImuMod.cs:10-36 | a new receiver's state is Initial, with a fresh 30-byte buffer |
| RazorImu.RazorImuMod.Checksum | IMU_Test/RazorImuMod.cs:168-171 | the fields ck_a, ck_b take one Update step |
| RazorImu.RazorImuMod.ImuJoinData | IMU_Test/RazorImuMod.cs:173-187 | counts one message, sets the attitude to DecodeAttitude of the buffer and imu_ok; nothing else changes |
| RazorImu.RazorImuMod.ImuAnalogsJoinData | IMU_Test/RazorImuMod.cs:189-208 | counts one message, sets the readings to DecodeAnalogs of the buffer and imuAnalogs_ok; nothing else changes |
| RazorImu.RazorImuMod.Step | IMU_Test/RazorImuMod.cs:65-162 | one byte moves the object's state and message_num exactly as Next, keeping the invariant |
| RazorImu.RazorImuMod.TakeLength | IMU_Test/RazorImuMod.cs:98-109 | the ReadPayloadLength case, exactly as LengthStep |
| RazorImu.RazorImuMod.TakePayloadByte | IMU_Test/RazorImuMod.cs:117-125 | the ReadPayload case, writing IMU_buffer in place, exactly as PayloadStep |
| RazorImu.RazorImuMod.Restart | IMU_Test/RazorImuMod.cs:155-160 | back to ReadHeader1 with payload_counter, ck_a, ck_b zero; nothing else changes |
| RazorImu.RazorImuMod.CountChecksumError | IMU_Test/RazorImuMod.cs:152-154 | one more checksum error, nothing else changes |
| RazorImu.RazorImuMod.DispatchMessage | IMU_Test/RazorImuMod.cs:136-150 | the id chain, exactly as Dispatch |
| RazorImu.RazorImuMod.FinishFrame | IMU_Test/RazorImuMod.cs:130-161 | the ReadChecksum2 case, exactly as ChecksumStep |
| RazorImu.RazorImuMod.Feed | IMU_Test/RazorImuMod.cs:56-165 | one call of the handler on a chunk: state and reported events are those of Run from message_num 0 |

## Left out

- Serial port construction and configuration (lines 38–50) are I/O set-up and are not modelled.
- `PortErrorReceived` (lines 52–54) only logs, so it is not modelled.
- The `Console.WriteLine` calls (lines 149, 153) are replaced by the events the model reports: `InvalidMessageNumber` and `ChecksumMismatch`.
- The `DataReceived` callback, its threading, and the `BytesToRead`/`ReadByte` calls (lines 61–64) are replaced by `Feed`, which takes the chunk as a `seq<byte>`.
- RazorImu.RazorImuMod.ImuJoinData: roll, pitch and ground course are exact reals equal to raw/100, not IEEE doubles; double rounding is not modelled.
- RazorImu.RazorImuMod.ImuAnalogsJoinData: `analog_x` .. `acc_z` are `double` in the source but only ever hold int16 values, so they are modelled as `int`.
- The three attitude fields are one `attitude` field and the six analog fields one `analogs` field, because each group is assigned together.
- RazorImu.RazorImuMod.DispatchMessage: `GPS_join_data` and `IMU2_join_data` (lines 210–216) throw `NotImplementedException` before the restart. The model reports `Unsupported(id)` instead and restarts as for any other id, so the exception and what follows it are not modelled.
- The counters are C# `int`, which wraps after 2^31 − 1 increments; the model uses unbounded `nat`, so wrap-around is not modelled.
- `imu_ok` and `imuAnalogs_ok` (lines 186, 207) are modelled as flags that are set; nothing in the core reads them.
