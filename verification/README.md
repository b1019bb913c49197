# Telink BLE SDK: verified models of its algorithmic cores

The Telink B85 BLE single-connection SDK is C firmware for remotes, keyboards and their USB
dongles. Most of it drives registers. This project models the parts that compute: it states
in Dafny what they do, in the imperative form the firmware has, and proves what they are for.

| module | models |
|---|---|
| `Adpcm`, `AdpcmScheme`, `AdpcmTracking` | one sample of the IMA ADPCM voice codec (the DVI4 profile of RFC 3551, section 4.5.1), lock-step of encoder and decoder, the laws of the scheme without its tables, and how fast the codec acquires a signal |
| `AdpcmPackets`, `AdpcmDevice` | packet headers and nibble packing of the four firmware variants; the encoder and decoder objects with their loops and buffers |
| `AdpcmRecovery` | decoders that are out of step |
| `MicRing`, `MicRecording` | the remote's packet ring around the codec, and the microphone in front of it |
| `JitterBuffer`, `JitterCourse`, `JitterRuns` | the dongle's jitter buffer, the bookkeeping of its epochs, and whole runs of it |
| `NoiseGate` | the adaptive noise gate: bounds and liveness |
| `GhostKeys`, `KeyScan` | keyboard matrix: ghost-key removal, debounce, queue of changes |
| `FlashProgram` | cross-page flash programming |
| `AdcAverage` | sorting and averaging of conversions |
| `MyFifo` | the SDK's byte-string queue |
| `HidReports`, `ControlTransfer` | USB: deferred HID reports with data toggles, control transfers |
| `NumeralPrint`, `Mul64` | numeral printing, 32x32 to 64 bit multiplication |
| `Ring`, `Arith`, `Bits`, `Types` | shared: rings of slots under wrapping counters, facts of integer arithmetic and of bitwise operators, integer widths |

Each method is proved against a specification function, and the main results are lemmas
about these functions or invariants (`Valid()`) every method keeps, so that they hold after
every sequence of calls.

How the firmware is rendered:

- The alternatives of an `#if` are values of `Variant` (`AdpcmPackets`).
- A byte is an integer from 0 to 255, a word is stored low byte first, and shifts and masks by
  constants are divisions and remainders of non-negative numbers. Keyboard rows are `bv32`
  and flash bytes `bv8`. 8-bit counters wrap by `Low8`, 3-bit ring indices by `Low3`.
- Endpoint-busy flags, time-outs, USB resets and raw key scans are parameters of the methods.
  A NOR page-program command and a sample written by the microphone are methods on the
  memory.
- Ghost fields number what has happened since power-on (blocks, packets, frames, queued
  reports); the invariants tie the wrapped counters and the ring contents to them.
- The decoder fetches one byte after its last sample. The model requires that the byte can be
  read and lets it hold anything.

Where the code does not do what its surroundings suggest:

- The Google 1.0 encoder powers on at index 1 and its decoder at index 0: the first sample
  after power-on is always decoded wrongly (`AdpcmPackets.Google10PowerOnMismatch`). Lock-step
  is proved from equal states. What happens from unequal ones, after power-on or after a lost
  packet, is in `AdpcmRecovery`: the indices never move apart and meet in a quiet signal; then
  the predictions never move apart, and they meet only where they are clamped.
- `my_fifo_push` accepts payloads of `size - 1` bytes, whose record is one byte longer than a
  slot (`MyFifo.PushKeepsItems`, `MyFifo.OverlongPush`).
- The microphone buffer looks empty when the microphone is exactly the whole buffer ahead
  (`MicRecording.PointersTell`); when it is further ahead, overwritten samples are encoded.
- The overwriting microphone rings notice an overwritten packet only with two slots or more
  (`MicRing.OverflowSeen`).
- `printi` padding zeros on the right changes the number shown (`NumeralPrint.ReadsBack`).
  Negating the most negative word overflows in C; the model wraps it to 2^31, the value meant.
- The data interrupt clears the stall flag, so after a refused descriptor later data requests
  are acknowledged with empty packets (`ControlTransfer.ControlEndpoint.HandleData`).
- The jitter buffer counts a packet that was overwritten as decoded, and its frame keeps what
  was decoded four frames before. What USB is given in an epoch is right exactly until it
  reads beyond the place `JitterBuffer.WhereLossIsHeard` names, if the decoder ever found a
  fifth packet waiting (`JitterBuffer.LossIffOverwritten`, `JitterBuffer.Dongle.Delivery`);
  `JitterRuns.FifthPacketIsHeard` is such a run. The mark that makes the decoder wait for two
  packets is set at power-on and by an overrun only, not by a time-out or `abuf_init`.
- A mouse report of more than four bytes overruns its eight-byte slot although the code
  asserts only `cnt < 8` (`HidReports.MouseFits`, `HidReports.LongReport`). In the boot
  protocol three bytes are sent whatever the count says.

## Model

| member | source | states |
|---|---|---|
| Adpcm.QuantiserDelta | tc_ble_single_sdk/application/audio/adpcm.c:241-250 | the difference the encoder sums up while it searches for the code is the one a decoder rebuilds from the bits of that code, with the sign bit set or not |
| Adpcm.LockStepSample | tc_ble_single_sdk/application/audio/adpcm.c:227-279 | one sample: the decoder, given the code alone, moves to exactly the state (prediction and index) the encoder moved to, for every state and sample |
| Adpcm.QuantisationBound | tc_ble_single_sdk/application/audio/adpcm.c:229-270 | out of slope overload the new prediction is within step/8 + 2 of the sample, clamped or not; in overload the code is 7 or 15 and the prediction moves 15/8 of a step towards the sample without reaching it |
| Adpcm.LockStepRun | tc_ble_single_sdk/application/audio/adpcm.c:447-513 | any run of samples: decoding the codes gives the encoder's predictions, sample for sample, and its final state |
| Adpcm.RunConcat | tc_ble_single_sdk/application/audio/adpcm.c:227-279 | state carried between calls: a run may be cut anywhere without changing states or predictions |
| AdpcmScheme.StepSizeLaw | tc_ble_single_sdk/application/audio/adpcm.c:33-42 | the step sizes without the table: i + 7 for the first eight, then 16 * 1.1^(i - 8) rounded down, 32767 at the end |
| AdpcmScheme.CodeLaw | tc_ble_single_sdk/application/audio/adpcm.c:229-270 | the code without the loop: its low bits count the quarters of the step in the difference, at most seven, its top bit is the sign; the prediction moves by that and an eighth, limited to 16 bits |
| AdpcmScheme.IndexLaw | tc_ble_single_sdk/application/audio/adpcm.c:272-278 | how the index follows the difference: down by one below a step, up by 2, 4, 6, 8 in the quarters above it, limited to 0..88 |
| AdpcmScheme.DecoderLaw | tc_ble_single_sdk/application/audio/adpcm.c:457-495 | every code in every decoder state: the prediction moves by 2c + 1 eighths of the step, the index by -1 or 2(c - 3) |
| AdpcmTracking.StepTableRatio | tc_ble_single_sdk/application/audio/adpcm.c:33-42 | neighbouring table steps never grow by more than 8/7, which is what keeps the codec out of overload |
| AdpcmTracking.LockKept | tc_ble_single_sdk/application/audio/adpcm.c:229-278 | a sample that is not in overload is followed by one that is not, as long as the signal moves by 10 at most |
| AdpcmTracking.OverloadClimb | tc_ble_single_sdk/application/audio/adpcm.c:229-278 | while overload lasts the index climbs by 8 a sample up to 88 and the distance to the signal shrinks |
| AdpcmTracking.LockKeptThroughout | tc_ble_single_sdk/application/audio/adpcm.c:229-278 | once out of overload, a slow signal stays out of it for ever |
| AdpcmTracking.AcquiresSlowSignals | tc_ble_single_sdk/application/audio/adpcm.c:229-278 | from every state, at most the first 11 samples of any signal that moves by at most 10 a sample (constants among them) are in overload, and at every later one the prediction is within step/8 + 2 |
| AdpcmTracking.ElevenSamplesAreNeeded | tc_ble_single_sdk/application/audio/adpcm.c:229-278 | the bound 11 cannot be lowered: from the lowest prediction and index 0 a full-scale constant is still in overload at its eleventh sample |
| AdpcmTracking.SettlesOnConstant | tc_ble_single_sdk/application/audio/adpcm.c:229-278 | a constant input brings every state to the smallest step and within 2 of the input after at most 101 samples, for good |
| AdpcmPackets.HeaderRoundTrip | tc_ble_single_sdk/application/audio/adpcm.c:378-381 | the state read from a packet header is the state the encoder wrote into it, in both layouts |
| AdpcmPackets.HeaderBytes | tc_ble_single_sdk/application/audio/adpcm.c:62-72 | the header bytes one by one: prediction in two's complement, index, payload length or serial number, in the byte order of each format |
| AdpcmPackets.UnpackPack | tc_ble_single_sdk/application/audio/adpcm.c:252-256 | the codes fetched from the packed bytes are the codes packed, in both orders of the two codes in a byte, whatever follows them |
| AdpcmPackets.PayloadBytes | tc_ble_single_sdk/application/audio/adpcm.c:252-256 | which two codes each byte holds and in which half |
| AdpcmPackets.PacketLockStep | tc_ble_single_sdk/application/audio/adpcm.c:217-280 | one packet of any variant: with a header from any decoder state, without one from the encoder's, decoding gives the encoder's predictions and the state it carries on |
| AdpcmPackets.StreamLockStep | tc_ble_single_sdk/application/audio/adpcm.c:447-513 | whole streams of blocks of whole words: one decoder fed the packets in order stays in lock-step for ever |
| AdpcmPackets.AnyPacketAlone | tc_ble_single_sdk/application/audio/adpcm.c:289-361 | loss resilience of the variants with a header: any single packet, decoded by a decoder in any state, gives its slice of the encoder's predictions, and the end state is the one in the next header |
| AdpcmPackets.Google10PowerOnMismatch | tc_ble_single_sdk/application/audio/adpcm.c:366-370 | the Google 1.0 pair powers on with indices 1 and 0: the first sample of the first block comes out wrong, whatever it is, so the first block is right if and only if it is empty |
| AdpcmRecovery.OneCode | tc_ble_single_sdk/application/audio/adpcm.c:411-427 | two decoders given the same code: the gap of their indices does not grow; with equal indices neither does the gap of their predictions, and it changes only where one is clamped |
| AdpcmRecovery.GapsNeverGrow | tc_ble_single_sdk/application/audio/adpcm.c:395-440 | the same over any part of any run of codes, and equal states stay equal |
| AdpcmRecovery.QuietAligns | tc_ble_single_sdk/application/audio/adpcm.c:427-436 | after 88 codes of a quiet signal any two decoders have the same index |
| AdpcmRecovery.SoundAfterLoss | tc_ble_single_sdk/application/audio/adpcm.c:447-513 | the variants without a header after a loss: from the moment the indices agree, the decoded sound never differs from the encoder's predictions by more than at that moment; from the moment the states agree it is equal |
| AdpcmRecovery.Google10MayRecover | tc_ble_single_sdk/application/audio/adpcm.c:366-370 | the Google 1.0 pair can come into step: after the first samples 8, 9, 10, 9 all that follows is decoded right |
| AdpcmDevice.QuantiserLoop | tc_ble_single_sdk/application/audio/adpcm.c:241-250 | the loop computes the code and the difference of the three-stage quantiser |
| AdpcmDevice.Encoder.constructor | tc_ble_single_sdk/application/audio/adpcm.c:134-136 | power-on state of the encoders |
| AdpcmDevice.Encoder.EncodeOne | tc_ble_single_sdk/application/audio/adpcm.c:229-278 | the loop body emits the code and moves the fields as the specification of one sample says |
| AdpcmDevice.Encoder.PutHeader | tc_ble_single_sdk/application/audio/adpcm.c:137-208 | the header bytes of each variant stand at the start of the packet and nothing else changes |
| AdpcmDevice.Encoder.EncodeRun | tc_ble_single_sdk/application/audio/adpcm.c:227-280 | the sample loop: the bytes stored are the packed codes of the run (a word for every four codes, nibbles exchanged where the variant does so), the state is the one after the run, the rest of the buffer is untouched |
| AdpcmDevice.Encoder.MicToAdpcmSplit | tc_ble_single_sdk/application/audio/adpcm.c:53-126 | a call that begins a packet stores the header of the state before the block and then its codes; one that goes on with a packet stores its codes behind what is there; nothing else in the buffer changes; the serial number moves on |
| AdpcmDevice.SplitBlock | tc_ble_single_sdk/application/audio/adpcm.c:62-72 | a block encoded in two calls, the first of whole words, gives the bytes of one call |
| AdpcmDevice.Decoder.constructor | tc_ble_single_sdk/application/audio/adpcm.c:442-445 | power-on state of the decoders |
| AdpcmDevice.Decoder.DecodeOne | tc_ble_single_sdk/application/audio/adpcm.c:457-495 | the loop body, run on a register that still holds a second code, decodes the lower one |
| AdpcmDevice.Decoder.DecodeRun | tc_ble_single_sdk/application/audio/adpcm.c:455-512 | the sample loop writes the samples of the unpacked codes and ends in their final state; the byte fetched after the last odd sample has no influence |
| AdpcmDevice.Decoder.AdpcmToPcm | tc_ble_single_sdk/application/audio/adpcm.c:372-440 | a whole packet is decoded as specified; the variants without header carry the state on, the others keep none |
| MicRing.MicEncoder.constructor | tc_ble_single_sdk/application/audio/tl_audio.c:338-341 | an empty ring over given buffers |
| MicRing.MicEncoder.ProcMicEncoder | tc_ble_single_sdk/application/audio/tl_audio.c:338-418 | what a call encodes and stores: the half that begins at the read pointer; the packet is appended to those waiting, of which the oldest is given up if the ring was full; the HID variant waits for room |
| MicRing.PacketFillsSlot | tc_ble_single_sdk/application/audio/tl_audio.c:407-409 | packets have 128, 134 and 120 bytes and fit their slots |
| MicRecording.PointersTell | tc_ble_single_sdk/application/audio/tl_audio.c:339-344 | the two pointers show a half ready exactly if a unit of samples is unread, as long as less than the whole buffer is; with the whole buffer unread it looks empty |
| MicRecording.HalfIsRecorded | tc_ble_single_sdk/application/audio/tl_audio.c:346 | a half that is complete and not yet overwritten holds the next unit of the recording |
| MicRecording.Recorder.constructor | tc_ble_single_sdk/application/audio/tl_audio.c:338-341 | nothing recorded, nothing encoded |
| MicRecording.Recorder.MicWrite | tc_ble_single_sdk/application/audio/tl_audio.c:339-342 | the microphone writes round the buffer; the recording grows by the sample |
| MicRecording.Recorder.Process | tc_ble_single_sdk/application/audio/tl_audio.c:338-418 | in every run, while the microphone is not more than the buffer ahead: a call encodes exactly if a unit of samples is unread, less than the whole buffer is, and there is room; and it encodes exactly the next unit of the recording |
| MicRecording.Recorder.Read | tc_ble_single_sdk/application/audio/tl_audio.c:420-436 | the oldest packet is handed out and released; nothing happens if none waits |
| MicRecording.Recorder.SpokenIsHeard | tc_ble_single_sdk/application/audio/tl_audio.c:338-436 | in every run the packets taken so far decode to the encoder's predictions for the first samples of the recording |
| MicRing.MicEncoder.EncodeNext | tc_ble_single_sdk/application/audio/tl_audio.c:407-412 | encoding into the next slot damages no waiting packet but the oldest of a full ring |
| MicRing.MicEncoder.DropOverwritten | tc_ble_single_sdk/application/audio/tl_audio.c:755-861 | in the overwriting variants the read counter skips the packet just overwritten, and only that |
| MicRing.MicEncoder.DataBuffer | tc_ble_single_sdk/application/audio/tl_audio.c:420-431 | the place of the oldest waiting packet, with exactly its bytes; none if and only if nothing waits |
| MicRing.MicEncoder.DataReadOk | tc_ble_single_sdk/application/audio/tl_audio.c:433-436 | the oldest packet, and no other, leaves the ring; on an empty ring the read counter passes the write counter |
| MicRing.OverflowSeen | tc_ble_single_sdk/application/audio/tl_audio.c:652-751 | the masked counters show an overwritten packet if and only if the ring has at least two slots |
| MicRing.MicEncoder.HidEndToEnd | tc_ble_single_sdk/application/audio/tl_audio.c:338-436 | in every run the packets read so far, decoded from power-on, give the encoder's predictions for the blocks they came from, sample for sample, none missing and none twice |
| JitterBuffer.Dongle.constructor | tc_ble_single_sdk/application/audio/tl_audio.c:1021-1032 | power-on: nothing queued, sixteen reset steps to go |
| JitterBuffer.Dongle.Init | tc_ble_single_sdk/application/audio/tl_audio.c:1028-1032 | both counters start anew with sixteen reset steps to go |
| JitterBuffer.Dongle.MicAdd | tc_ble_single_sdk/application/audio/tl_audio.c:1034-1044 | an arriving packet is queued over the oldest of the four slots; nothing else changes |
| JitterBuffer.Dongle.MicDec | tc_ble_single_sdk/application/audio/tl_audio.c:1046-1083 | for every state: whether a packet is decoded, which one stands in the slot, what the counted frames hold (a frame given up holds what was decoded four frames before), when the buffer is reset, and from which sample on the epoch will be heard wrong |
| JitterBuffer.Dongle.DecodeFrame | tc_ble_single_sdk/application/audio/tl_audio.c:1074-1080 | the frame written is the decoding of the packet that stands in the slot |
| JitterBuffer.Dongle.SkipOne | tc_ble_single_sdk/application/audio/tl_audio.c:1061-1064 | a packet that was overwritten is given up: its frame is counted with the samples its slot was left with, those of the frame four before |
| JitterBuffer.Dongle.SkipAll | tc_ble_single_sdk/application/audio/tl_audio.c:1052-1055 | while a reset runs, all waiting packets are dropped |
| JitterBuffer.Dongle.ResetStep | tc_ble_single_sdk/application/audio/tl_audio.c:1100-1104 | the read position is set to the decoder's; an epoch begins with nothing given |
| JitterBuffer.Dongle.TakeRead | tc_ble_single_sdk/application/audio/tl_audio.c:1114-1143 | sixteen samples are copied out of the frame that stands in the read slot, across the wrap of the read position at 240*256 |
| JitterBuffer.Dongle.DecUsb | tc_ble_single_sdk/application/audio/tl_audio.c:1086-1162 | for every state: whether a USB period delivers, exactly which samples, the reset countdown and the start-up mark; when the reset has run down a new epoch begins with nothing given |
| JitterCourse.SkipKeepsCourse | tc_ble_single_sdk/application/audio/tl_audio.c:1061-1064 | giving up a packet keeps the bookkeeping of the epoch: delivery is in order exactly until the loss, which moves to this frame if there was none |
| JitterCourse.DecodeKeepsCourse | tc_ble_single_sdk/application/audio/tl_audio.c:1072-1081 | so does decoding, of the right packet or of one that has overwritten it, into a free frame or over the one being read |
| JitterCourse.ReadKeepsCourse | tc_ble_single_sdk/application/audio/tl_audio.c:1112-1143 | so does a read: it hears the due packet if and only if it does not pass the loss |
| JitterBuffer.ReadStands | tc_ble_single_sdk/application/audio/tl_audio.c:1112-1137 | the read position, wrapped and reduced to the buffer, points at the next samples of the frame in the read slot, and never leaves the frame |
| JitterBuffer.EpochAfterDecode | tc_ble_single_sdk/application/audio/tl_audio.c:1072-1081 | one more decoded packet keeps the sound frames equal to the decoding of the packets of the epoch |
| JitterBuffer.EpochAfterRead | tc_ble_single_sdk/application/audio/tl_audio.c:1110-1143 | a read keeps what was given a prefix of the sound frames, up to the loss |
| JitterBuffer.Dongle.Delivery | tc_ble_single_sdk/application/audio/tl_audio.c:1034-1162 | in every run what USB has been given since the last reset is packet after packet, in order and complete, if and only if it has not read beyond the loss; as long as it is, it is what decoding the packets one after the other gives |
| JitterBuffer.LossIffOverwritten | tc_ble_single_sdk/application/audio/tl_audio.c:1058-1064 | a call of the decoder makes a loss if and only if it finds a packet overwritten: more than four waiting, as far as the counters modulo 256 show |
| JitterBuffer.WhereLossIsHeard | tc_ble_single_sdk/application/audio/tl_audio.c:1058-1082 | where a loss is heard: with three frames unread at once, because the frame being read is overwritten; otherwise from the start of the frame given up; and when the next call resets the buffer |
| JitterBuffer.Dongle.EndToEnd | tc_ble_single_sdk/application/audio/tl_audio.c:1034-1162 | microphone to USB: if the packets of an epoch come from an encoder in the decoder's state, USB has been given a prefix of that encoder's predictions |
| JitterRuns.AnyRun | tc_ble_single_sdk/application/audio/tl_audio.c:1028-1162 | after every sequence of arrivals, decoder calls, USB periods, time-outs and restarts the delivery statement holds |
| JitterRuns.StartUp | tc_ble_single_sdk/application/audio/tl_audio.c:1028-1032 | sixteen periods after power-on the first epoch begins, with nothing given |
| JitterRuns.FifthPacketIsHeard | tc_ble_single_sdk/application/audio/tl_audio.c:1061-1064 | a run in which a fifth packet waits: for every packet whose first code is not zero, the first read is not the first samples of the packet |
| NoiseGate.NoiseSuppressor.NoiseSuppression | tc_ble_single_sdk/application/audio/tl_audio.h:73-104 | one sample moves the five globals and gives the output as specified |
| NoiseGate.StepValid | tc_ble_single_sdk/application/audio/tl_audio.h:81-102 | the averages stay within 131072, 32768 and 32768 and the gain within 0..256 |
| NoiseGate.NoOverflow | tc_ble_single_sdk/application/audio/tl_audio.h:81-103 | no product or sum of a step leaves the 32-bit range |
| NoiseGate.RunValid | tc_ble_single_sdk/application/audio/tl_audio.h:73-104 | the bounds hold after every run |
| NoiseGate.OutputBetweenZeroAndInput | tc_ble_single_sdk/application/audio/tl_audio.h:103 | the output never exceeds the input in magnitude nor flips its sign; full gain passes it, gain zero blocks it |
| NoiseGate.TimeLogarithmic | tc_ble_single_sdk/application/audio/tl_audio.h:81-83 | an average over k samples needs at most k samples for every halving of its excess |
| NoiseGate.QuietCloses | tc_ble_single_sdk/application/audio/tl_audio.h:89-98 | liveness: from every state, once all samples stay below 384 in magnitude the gain is 0 after 9600 samples and stays 0 |
| NoiseGate.LoudOpens | tc_ble_single_sdk/application/audio/tl_audio.h:89-102 | liveness: from every state, under samples of magnitude 784 or more the gain is full after 1024 samples and stays full |
| NoiseGate.SpeechOpens | tc_ble_single_sdk/application/audio/tl_audio.h:89-102 | liveness: from every state, under samples of magnitude 512 or more the gain is full after 642 samples and stays full |
| NoiseGate.StaysClosed | tc_ble_single_sdk/application/audio/tl_audio.h:89-97 | 512 is the least such level: a closed gate at rest stays closed under 511 or less |
| NoiseGate.StaysOpen | tc_ble_single_sdk/application/audio/tl_audio.h:89-102 | an open gate with its averages up stays open under samples of magnitude 384 or more |
| NoiseGate.BangOpens | tc_ble_single_sdk/application/audio/tl_audio.h:83-90 | one sample of magnitude 12304 opens the gate from every state, one of 12303 does not in silence |
| NoiseGate.HangTime | tc_ble_single_sdk/application/audio/tl_audio.h:89-95 | opened by the short average, the gate stays open for 578 samples of anything that does not bang, silence included |
| NoiseGate.AveragesMove | tc_ble_single_sdk/application/audio/tl_audio.h:81-91 | each average moves by a 1024th, a 128th and a 16th of its distance from the magnitude |
| NoiseGate.GainRamps | tc_ble_single_sdk/application/audio/tl_audio.h:96-101 | the gain never jumps: one down while closed, one up while open |
| NoiseGate.OutputNearest | tc_ble_single_sdk/application/audio/tl_audio.h:103 | the output is the scaled input rounded to the nearest |
| GhostKeys.RemoveGhostKeys | tc_ble_single_sdk/application/keyboard/keyboard.c:202-218 | the in-place nested loops compute the cleaned matrix of the specification |
| GhostKeys.MixRow | tc_ble_single_sdk/application/keyboard/keyboard.c:205-215 | the inner loop gathers the columns row i shares, as a suspect, with later rows |
| GhostKeys.KeptKeys | tc_ble_single_sdk/application/keyboard/keyboard.c:202-218 | a key of row i is kept if and only if it was pressed and no suspect pair (a, b) with a <= i, a < b shares its column |
| GhostKeys.RemovedKeys | tc_ble_single_sdk/application/keyboard/keyboard.c:202-218 | the same in terms of keys: a pressed key is taken out exactly if a row at or above it and one below that row both hold its column and one of them holds another key |
| GhostKeys.SharingRowsAreSingle | tc_ble_single_sdk/application/keyboard/keyboard.c:209 | in the result two rows that share a column are the same single key |
| GhostKeys.NoRectangle | tc_ble_single_sdk/application/keyboard/keyboard.c:207-211 | in the result no three keys are corners of a rectangle |
| GhostKeys.UnchangedIffNoSuspects | tc_ble_single_sdk/application/keyboard/keyboard.c:202-218 | a matrix is left alone if and only if it has no suspect pair |
| GhostKeys.Idempotent | tc_ble_single_sdk/application/keyboard/keyboard.c:202-218 | removing ghosts twice is removing them once |
| KeyScan.ReportFollowsTwoScans | tc_ble_single_sdk/application/keyboard/keyboard.c:236-249 | over any scan history, filtered and unfiltered scans mixed: in a filtered scan two equal scans in a row force the reported key, otherwise it keeps its state |
| KeyScan.UnfilteredIsReported | tc_ble_single_sdk/application/keyboard/keyboard.c:236-239 | a scan at power-on or wake-up, for which the filter is off, is reported as it is |
| KeyScan.ReportIsLastConfirmed | tc_ble_single_sdk/application/keyboard/keyboard.c:236-249 | the reported key is what the most recent decisive scan showed: one that is unfiltered or confirms the scan before it |
| KeyScan.GlitchesIgnored | tc_ble_single_sdk/application/keyboard/keyboard.c:236-249 | a key keeps its reported state as long as no two scans in a row and no unfiltered scan differ from it |
| KeyScan.OneMoreScan | tc_ble_single_sdk/application/keyboard/keyboard.c:417-418 | the reported matrices and their changes after one more scan |
| KeyScan.KeyScanner.constructor | tc_ble_single_sdk/application/keyboard/keyboard.c:229-230 | power-on: no key pressed, nothing queued |
| KeyScan.KeyScanner.DebounceFilter | tc_ble_single_sdk/application/keyboard/keyboard.c:224-262 | the in-place loop computes the filter step on all rows and answers whether the report changed |
| KeyScan.KeyScanner.FilterRow | tc_ble_single_sdk/application/keyboard/keyboard.c:231-250 | one row: report, previous scan and answer, and no other row changes |
| KeyScan.KeyScanner.Push | tc_ble_single_sdk/application/keyboard/keyboard.c:445-453 | a changed matrix is queued, over the oldest one if four wait; the ring then holds the latest four in order |
| KeyScan.KeyScanner.Pop | tc_ble_single_sdk/application/keyboard/keyboard.c:464-465 | the oldest unread matrix is taken out and the others stay |
| KeyScan.KeyScanner.ScanOnce | tc_ble_single_sdk/application/keyboard/keyboard.c:413-454 | over whole histories the queue has received exactly the changes of the filtered matrix |
| KeyScan.KeyScanner.ScanKeyValue | tc_ble_single_sdk/application/keyboard/keyboard.c:396-486 | return value and matrix handed out in each of the cases invalid, nothing to read, read; the unread queue after each |
| KeyScan.QueueAfterPush | tc_ble_single_sdk/application/keyboard/keyboard.c:446-453 | a push keeps every unread matrix in its slot and neighbours in the queue distinct |
| FlashProgram.Flash.constructor | tc_ble_single_sdk/drivers/B85/flash.c:227 | a device of whole pages |
| FlashProgram.Flash.MspiWrite | tc_ble_single_sdk/drivers/B85/flash.c:138-157 | a page-program command ANDs its bytes into the page, wrapping at the page end |
| FlashProgram.Flash.PageProgram | tc_ble_single_sdk/drivers/B85/flash.c:227-254 | for every address and length inside the device memory is what one linear write would leave, nothing else changes, and the commands issued are the chunks of the specification |
| FlashProgram.ChunksCover | tc_ble_single_sdk/drivers/B85/flash.c:229-253 | no command crosses a page of 256 bytes, none but that of an empty write is empty, only the last one ends inside a page, and together they cover the write without gap or overlap |
| FlashProgram.WrittenReadsBack | tc_ble_single_sdk/drivers/B85/flash.c:227-254 | erased memory holds exactly the data after the write; bits are only ever cleared |
| FlashProgram.ProgramInPage | tc_ble_single_sdk/drivers/B85/flash.c:242-246 | inside a page the wrapping command is a linear write |
| FlashProgram.LinearConcat | tc_ble_single_sdk/drivers/B85/flash.c:233-253 | two linear writes one behind the other are one |
| FlashProgram.CommandStaysInPage | tc_ble_single_sdk/drivers/B85/flash.c:138-157 | a single command leaves every byte outside its page as it was |
| FlashProgram.OneCommandSuffices | tc_ble_single_sdk/drivers/B85/flash.c:229 | one command does the write for all memories and data if and only if it fits its page, so the cut is needed |
| AdcAverage.InsertLast | tc_ble_single_sdk/drivers/B85/adc.c:476-486 | the in-place shift puts the new reading at its place among the sorted ones and touches nothing behind it |
| AdcAverage.SampleAndAverage | tc_ble_single_sdk/drivers/B85/adc.c:450-498 | the samples end up as the sorted readings, the result is the average of the middle four; and with at most two conversions odd, it lies in the range of the voltages of the others, negative ones counting as zero |
| AdcAverage.RobustVoltage | tc_ble_single_sdk/drivers/B85/adc.c:469-498 | the same over raw conversions as 14-bit two's complement voltages |
| AdcAverage.EqualWeights | tc_ble_single_sdk/drivers/B85/adc.c:496 | the middle four readings weigh the same and the others nothing |
| AdcAverage.InsertSorts | tc_ble_single_sdk/drivers/B85/adc.c:476-486 | every insertion keeps the readings so far sorted and a permutation of what arrived |
| AdcAverage.SortSorts | tc_ble_single_sdk/drivers/B85/adc.c:450-487 | the whole sort is a sorted permutation |
| AdcAverage.RobustAverage | tc_ble_single_sdk/drivers/B85/adc.c:493-498 | with at most two arbitrary readings the result lies between the smallest and the largest of the others |
| AdcAverage.ThreeOutliersAreTooMany | tc_ble_single_sdk/drivers/B85/adc.c:493-496 | three outliers can move the result out of the range of the other five, for every range but those that begin at zero and end within three of the largest reading |
| MyFifo.Fifo.constructor | tc_ble_single_sdk/common/utility.c:85-92 | an empty queue over the given memory |
| MyFifo.Fifo.WritePointer | tc_ble_single_sdk/common/utility.c:94-101 | the next slot; none if and only if num items are held |
| MyFifo.Fifo.Next | tc_ble_single_sdk/common/utility.c:103-106 | a slot filled in place becomes the last item |
| MyFifo.Fifo.Push | tc_ble_single_sdk/common/utility.c:108-124 | fails exactly on a full queue or an overlong payload, without effect; otherwise appends the payload; across the wrap of the 8-bit counters |
| MyFifo.Fifo.Get | tc_ble_single_sdk/common/utility.c:131-139 | the slot holding the head: its length, low byte first, and its bytes; none if and only if the queue is empty |
| MyFifo.Fifo.Pop | tc_ble_single_sdk/common/utility.c:126-129 | removes the head; on an empty queue the counters then say that 255 items are held |
| MyFifo.StoreRecord | tc_ble_single_sdk/common/utility.c:119-122 | the stored record is the two length bytes and the payload, and nothing around it changes |
| MyFifo.RecordReads | tc_ble_single_sdk/common/utility.c:120-122 | the two length bytes, low byte first, give the length modulo 65536, and the payload follows them |
| MyFifo.PushKeepsItems | tc_ble_single_sdk/common/utility.c:115-122 | of the payload lengths push accepts, those that can never damage a held item are exactly the ones with n + 2 <= size |
| MyFifo.OverlongPush | tc_ble_single_sdk/common/utility.c:115-122 | for every ring of at least two slots: a queue and an accepted payload that destroy the oldest item |
| HidReports.HidReporter.constructor | tc_ble_single_sdk/application/app/usbkb.c:150-157 | an empty queue and both toggles at DATA0 |
| HidReports.HidReporter.OnBusReset | tc_ble_single_sdk/application/usbstd/usb.c:822-828 | both toggles return to DATA0 and the report protocol is selected; the queue stays |
| HidReports.HidReporter.StoreReport | tc_ble_single_sdk/application/app/usbmouse.c:116-120 | a slot holds type, arguments and data of a report that fits, and no other slot changes |
| HidReports.HidReporter.StoreMouse | tc_ble_single_sdk/application/app/usbmouse.c:117-120 | the bytes stored for a mouse report of up to seven bytes, and that no others change |
| HidReports.MouseFits | tc_ble_single_sdk/application/app/usbmouse.c:112-120 | of the mouse report lengths the code accepts (below eight), those that never damage a waiting report are exactly the ones up to four |
| HidReports.LongReport | tc_ble_single_sdk/application/app/usbmouse.c:112-120 | for five, six and seven bytes: a queue of three reports and a mouse report that destroys the oldest of them |
| HidReports.HidReporter.Defer | tc_ble_single_sdk/application/app/usbkb.c:152-163 | a deferred report joins the queue; the oldest of five is dropped |
| HidReports.HidReporter.KeyboardReport | tc_ble_single_sdk/application/app/usbkb.c:150-213 | busy: deferred, the oldest of five dropped; otherwise modifier byte, zero byte and six keys go out with the current toggle, which flips, and the other one does not |
| HidReports.HidReporter.MouseReport | tc_ble_single_sdk/application/app/usbmouse.c:107-151 | the same for the mouse, in both protocols; for a deferred report longer than its slot, exactly the bytes it leaves in the queue |
| HidReports.HidReporter.FifoProc | tc_ble_single_sdk/application/app/usbkb.c:343-388 | the oldest deferred report, and only it, is re-issued with its queued arguments exactly when its endpoint is free |
| HidReports.HidReporter.Reissue | tc_ble_single_sdk/application/app/usbkb.c:357-381 | the oldest report leaves the queue, with the toggle of its endpoint, which flips |
| HidReports.SlotReads | tc_ble_single_sdk/application/app/usbkb.c:349-374 | a slot read back gives the very report that was stored |
| HidReports.HidReporter.Conservation | tc_ble_single_sdk/application/app/usbkb.c:159-163 | in every run each deferred report waits, was dropped or was re-issued, once and in order; four wait at most; each endpoint alternates DATA0 and DATA1 from DATA0 on after a bus reset |
| HidReports.FitsAlternate | tc_ble_single_sdk/application/app/usbkb.c:209-210 | over every history, in terms of its events: on each endpoint the first packet and the first after a bus reset is DATA0, and two successive ones differ |
| ControlTransfer.SlicesAreTransfer | tc_ble_single_sdk/application/usbstd/usb.c:77-97 | packets that are the successive slices of an answer join to a prefix of it, to all of it once there are enough, none longer than 8 bytes and the later ones empty |
| ControlTransfer.NextSlice | tc_ble_single_sdk/application/usbstd/usb.c:82-96 | taking the first eight bytes of the rest gives the next slice and leaves the rest after it |
| ControlTransfer.ControlEndpoint.SendResponse | tc_ble_single_sdk/application/usbstd/usb.c:77-97 | sends the first eight bytes of the rest, or all of it |
| ControlTransfer.ControlEndpoint.PrepareDescriptor | tc_ble_single_sdk/application/usbstd/usb.c:101-159 | the rest to send is the selected descriptor cut to the length asked for; stalls if and only if there is none |
| ControlTransfer.ControlEndpoint.DescriptorPacket | tc_ble_single_sdk/application/usbstd/usb.c:634-639 | setup or data stage: one more slice of the answer |
| ControlTransfer.ControlEndpoint.HandleRequest | tc_ble_single_sdk/application/usbstd/usb.c:623-726 | which requests stall, what they send, what they set |
| ControlTransfer.ControlEndpoint.HandleSetup | tc_ble_single_sdk/application/usbstd/usb.c:729-753 | a setup starts the transfer of the descriptor its value names, field by field; it stalls exactly for a missing descriptor or an unknown request; what it sets and reports |
| ControlTransfer.ControlEndpoint.HandleData | tc_ble_single_sdk/application/usbstd/usb.c:756-778 | each data interrupt adds the next packet; after a refused descriptor it acknowledges with an empty one |
| ControlTransfer.ControlEndpoint.HandleStatus | tc_ble_single_sdk/application/usbstd/usb.c:782-794 | in every run: the status stage stalls for an unknown request, and for a missing descriptor exactly if the host has not asked for data since the setup |
| ControlTransfer.ControlEndpoint.DescriptorDelivered | tc_ble_single_sdk/application/usbstd/usb.c:101-159 | in every run the packets of a descriptor request join to the device, configuration, language, vendor, product or serial descriptor its value names, cut to the length asked for, in packets of eight bytes; later ones are empty |
| NumeralPrint.Prints | tc_ble_single_sdk/application/print/u_printf.c:68-99 | emits the string padded to the width and returns the number of characters emitted |
| NumeralPrint.PutDigits | tc_ble_single_sdk/application/print/u_printf.c:122-131 | the digit loop fits the twelve bytes with room for a sign and leaves exactly the digits of the word |
| NumeralPrint.Printi | tc_ble_single_sdk/application/print/u_printf.c:104-144 | emits the numeral as specified for every word, base 10 or 16, width and padding, and returns its length |
| NumeralPrint.DigitsRead | tc_ble_single_sdk/application/print/u_printf.c:125-131 | digits read back as the number |
| NumeralPrint.LetterCase | tc_ble_single_sdk/application/print/u_printf.c:127-129 | digits above nine are letters of the case asked for |
| NumeralPrint.Layout | tc_ble_single_sdk/application/print/u_printf.c:133-143 | where sign, fill and digits stand |
| NumeralPrint.PrintedLength | tc_ble_single_sdk/application/print/u_printf.c:98-143 | the count is the width or what digits and sign need, whichever is more |
| NumeralPrint.ReadsBack | tc_ble_single_sdk/application/print/u_printf.c:104-144 | the text reads back as exactly the number if and only if no zeros were padded to the right of a number other than zero |
| Mul64.NoPartialOverflow | tc_ble_single_sdk/common/utility.h:192-200 | no partial sum overflows 32 bits |
| Mul64.ExactProduct | tc_ble_single_sdk/common/utility.h:181-208 | the result is u*v for all 32-bit u and v |

## Left out

- AdpcmDevice.Decoder.AdpcmToPcm: requires a header index of at most 88, which the firmware does not check before it indexes the table.
- MicRing.MicEncoder.ProcMicEncoder: does not apply noise suppression or the IIR filters in front of the encoder; the samples it encodes are those in the buffer.
- MicRing.MicEncoder.DataReadOk: after a call on an empty ring nothing further is promised.
- MicRing.MicEncoder.constructor: in the overwriting variants a ring has at least two slots; with one, `MicRing.OverflowSeen` says what goes wrong.
- MyFifo.Fifo.Pop: after a call on an empty queue nothing further is promised.
- HidReports.HidReporter.MouseReport: after a deferred report of five to seven bytes the queue promises nothing further, and one that would be written behind the last slot, outside of the queue's memory, is not modelled.
- FlashProgram.Flash.PageProgram: source data in RAM only; the path that copies flash-resident data first stalls on purpose for long buffers.
- KeyScan.KeyScanner.ScanKeyValue: gives out the matrix; its translation into key codes (`kb_remap_key_row`, `kb_remap_key_code`) depends on key maps and is not part of this model, nor is key repeat.
- ControlTransfer.ControlEndpoint.HandleRequest: standard device requests and unknown ones; interface, endpoint, class and vendor requests, the Microsoft OS descriptors and the `usb_g_config` flag are not modelled.
- NumeralPrint.Printi: bases 10 and 16, the only ones used; the format-string interpreter around it is left out.
- The HID dongle's own decoding loop and the 248-sample dongle reader: the jitter buffer is the 240-sample Google 1.0 configuration.
- The `USB_SOFTWARE_CRC_CHECK` build of the keyboard report, key release bookkeeping (`usbkb_not_released`), and the long-press and stuck-key counters of the debounce filter.
- `gl_audio.c`, the IIR filters, SBC and mSBC, ECC and crypto libraries: settings fixed, coefficients supplied from outside, or sources not visible.
- Registers, DMA, clocks, interrupt masking and all peripheral drivers.
- Interrupts that arrive between two statements of a call: calls are atomic here.
