# TRAX2 streaming frame decoder

A Dafny model of the response decoder of the TRAX2 compass module's host
library (`core/src/Decoder.ts`). The module answers commands with binary
frames laid out as

    [total length: u16 big-endian][frame id: u8][payload][checksum: u16 big-endian]

where the total length counts every byte of the frame. Bytes arrive in
arbitrary chunks. Each `decode` call does four things:

- It joins the bytes it received to the backlog kept from the previous call.
- It scans that buffer while at least four bytes remain.
- At every position it examines the candidate frame there: the length rule of
  the frame id, then completeness, then the checksum, then the payload.
- It keeps whatever it could not resolve as the next backlog.

The model is functional:

- The decoder is the immutable record `StreamDecoder.Decoder`, holding the
  backlog, the step count and the skip-checksum-errors flag.
- `StreamDecoder.Decode` returns the next decoder and the frames delivered, in
  order.
- The checksum algorithm is a parameter (`FrameDecoder.Crc16Fn`), so every
  result holds for any checksum function.

Modules, in dependency order:

- `Wrappers`, `Bytes`: option type, bytes, big-endian 16/32-bit reads and their
  writers.
- `Protocol`: frame ids, the length rule of each response, data-component ids
  and value shapes, and the Declination configuration id.
- `Frames`: the nine payload kinds and the delivered frame.
  - Each delivered frame carries its id, the received checksum (`crc16Expected`)
    and whether it disagreed with the recomputed one (`crc16ErrorStatus`).
- `Components`: the component loop of a data response.
- `FrameDecoder`: one candidate frame. This is the inner `decodeFrame` and
  `crc16Check`.
  - A candidate is `Rejected` (the scan resynchronises by one byte), `Split`
    (the scan waits for more bytes) or `Accepted`, with a frame to deliver
    unless it is a configuration response with an unknown configuration id.
- `FrameChecks`: facts about one candidate.
- `Scanner`: the scan loop over an abstract step rule.
- `StreamDecoder`: the decoder's own step rule and `Decode`.
- `Layout`: the byte layout of every response, written as an encoder. It is the
  reference that decoding is checked against.
- `Transmission`: streams of laid-out frames and garbage, however they are
  chunked.
- `TestVectors`: the byte sequences of the library's decoder tests.
  - Each checksum the tests rely on appears as a precondition on the checksum
    function.

Behaviours the model keeps as the code has them:

- A data response whose count byte asks for more components than follow is
  accepted with the components that do follow only when the byte after them
  (possibly either checksum byte) is not a known component id. Otherwise
  that byte is read as the start of another component that does not fit, and
  the whole frame is rejected.
- An unknown component id ends the component list without failing the frame.
- A known component fails the whole frame when it does not fit.
  - The fit test accepts a component whose last value byte is the first
    checksum byte. This is the bound `frameLength < i + 2 + size` of
    core/src/Decoder.ts:119, :131 and :141, followed exactly
    (`Components.ParseComponents`).
- The step count goes up by one at every scan position whose declared length is
  not zero. That includes positions that are stepped over. It does not include
  the position where the scan stops on an incomplete frame.

## Model

| member | source | states |
|---|---|---|
| Bytes.U16RoundTrip | core/src/Decoder.ts:337 | a 16-bit value written as two big-endian bytes reads back as itself through the big-endian read the decoder uses for lengths and checksums |
| Bytes.U32RoundTrip | core/src/Decoder.ts:257 | a 32-bit value written as four big-endian bytes reads back as itself through the read of serial numbers and sample counts |
| Bytes.U16Injective | core/src/Decoder.ts:51 | two byte pairs that read as the same 16-bit value are the same bytes, so a trailer is determined by the checksum it carries |
| Components.ReadComponent | core/src/Decoder.ts:104-154 | a component read at offset i has the value shape its id prescribes, and its bytes are exactly the 1 + value-size bytes of the frame from i |
| Components.ComponentSize | core/src/Decoder.ts:119-153 | a well-formed component takes 5 bytes for a float, 2 for a status byte and 17 for the quaternion, which are the loop's increments |
| Components.ReadBack | core/src/Decoder.ts:122-153 | reading a well-formed component from its own bytes yields that component |
| Components.ParseComponents | core/src/Decoder.ts:97-160 | a successful parse yields at most the declared count of components; they are laid back to back from offset 4, each well formed and ending before the frame's last byte, and parsing stops on the count, the end of the frame or an unknown id |
| Components.ParseEncoded | core/src/Decoder.ts:97-160 | the converse: any component list that fits the frame this way is exactly what the loop returns, including the partial list before an unknown id |
| Components.ParseMisfit | core/src/Decoder.ts:119-143 | when the count asks for another component and a known id is found whose value would reach the frame's last byte, the whole list fails, whatever came before |
| FrameDecoder.DecodeCandidate | core/src/Decoder.ts:44-333 | the length rule rejects first; the candidate is split exactly when it passes the rule but is incomplete; with checksum errors skipped a mismatch rejects; an accepted frame carries the frame id, the received trailer and the mismatch flag; nothing is delivered exactly for a configuration response with an unknown configuration id |
| FrameDecoder.DecodePayload | core/src/Decoder.ts:61-328 | the payload of a complete frame that passes its length rule is never split; it is rejected exactly when a data response's component loop fails or a Declination configuration response is not 10 bytes long; a delivered frame carries the frame id, the received trailer and the mismatch flag it was given |
| FrameChecks.CandidateExtends | core/src/Decoder.ts:44-92 | a candidate that is not split depends only on the bytes of the frame it declares: bytes after it change nothing |
| FrameChecks.FixedOutcomes | core/src/Decoder.ts:63-328 | a complete response of any of the seven fixed-length kinds that passes its length rule and the checksum gate is accepted and delivered, whatever its payload bytes hold (reserved bytes and flag bytes included) |
| FrameChecks.FlagOutcomes | core/src/Decoder.ts:285-328 | a checked acquisition-parameter or functional-mode response is delivered with each flag read as "its byte is not zero", whatever the byte holds, and the sample delay taken from bytes 9..12 |
| FrameChecks.AcqPayloadIgnoresReserved | core/src/Decoder.ts:285-306 | two acquisition-parameter responses that agree on the header, on which flag bytes are zero and on bytes 9..12 deliver the same payload: reserved bytes 5..8 and the flags' exact values are never read |
| FrameChecks.ModePayloadIgnoresFlagValue | core/src/Decoder.ts:308-328 | two functional-mode responses that agree on the header and on whether the flag byte is zero deliver the same payload |
| FrameChecks.DataOutcomes | core/src/Decoder.ts:86-171 | a complete data response that passes the checksum gate is rejected exactly when the component loop fails (a known component that does not fit); otherwise it is accepted with the id, the received trailer, the mismatch flag and the components read, a partial list when an unknown id stops the loop |
| FrameChecks.ConfigOutcomes | core/src/Decoder.ts:172-201 | a complete configuration response that passes the checksum gate is accepted without delivering anything when its configuration id is unknown; a Declination response is rejected exactly when its length is not 10 |
| FrameChecks.LenientIgnoresChecksum | core/src/Decoder.ts:50-72 | with checksum errors tolerated, the checksum function changes only the error flag: the verdict and the payload are the same for any two functions |
| FrameChecks.StrictAgreesOnGoodChecksum | core/src/Decoder.ts:69-72 | when the checksum matches, the skip flag makes no difference |
| Scanner.ScanFrom | core/src/Decoder.ts:335-353 | the scan from position i stops at a position between i and the end of the buffer: it never passes the buffer's end |
| Scanner.ScanLoop | core/src/Decoder.ts:335-353 | the imperative scan loop computes the same frames, stop position and count as the recursive scan |
| Scanner.ScanRemainder | core/src/Decoder.ts:336-342 | the scan stops only where fewer than four bytes remain or the step rule does not move |
| Scanner.ScanCounts | core/src/Decoder.ts:344-352 | a scan delivers no more frames than it counts steps, and counts no more steps than the bytes it consumes |
| Scanner.ScanAppend | core/src/Decoder.ts:335-353 | scanning a + b is scanning a and then going on from where that scan stopped, with frames and counts joined |
| Scanner.ScanJoin | core/src/Decoder.ts:33-42 | scanning a, then scanning a's leftover joined to b, gives the frames, count and leftover of scanning a + b at once |
| StreamDecoder.CandidateStep | core/src/Decoder.ts:337-352 | one pass of the loop body halts exactly when fewer than four bytes remain or the candidate is an incomplete frame that passes its length rule; otherwise it advances by at least one byte and at most to the buffer's end, delivers at most one frame, and counts at most one step, never fewer than the frames it delivers |
| StreamDecoder.RuleMoves | core/src/Decoder.ts:336-348 | at four bytes or more the decoder moves at every position except an incomplete frame that passes its length rule, where it stops; a step delivers no more frames than it counts and counts no more than it advances, and delivers no frame with a checksum error when those are skipped |
| StreamDecoder.RuleAdvance | core/src/Decoder.ts:344-352 | an accepted frame advances the scan by its whole declared length (at least five); anything else not split advances by one and delivers nothing; the step is counted exactly when the declared length is not zero |
| StreamDecoder.Decode | core/src/Decoder.ts:30-360 | the skip flag is kept; the new backlog is no longer than the joined buffer; the count grows by at least the number of frames delivered and at most by the number of bytes consumed |
| StreamDecoder.DecodeFacts | core/src/Decoder.ts:355-357 | the new backlog is exactly the tail of the old backlog joined with the new bytes; it holds fewer than four bytes or an incomplete frame; with checksum errors skipped no delivered frame carries one |
| StreamDecoder.DecodeLoop | core/src/Decoder.ts:30-360 | the imperative decode computes the same decoder and frames as `Decode` |
| StreamDecoder.DecodeAppend | core/src/Decoder.ts:33-42 | decoding a and then b delivers the same frames, and ends in the same state, as decoding a + b in one call |
| StreamDecoder.DecodeAllIsDecode | core/src/Decoder.ts:33-42 | from a settled decoder, feeding chunks one call at a time is the same as one call on all of them joined |
| StreamDecoder.EmptyInputKeepsState | core/src/Decoder.ts:30-360 | decoding no bytes changes nothing and delivers nothing |
| Layout.PayloadRoundTrip | core/src/Decoder.ts:61-328 | every payload laid out in its response passes that response's length rule and reads back as itself |
| Layout.DataRoundTrip | core/src/Decoder.ts:97-160 | the components of a data response laid out with their count all parse back |
| Layout.CandidateReads | core/src/Decoder.ts:50-72 | a laid-out frame is accepted as itself when its trailer matches the checksum; when it does not, it is rejected if checksum errors are skipped and otherwise delivered with the error flag and the trailer it carried |
| Layout.CandidateRoundTrip | core/src/Decoder.ts:44-333 | a frame sealed with its checksum is accepted as the payload it was laid out from, whatever follows it |
| Transmission.ScanStream | core/src/Decoder.ts:335-353 | a stream of sealed frames back to back is scanned as every frame in order, one counted step per frame, with every byte consumed |
| Transmission.StreamRoundTrip | core/src/Decoder.ts:30-360 | a fresh-backlog decoder given such a stream delivers exactly those frames, counts one per frame and keeps nothing |
| Transmission.ChunkedStreamRoundTrip | core/src/Decoder.ts:33-42 | the same holds however the stream is cut into chunks fed one call at a time |
| Transmission.ShortInput | core/src/Decoder.ts:336 | fewer than four bytes are kept whole; nothing is counted or delivered |
| Transmission.SplitKept | core/src/Decoder.ts:339-342 | a buffer starting with an incomplete frame that passes its length rule is kept whole; nothing is counted or delivered |
| Transmission.SkipRejected | core/src/Decoder.ts:344-352 | a rejected candidate is stepped over by one byte and counted exactly when its declared length is not zero |
| Transmission.SkipGarbage | core/src/Decoder.ts:344-352 | bytes at which no frame can start are stepped over one at a time, each counted |
| Transmission.GarbageExtends | core/src/Decoder.ts:44-333 | positions whose first four bytes declare a non-zero length and fail the length rule stay garbage whatever follows them |
| TestVectors.ModInfoVector | trax2core/test/Decoder.test.ts:11-34 | the module-information response decodes to name "TRAX", revision "P734" and checksum 0x2B91 |
| TestVectors.SerialVector | trax2core/test/Decoder.test.ts:61-82 | the serial-number response decodes to 1031747 |
| TestVectors.BadSerialLenient | trax2core/test/Decoder.test.ts:84-106 | with checksum errors tolerated, the corrupted response is delivered with the error flag and 0x0ED0 as its checksum |
| TestVectors.BadSerialStrict | core/src/Decoder.ts:250-253 | derived from the corrupted-checksum test, not part of it: with the default skip flag the corrupted response is never delivered: six bytes are stepped over and counted, and three are kept |
| TestVectors.AttitudeFirstChunk | trax2core/test/Decoder.test.ts:159-181 | the first seven-byte chunk of the split data response is kept whole and delivers nothing |
| TestVectors.AttitudeVector | trax2core/test/Decoder.test.ts:158-204 | the data response fed in three chunks is delivered once, with its four components, after the third |
| TestVectors.MixedVector | trax2core/test/Decoder.test.ts:274-321 | eleven bytes of garbage are stepped over and counted, then the sample-count and data responses are both delivered: thirteen steps in all |
| TestVectors.QuatTempVector | trax2core/test/Decoder.test.ts:323-361 | a quaternion response split over two calls, then a temperature response, are both delivered, in order, after the second call |

## Left out

- The checksum algorithm: `calculateCrc16` is not part of this model. Every
  operation takes the checksum as a function parameter. The test vectors state
  the checksum values they need as preconditions instead of computing them.
- Float and text decoding (`getFloat32`, `TextDecoder`): floats are kept as
  their four raw big-endian bytes, and the name and revision as their raw bytes.
- Callback registration: every decodable frame is delivered in the result
  sequence, whether or not a handler is registered. A caller consumes the kinds
  it wants.
- The `isProcessing` flag and a re-entrant `decode` from inside a callback: the
  model has no callbacks that could re-enter.
- The `console.log` on a checksum mismatch.
- The `DataView` built over the input's whole underlying buffer, which ignores
  the offset of a sub-array: the input is a plain byte sequence.
- JavaScript number limits: lengths and counts are unbounded naturals. The
  count never wraps.
- Backlog truncation (`unprocessedByteLimit`, `unprocessedByteTruncation`) and
  the `raw` field: they belong to a sibling decoder that the tests import, not
  to `core/src/Decoder.ts`. The truncation test (trax2core/test/Decoder.test.ts:363-387)
  is therefore not modelled.
- The other test vectors decode by the same rules and are not written out:
  - the second module-information vector;
  - the acquisition-parameter vectors;
  - the configuration vectors;
  - the functional-mode vector.
- The command encoder, `Protocol.ts`, the CLI, the studio UI and the serial-port
  relay are not part of this model.
- `Scanner.ScanFrom` scans with an abstract step rule. The rule stops the scan
  whenever a step does not move forward within the buffer. The decoder's own
  rule stops only at an incomplete frame, and `StreamDecoder.RuleMoves` shows
  that it always moves otherwise. So the guard changes nothing for
  `StreamDecoder.Decode`.
