# Verification of the USV radio bridge

This project models `usv_radio_bridge`, the vehicle-side bridge between an RFD900x serial
radio and ROS 2, and proves what its framing, checksums, command handling and transmit
scheduling guarantee. `dafny verify dfyconfig.toml` checks all of it.

| file | what it models |
|---|---|
| `PolynomialRegister.dfy` | polynomials over GF(2) and the shift register that divides them |
| `Words.dfy`, `Bytes.dfy` | machine words as coefficients; little-endian fields; the growing byte vector |
| `Crc.dfy` | `crc24q` as written, and the CRC-32 that `crc32_ieee` takes from zlib (section 8 of RFC 1952) |
| `Generators.dfy` | the two generator polynomials, term by term |
| `Rtcm.dfy`, `Envelope.dfy` | the RTCM check, and what either checksum is guaranteed to detect |
| `Protocol.dfy` | the frame envelope: printer, header checks, and the decision taken at one position |
| `Scanner.dfy` | the reference meaning of a byte stream: one uncapped scan, position by position |
| `FrameParser.dfy` | `FrameParser::feed`, with its buffer, cap and counter |
| `ParserRuns.dfy` | whole runs of `feed`, and the exact chunk size up to which they equal the scan |
| `Floats.dfy` | float32 clamping and multiplication, with IEEE 754 rounding to nearest even |
| `RxCommands.dfy`, `Reader.dfy` | `dispatch_frame`, the handlers over the Joy message, and `reader_loop` |
| `Telemetry.dfy`, `Transport.dfy` | payload encoders; `write_frame` over a device that answers as it likes |
| `Sequence.dfy` | the 32-bit sequence counter against the number of allocations |
| `TxModel.dfy`, `TxGuarantees.dfy` | the transmit callbacks as a transition system, and what every run of it keeps |
| `TxRequests.dfy` | what the incoming events put into the queues, byte for byte |
| `TxFate.dfy` | what becomes of every telemetry frame that is built |
| `TxWire.dfy` | what that system leaves on the wire, and what arrives |
| `TxNode.dfy` | the callbacks themselves and the executor that runs them, proved step for step against that system |

How the pieces meet. `Parser.Feed` is proved equal, buffer for buffer, to `Drain`; `Drain`
refines `Scan`; `Scan` accepts exactly what the printer writes. So a run of `feed` calls is
one scan of everything fed, a run of the reader loop publishes what the scanned frames ask
for, and a run of the transmit callbacks (`TxNode.FromStartup`) leaves a wire from which the
same parser recovers the frames that went out whole, under the condition of
`Scanner.Resynchronises` and with the one exception of sentences that are too long. Both checksums are instances of one shift register, whose
linearity, remainder and burst theorems do not depend on width or generator.

## Where code and comments differ

- `usv_radio_bridge/src/frame_parser.cpp:9-12` says the cap never truncates a legitimate
  frame. It does when a chunk is larger than 4097 bytes: `ParserRuns.LargeChunkLosesFrame`
  loses the largest frame, and `ParserRuns.ChunkBoundIsExact` shows 4097 is the exact limit.
  `reader_loop` reads at most 4096, so the bridge is safe by one byte.
- `encode_frame` checks no length. `Scanner.RoundTripIffSendable` gives the exact condition:
  a list of frames survives the wire if and only if every payload has at most 8192 bytes. The
  NMEA path can build a longer one: `TxWire.LongSentenceIsLost` runs the node on such a
  sentence, and `TxWire.SentenceArrivesIffShort` says which sentences arrive.
- `usv_radio_bridge/include/usv_radio_bridge/radio_bridge_node.hpp:162-166` says the telemetry
  slot is never left stale when sources stop. The received flags are never cleared, so it is:
  `TxGuarantees.TelemetryGoesStale` for any run, `TxGuarantees.StaleFixIsReported` for one.
  What holds is `TxGuarantees.TelemetryOnlyWhenAllDelivered`: a tick fills the slot exactly
  when each source has delivered at least once.

## Model

| member | source | states |
|---|---|---|
| PolynomialRegister.FeedIsRemainder | usv_radio_bridge/src/crc.cpp:19-25 | a value is the remainder of m(x)*x^n modulo the generator (some quotient exists) if and only if the register computes it |
| PolynomialRegister.DivisionIsUnique | usv_radio_bridge/src/crc.cpp:19-25 | quotient and remainder of long division by a monic polynomial are unique |
| PolynomialRegister.FeedIsLinear | usv_radio_bridge/src/crc.cpp:19-25 | the register is linear in start value and message together |
| PolynomialRegister.FeedReachesZero | usv_radio_bridge/src/crc.cpp:22-23 | a message no longer than the register drives it to zero from exactly one start value, the message itself |
| PolynomialRegister.ZeroResidue | usv_radio_bridge/src/radio_bridge_node.cpp:543-547 | appending n coefficients gives residue zero exactly when they are the checksum |
| PolynomialRegister.BurstIsDetected | usv_radio_bridge/src/crc.cpp:19-25 | messages with equal residue that differ only within n consecutive coefficients are equal, at any length |
| PolynomialRegister.GeneratorBurstIsMissed | usv_radio_bridge/src/crc.cpp:22 | the generator itself, one coefficient longer, is never noticed: the burst bound is exact |
| PolynomialRegister.OddErrorIsDetected | usv_radio_bridge/src/crc.cpp:22 | with a generator of an even number of terms every odd number of flipped bits changes the residue |
| Bytes.ByteVector.PushU16le | usv_radio_bridge/src/protocol.cpp:11-15 | appends the low 16 bits of a size, low byte first, and nothing else |
| Bytes.ByteVector.PushU32le | usv_radio_bridge/src/protocol.cpp:17-22 | the byte loop appends the four little-endian bytes of the value |
| Bytes.ByteVector.PushF32le | usv_radio_bridge/src/protocol.cpp:24-29 | appends the four little-endian bytes of a float's bit pattern |
| Bytes.ByteVector.PushF64le | usv_radio_bridge/src/protocol.cpp:31-38 | the byte loop appends the eight little-endian bytes of a double's bit pattern |
| Bytes.RoundTrip16 | usv_radio_bridge/src/frame_parser.cpp:66-67 | the length field reads back as the size modulo 65536 |
| Bytes.RoundTrip32 | usv_radio_bridge/src/frame_parser.cpp:62-65 | reading a written 32-bit field gives the value back |
| Bytes.RoundTrip64 | usv_radio_bridge/src/protocol.cpp:31-38 | reading a written 64-bit field gives the bit pattern back |
| Bytes.LittleEndian16 | usv_radio_bridge/src/protocol.cpp:11-15 | the two bytes, weighed 1 and 256, are the size modulo 65536 |
| Bytes.LittleEndian32 | usv_radio_bridge/src/protocol.cpp:17-22 | the four bytes, weighed 1, 256, 65536 and 2^24, are the number the word spells |
| Bytes.LittleEndian64 | usv_radio_bridge/src/protocol.cpp:31-38 | byte i holds bits 8i to 8i+7 |
| Crc.ComputeCrc24q | usv_radio_bridge/src/crc.cpp:16-27 | the nested bit loop returns a 24-bit value that is the remainder of data(x)*x^24 modulo 0x1864CFB |
| Crc.AbsorbByte | usv_radio_bridge/src/crc.cpp:20-24 | the inner loop takes in one byte and shifts out eight bits |
| Crc.Crc24qIsRemainder | usv_radio_bridge/src/crc.cpp:16-27 | the same of the specification function, for data of any length |
| Crc.Crc24qIsLinear | usv_radio_bridge/src/crc.cpp:16-27 | the checksum of the XOR of two equal-length inputs is the XOR of their checksums |
| Crc.TrailerMatchesIffZeroResidue | usv_radio_bridge/src/radio_bridge_node.cpp:543-547 | computed equals received if and only if the checksum over data and trailer is zero |
| Crc.G24Facts | usv_radio_bridge/src/crc.cpp:22 | 0x1864CFB has a constant term and an even number of terms |
| Generators.Generator24 | usv_radio_bridge/src/crc.cpp:22 | the generator is x^24 + x^23 + x^18 + x^17 + x^14 + x^11 + x^10 + x^7 + x^6 + x^5 + x^4 + x^3 + x + 1 |
| Generators.Generator32 | usv_radio_bridge/src/crc.cpp:7-14 | the frame checksum has the IEEE 802.3 polynomial, its fifteen terms written out |
| Crc.Crc32IsFeed | usv_radio_bridge/src/crc.cpp:7-14 | the reflected CRC-32 register is the shift register on bits taken low bit first |
| Crc.Residue32IsConstant | usv_radio_bridge/src/frame_parser.cpp:80-87 | any data followed by its own little-endian CRC-32 leaves one fixed residue |
| Rtcm.Check | usv_radio_bridge/src/radio_bridge_node.cpp:526-551 | the checks of the handler, short and malformed payloads included, decide exactly `Passes` |
| Rtcm.PassesIffZeroResidue | usv_radio_bridge/src/radio_bridge_node.cpp:528-551 | a payload passes if and only if it is well framed and has zero residue as a whole |
| Rtcm.PassesIffDivisible | usv_radio_bridge/src/radio_bridge_node.cpp:528-551 | seen as a polynomial: well framed and x^24 times the payload divisible by the generator |
| Rtcm.PassesExactly | usv_radio_bridge/src/radio_bridge_node.cpp:526-551 | a payload passes if and only if it has 6 to 1029 bytes, begins with D3, counts its data in the low two bits of byte 1 and in byte 2, and leaves no residue |
| Rtcm.MessagePasses | usv_radio_bridge/src/radio_bridge_node.cpp:526-551 | every message of up to 1023 data bytes, framed and checksummed, passes |
| Rtcm.BurstIsDropped | usv_radio_bridge/src/radio_bridge_node.cpp:543-551 | if a payload passes, no different one of its length passes whose differing bits lie within 24 consecutive bits, trailer included |
| Rtcm.OddErrorIsDropped | usv_radio_bridge/src/radio_bridge_node.cpp:543-551 | nor one that differs from it in an odd number of bits, wherever they are |
| Rtcm.GeneratorErrorPasses | usv_radio_bridge/src/radio_bridge_node.cpp:543-551 | the 25-bit generator pattern anywhere behind the header of a payload that passes goes unnoticed |
| Rtcm.GeneratorBurstPasses | usv_radio_bridge/src/radio_bridge_node.cpp:526-551 | two different payloads that both pass and differ only within 25 consecutive bits |
| Rtcm.BurstBoundIsExact | usv_radio_bridge/src/radio_bridge_node.cpp:526-551 | all bursts within n consecutive bits are caught if and only if n is at most 24 |
| Envelope.FramesAreFarApart | usv_radio_bridge/src/protocol.cpp:56-57 | two encoded frames whose bits differ only within 32 consecutive ones are the same bytes |
| Envelope.BurstIsRejected | usv_radio_bridge/src/frame_parser.cpp:69-91 | an encoded frame damaged within 32 consecutive bits, length bytes spared, is not accepted, whatever follows it |
| Envelope.BurstIsNeverEmitted | usv_radio_bridge/src/frame_parser.cpp:33-101 | so in any stream no frame is emitted at the position of the damaged one |
| Envelope.GeneratorErrorIsAccepted | usv_radio_bridge/src/protocol.cpp:56-57 | the 33-bit generator pattern anywhere in front of the trailer gives another frame, which is accepted |
| Envelope.BurstBoundIsExact | usv_radio_bridge/src/frame_parser.cpp:69-91 | all bursts within n consecutive bits, length bytes spared, are caught if and only if n is at most 32 |
| Protocol.EncodeFrame | usv_radio_bridge/src/protocol.cpp:42-59 | appending to the byte vector gives header, payload and the CRC-32 of both |
| Protocol.HeaderFields | usv_radio_bridge/src/protocol.cpp:48-57 | where each field of an encoded frame stands |
| Protocol.Classify | usv_radio_bridge/src/frame_parser.cpp:56-100 | the decision at one position; waiting means fewer bytes than the largest frame are at hand, accepting means the frame's encoding stands there |
| Protocol.AcceptsExactlyThePrinted | usv_radio_bridge/src/frame_parser.cpp:60-100 | a frame is accepted if and only if its encoding stands at the front and its payload fits |
| Protocol.DecisionIsFinal | usv_radio_bridge/src/frame_parser.cpp:69-91 | accepting or rejecting a position never changes as more bytes arrive |
| Scanner.ScanAppend | usv_radio_bridge/src/frame_parser.cpp:33-101 | scanning a longer stream continues from the remainder of the shorter one |
| Scanner.ScanConservesBytes | usv_radio_bridge/src/frame_parser.cpp:33-101 | bytes are in emitted frames, passed over or held, and rejections do not exceed bytes passed over |
| Scanner.LeftmostGreedy | usv_radio_bridge/src/frame_parser.cpp:33-101 | the stream is gap, encoded frame, gap, ..., tail, rest; no gap or tail position starts a frame under any continuation; the bad frames are the magics among them |
| Scanner.EveryReadingBeginsWithScan | usv_radio_bridge/src/frame_parser.cpp:33-101 | any other such reading of the stream begins with the same frames |
| Scanner.RoundTripIffSendable | usv_radio_bridge/src/protocol.cpp:42-59 | a list of frames comes back from the scan, with nothing bad or left over, if and only if every payload fits |
| Scanner.Resynchronises | usv_radio_bridge/src/frame_parser.cpp:33-101 | whatever came before, a frame that no valid frame straddles is emitted at its position once 8203 bytes follow from its start |
| Scanner.ResyncBoundIsExact | usv_radio_bridge/src/frame_parser.cpp:47-101 | n bytes from its start on are enough in every stream if and only if n is at least 8203 |
| FrameParser.FirstMagic | usv_radio_bridge/src/frame_parser.cpp:34-42 | the first position of the magic, or none |
| FrameParser.Parser.FindMagic | usv_radio_bridge/src/frame_parser.cpp:34-42 | the hunting loop returns that position |
| FrameParser.Parser.PopFrontDownTo | usv_radio_bridge/src/frame_parser.cpp:26-28 | the pop_front loop keeps the newest bytes up to the limit and changes nothing else |
| FrameParser.Parser.Reset | usv_radio_bridge/src/frame_parser.cpp:17-21 | empties the buffer and the counter |
| FrameParser.Parser.Feed | usv_radio_bridge/src/frame_parser.cpp:23-104 | frames returned, buffer kept and counter are those of `Drain` on the capped buffer, for chunks of any size |
| FrameParser.Drain | usv_radio_bridge/src/frame_parser.cpp:33-101 | every way out of the loop leaves fewer bytes than the largest frame |
| ParserRuns.DrainRefinesScan | usv_radio_bridge/src/frame_parser.cpp:33-101 | draining a buffer is scanning it, up to magic-free bytes left standing |
| ParserRuns.DrainConservesBytes | usv_radio_bridge/src/frame_parser.cpp:33-101 | a call loses no byte: frames, passed over, held |
| ParserRuns.BufferIsBounded | usv_radio_bridge/src/frame_parser.cpp:56-78 | after any run, with chunks of any size, the buffer holds at most 8205 bytes |
| ParserRuns.RunConservesBytes | usv_radio_bridge/src/frame_parser.cpp:23-104 | over any run, bytes fed are in frames, passed over, cut by the cap or held, and bad frames do not exceed bytes passed over |
| ParserRuns.ChunkingIndependence | usv_radio_bridge/src/serial_transport.cpp:82-84 | for every split into chunks of at most 4097 bytes, frames and bad-frame count are those of one scan, nothing is cut, and the buffers agree up to magic-free bytes |
| ParserRuns.ReadBoundariesDoNotMatter | usv_radio_bridge/src/serial_transport.cpp:82-84 | two ways of chunking one stream give the same frames and the same count |
| ParserRuns.RunReadsLeftmostGreedy | usv_radio_bridge/src/frame_parser.cpp:23-104 | the frames of a run are the leftmost-greedy reading of what was fed, and the bad-frame count is the number of magics passed over in it |
| ParserRuns.RunResynchronises | usv_radio_bridge/include/usv_radio_bridge/frame_parser.hpp:3-10 | over any run, an unstraddled frame is returned, for the position it stands at, once 8203 bytes follow from its start |
| ParserRuns.RunRoundTrip | usv_radio_bridge/src/protocol.cpp:42-59 | encoded frames fed in any such chunks come back exactly, with no bad frame and an empty buffer |
| ParserRuns.LargeChunkLosesFrame | usv_radio_bridge/src/frame_parser.cpp:13-28 | with chunks of 4098 bytes a legitimate frame is lost to the cap |
| ParserRuns.ChunkBoundIsExact | usv_radio_bridge/src/frame_parser.cpp:13-28 | all streams survive chunking into at most n bytes if and only if n is at most 4097 |
| Floats.FromBitsIsBinary32 | usv_radio_bridge/src/protocol.cpp:92-95 | a stick value is read as IEEE 754 binary32: bit 31, bits 30 to 23, bits 22 to 0 of the number spelt |
| Floats.Clamp | usv_radio_bridge/src/radio_bridge_node.cpp:575-578 | finite results lie between -1 and 1, infinities become finite, NaN passes through |
| Floats.StickObeys | usv_radio_bridge/src/radio_bridge_node.cpp:575-578 | an axis value is the float32 nearest to deflection times limit, the deflection being the stick within [-1, 1] and else the end on its side; NaN and infinite limits as IEEE 754 has them |
| Floats.RoundedIsNearest | usv_radio_bridge/src/radio_bridge_node.cpp:575-578 | the rounded product is a float32, and no finite float32 is nearer to the exact one; a float32 is not changed |
| Floats.TiesGoToEven | usv_radio_bridge/src/radio_bridge_node.cpp:575-578 | halfway between two float32 values the one with the even last bit is taken |
| Floats.OverflowIff | usv_radio_bridge/src/radio_bridge_node.cpp:575-578 | the result is infinite exactly from half a spacing beyond the largest float32 on, with the right sign |
| Floats.ScaledStickStaysWithin | usv_radio_bridge/src/radio_bridge_node.cpp:575-578 | clamped stick times limit never exceeds the limit, rounding included, and is NaN exactly for a NaN stick |
| RxCommands.React | usv_radio_bridge/src/radio_bridge_node.cpp:489-660 | one dispatched frame keeps the Joy message at its configured size |
| RxCommands.CommandState.DispatchFrame | usv_radio_bridge/src/radio_bridge_node.cpp:489-524 | new Joy fields and publications are those of `React`, for every packet type |
| RxCommands.CommandState.HandleRtcm | usv_radio_bridge/src/radio_bridge_node.cpp:526-557 | publishes the payload exactly when it passes, and touches nothing else |
| RxCommands.CommandState.HandleControl | usv_radio_bridge/src/radio_bridge_node.cpp:559-591 | writes surge, then yaw, then publishes; bad sizes and remote control off change nothing |
| RxCommands.CommandState.HandleKillswitch | usv_radio_bridge/src/radio_bridge_node.cpp:593-623 | reports the switch, and if active centres everything and publishes |
| RxCommands.CommandState.HandleGamepadButton | usv_radio_bridge/src/radio_bridge_node.cpp:625-660 | reports a valid button, and with remote control on folds it into Joy |
| RxCommands.ButtonShowsLastWriter | usv_radio_bridge/src/radio_bridge_node.cpp:605-658 | after any run each button has the value of the last frame that writes it, valid button frame or active killswitch, else 0 |
| RxCommands.AxisShowsLastWriter | usv_radio_bridge/src/radio_bridge_node.cpp:575-622 | after any run each axis has the value of its last writer, yaw winning a shared index, else 0 |
| RxCommands.ControlMovesAxes | usv_radio_bridge/src/radio_bridge_node.cpp:559-586 | after a control frame the surge axis obeys the first four payload bytes and the linear limit, the yaw axis the last four and the angular limit |
| RxCommands.AxesStayWithinLimits | usv_radio_bridge/src/radio_bridge_node.cpp:575-586 | after any run a stick axis is NaN or within its configured limit, whatever was received |
| RxCommands.OtherAxesStayCentred | usv_radio_bridge/src/radio_bridge_node.cpp:580-585 | no axis but surge and yaw ever leaves 0 |
| RxCommands.PublishedJoyIsCurrent | usv_radio_bridge/src/radio_bridge_node.cpp:140-146 | every published Joy is the current one, and no change goes unpublished |
| RxCommands.FrameIsAnswered | usv_radio_bridge/src/radio_bridge_node.cpp:489-660 | every frame, whatever its type, is answered with exactly the publications its bytes ask for, the report before the Joy message, and nothing else |
| RxCommands.TopicsCarryTheAnswers | usv_radio_bridge/src/radio_bridge_node.cpp:593-660 | over any run the killswitch reports are, in order, payload[0] != 0 of each one-byte killswitch frame with remote control on, the button reports (payload[0], payload[1] != 0) of each two-byte button frame in range, and the Joy and RTCM topics likewise |
| RxCommands.RtcmIsRelayed | usv_radio_bridge/src/radio_bridge_node.cpp:526-557 | over any run the RTCM data published is exactly the passing payloads, in order |
| RxCommands.KillswitchReleases | usv_radio_bridge/src/radio_bridge_node.cpp:612-622 | after an active killswitch a button stays released until that button is pressed again |
| RxCommands.RemoteControlOffIsInert | usv_radio_bridge/src/radio_bridge_node.cpp:567-654 | with remote control off Joy never changes and only RTCM data and button reports are published |
| Reader.Bridge.OneTurn | usv_radio_bridge/src/radio_bridge_node.cpp:424-459 | open and reset if closed, read once, feed; a failed read closes the port |
| Reader.Bridge.DispatchAll | usv_radio_bridge/src/radio_bridge_node.cpp:461-472 | dispatching a batch extends the history of frames by that batch |
| Reader.Bridge.ReaderLoop | usv_radio_bridge/src/radio_bridge_node.cpp:420-487 | Joy and publications after any number of turns are those of the frames dispatched so far |
| Reader.DispatchedAreTheFrames | usv_radio_bridge/src/radio_bridge_node.cpp:420-487 | the frames dispatched are those of one scan of each stream between openings |
| Reader.PublicationsDependOnlyOnBytes | usv_radio_bridge/src/radio_bridge_node.cpp:445-660 | publications and Joy depend only on parameters and the bytes received between openings, not on read boundaries |
| Reader.SentCommandsAreObeyed | usv_radio_bridge/src/radio_bridge_node.cpp:445-660 | frames sent intact over one opening have exactly the effect of dispatching them |
| Reader.FrameBehindNoiseIsDispatched | usv_radio_bridge/src/radio_bridge_node.cpp:420-487 | a frame standing unstraddled in any stream received, with 8203 bytes from its start on, is dispatched |
| Reader.KillswitchBehindNoiseStops | usv_radio_bridge/src/radio_bridge_node.cpp:593-623 | so an active killswitch behind line noise centres Joy, reports itself and publishes, at that point of the run |
| Telemetry.EncodeTelemetry | usv_radio_bridge/src/protocol.cpp:61-83 | the pushes give the documented 59 bytes |
| Telemetry.TelemetryRoundTrip | usv_radio_bridge/src/protocol.cpp:61-83 | reading the fields at their documented offsets gives the snapshot back, bit for bit |
| Telemetry.TelemetryIsInjective | usv_radio_bridge/src/protocol.cpp:61-83 | different snapshots have different encodings |
| Transport.SerialTransport.WriteFrame | usv_radio_bridge/src/serial_transport.cpp:130-154 | whatever the device answers, the wire gains a prefix of the frame, all of it exactly when the call reports success; the call stays in its loop exactly while the open device neither fails nor has taken everything |
| Transport.TransmitMeaning | usv_radio_bridge/src/serial_transport.cpp:137-147 | the prefix is what was taken before the first real error; interruptions cost nothing |
| Transport.WholeFramesArrive | usv_radio_bridge/src/serial_transport.cpp:130-154 | among torn frames, a whole one is returned by the parser at the far end, however read, if unstraddled and followed by 8203 bytes from its start |
| Transport.UntornWireArrives | usv_radio_bridge/src/serial_transport.cpp:130-154 | with no torn write the far end gets exactly the frames sent, in order, and no bad frame |
| TxModel.RunKeepsInv | usv_radio_bridge/src/radio_bridge_node.cpp:197-391 | the invariant of the transmit side holds in every reachable state |
| TxGuarantees.QueueHistory | usv_radio_bridge/src/radio_bridge_node.cpp:344-372 | queues hold the newest of at most 16; every frame the events asked for is held, evicted or handed on, in order; the other three queues stay empty |
| TxRequests.TrimMeaning | usv_radio_bridge/src/radio_bridge_node.cpp:260-266 | trimming takes blanks, tabs, CR and LF off both ends, all of them, and nothing else |
| TxRequests.TrimIsUnique | usv_radio_bridge/src/radio_bridge_node.cpp:260-266 | only one string can be left over |
| TxRequests.SentenceIsQueued | usv_radio_bridge/src/radio_bridge_node.cpp:258-275 | a message queues a frame of type 3 exactly if, without blanks at its ends, it begins with $GPGGA or $GNGGA, and with that as its payload |
| TxRequests.ResponseIsQueued | usv_radio_bridge/src/radio_bridge_node.cpp:696-708 | a response queues a frame of type 10 whose first byte says if it was accepted, the second if the mode is AUTO |
| TxRequests.TelemetryKind | usv_radio_bridge/src/radio_bridge_node.cpp:338-341 | a telemetry tick builds a frame of type 1 with the next number |
| TxGuarantees.EvictsOnlyWhenFull | usv_radio_bridge/src/radio_bridge_node.cpp:721-733 | a frame is evicted exactly when its queue holds 16 and a newer one of its kind is pushed |
| TxGuarantees.TriedInOrder | usv_radio_bridge/src/radio_bridge_node.cpp:258-275 | frames of one type are handed to `write_frame` at most once, in strictly rising order of allocation, and with different wire numbers as long as they are less than 2^32 allocations apart |
| Sequence.NumbersRepeatIff | usv_radio_bridge/src/radio_bridge_node.cpp:716-719 | two allocations get the same 32-bit number if and only if they lie a multiple of 2^32 apart |
| Sequence.NumberOfAllocation | usv_radio_bridge/src/radio_bridge_node.cpp:716-719 | the n-th allocation, counted from 0, is given the number n modulo 2^32 |
| TxRequests.NumberOnTheWire | usv_radio_bridge/src/protocol.cpp:52 | that number, the type and the payload are what the frame carries |
| TxGuarantees.NoNumberIsSkipped | usv_radio_bridge/src/radio_bridge_node.cpp:716-719 | every number handed out went into exactly one frame built |
| TxGuarantees.NumbersAreDistinct | usv_radio_bridge/src/radio_bridge_node.cpp:716-719 | of all frames handed to `write_frame`, of whatever type, no two stem from one allocation, and their wire numbers differ unless they are a multiple of 2^32 allocations apart |
| TxGuarantees.TickPriority | usv_radio_bridge/src/radio_bridge_node.cpp:344-391 | in every reachable state a tick sends status before GGA before telemetry, telemetry being the latest built, and idles only if there is nothing |
| TxFate.SlotIsLeftAlone | usv_radio_bridge/src/radio_bridge_node.cpp:344-381 | in every reachable state only a building telemetry tick, or a transmit tick that finds both queues empty, touches the slot |
| TxFate.TelemetryFate | usv_radio_bridge/src/radio_bridge_node.cpp:285-391 | every telemetry frame built is exactly one of handed on, still in the slot, or superseded; it is handed on if and only if, before the next telemetry tick, there are more transmit ticks than status and GGA frames popped |
| TxGuarantees.StatusDelayIsBounded | usv_radio_bridge/src/radio_bridge_node.cpp:344-372 | a status frame at position k, k below 16, has left its queue after k+1 ticks |
| TxGuarantees.GgaDelayIsBounded | usv_radio_bridge/src/radio_bridge_node.cpp:344-372 | a GGA frame at position k has left after k+1+m ticks, m status frames being popped meanwhile |
| TxGuarantees.CacheShowsLatest | usv_radio_bridge/src/radio_bridge_node.cpp:197-281 | each cached field is that of the last message of its source, or its startup value |
| TxGuarantees.TelemetryOnlyWhenAllDelivered | usv_radio_bridge/src/radio_bridge_node.cpp:285-342 | the timer builds a frame, from the current cache, exactly when all six sources have delivered |
| TxGuarantees.TelemetryGoesStale | usv_radio_bridge/src/radio_bridge_node.cpp:285-342 | once all sources have delivered they may fall silent for ever, and every tick still fills the slot with the old snapshot |
| TxGuarantees.StaleFixIsReported | usv_radio_bridge/include/usv_radio_bridge/radio_bridge_node.hpp:162-166 | a run in which a fix seen once is still reported after any number of rounds |
| TxGuarantees.BuiltFromCache | usv_radio_bridge/src/radio_bridge_node.cpp:285-342 | the snapshot in a telemetry frame is the whole cache at one tick, when all sources had delivered |
| TxGuarantees.TelemetryFidelity | usv_radio_bridge/src/radio_bridge_node.cpp:285-342 | every telemetry frame built, encoded and parsed, decodes to the cache as it stood at one tick, when all sources had delivered |
| TxWire.TriedPayloads | usv_radio_bridge/src/radio_bridge_node.cpp:258-342 | every frame handed to `write_frame` is a 2-byte status, a 59-byte telemetry frame that was built, or a sentence that was received |
| TxWire.SentFrameReachesGround | usv_radio_bridge/src/radio_bridge_node.cpp:387-390 | over any run with adversarial writes, a frame reported sent is returned by the parser at the far end under the resynchronisation condition, unless it is a sentence that is too long |
| TxWire.SentenceArrivesIffShort | usv_radio_bridge/src/radio_bridge_node.cpp:258-275 | under that condition a GGA frame reported sent arrives if and only if its sentence has at most 8192 bytes |
| TxWire.LongSentenceIsLost | usv_radio_bridge/src/radio_bridge_node.cpp:258-275 | a run with a sentence of 8193 bytes: queued, written whole, reported sent, and never found on the wire |
| TxWire.StatusReachesGround | usv_radio_bridge/src/radio_bridge_node.cpp:696-712 | the r-th status frame, if reported sent, tells the ground in its two bytes what the r-th response said |
| TxWire.TelemetryReachesGround | usv_radio_bridge/src/radio_bridge_node.cpp:285-391 | a telemetry frame reported sent decodes, at the far end, to the cache at one tick when all sources had delivered |
| TxNode.EnqueueBounded | usv_radio_bridge/src/radio_bridge_node.cpp:721-733 | drops the oldest at 16 and appends |
| TxNode.TxCallbacks.Run | usv_radio_bridge/src/main.cpp:10 | callbacks run one after the other leave the state and the wire of the transition system |
| TxNode.TxCallbacks.Callback | usv_radio_bridge/src/main.cpp:10 | each event runs its callback, which is one step of the transition system |
| TxNode.FromStartup | usv_radio_bridge/src/main.cpp:10 | from construction on, any sequence of events leaves exactly the modelled state and wire |
| TxNode.TxCallbacks.NextFrame | usv_radio_bridge/src/radio_bridge_node.cpp:273 | a frame is encoded with the next number, and that number is used up |
| TxNode.TxCallbacks.OnPosition | usv_radio_bridge/src/radio_bridge_node.cpp:197-204 | caches the position and marks the source delivered; fields and model take the same step, nothing else moves |
| TxNode.TxCallbacks.OnEuler | usv_radio_bridge/src/radio_bridge_node.cpp:206-213 | caches roll, pitch and heading and marks the source delivered, as one step of the model |
| TxNode.TxCallbacks.OnVelocity | usv_radio_bridge/src/radio_bridge_node.cpp:215-226 | caches the velocity and speed and marks the source delivered, as one step of the model |
| TxNode.TxCallbacks.OnImu | usv_radio_bridge/src/radio_bridge_node.cpp:228-237 | marks the IMU delivered and changes no cached field, as one step of the model |
| TxNode.TxCallbacks.OnGnss | usv_radio_bridge/src/radio_bridge_node.cpp:239-244 | caches the fix status and marks the source delivered, as one step of the model |
| TxNode.TxCallbacks.OnBattery | usv_radio_bridge/src/radio_bridge_node.cpp:246-256 | caches voltage and percentage and marks the source delivered, as one step of the model |
| TxNode.TxCallbacks.OnControlMode | usv_radio_bridge/src/radio_bridge_node.cpp:277-281 | caches the mode without marking any source delivered, as one step of the model |
| TxNode.TxCallbacks.OnNmea | usv_radio_bridge/src/radio_bridge_node.cpp:258-275 | trims, filters, numbers, encodes and queues, as one step of the transition system |
| TxNode.TxCallbacks.OnSetControlModeResponse | usv_radio_bridge/src/radio_bridge_node.cpp:696-712 | numbers, encodes and queues the status, as one step of the transition system |
| TxNode.TxCallbacks.OnTelemetryTimer | usv_radio_bridge/src/radio_bridge_node.cpp:285-342 | builds into the slot or does nothing, as one step of the transition system |
| TxNode.TxCallbacks.TakeFrame | usv_radio_bridge/src/radio_bridge_node.cpp:349-381 | pops by strict priority over all five queues, else empties the slot |
| TxNode.TxCallbacks.OnTxTimer | usv_radio_bridge/src/radio_bridge_node.cpp:344-391 | one step of the transition system, the wire growing by what `write_frame` got out |
| TxNode.TxCallbacks.NextSequence | usv_radio_bridge/src/radio_bridge_node.cpp:716-719 | hands out the counter and adds one, wrapping at 32 bits |

## Left out

- Transport.SerialTransport.WriteFrame: proves partial correctness, because a device that interrupts or takes nothing for ever keeps the loop going; a call still in the loop when the given answers end is reported as blocked.
- RxCommands.CommandState.HandleControl: does not keep the sign of a zero stick value, because float32 values are modelled by the reals they stand for.
- TxNode.TxCallbacks.OnVelocity: takes the speed as an input, because the float32 square root is computed before the event.
- TxNode.TxCallbacks.OnBattery: takes the percentage already multiplied by 100, for the same reason.
- TxNode.EnqueueBounded: takes and returns the queue as a value where the source passes it by reference.
- `crc32_ieee` is one call into zlib, which is not part of this model; the algorithm it is documented to compute is.
- The bad-frame counter and sizes are unbounded; 64-bit overflow is not modelled.
- AUTONOMY_COMMAND frames publish nothing; the service call they trigger is not modelled, and its response is an arbitrary input event.
- Opening, closing, configuring and reading the port are inputs: a read is any bytes up to 4096, a timeout or an error, and an opening may fail.
- Conversion of incoming doubles to floats, the speed square root and the battery scaling happen before the events of the transmit model, which carry the resulting bit patterns.
- Locks and threads: each callback, and each turn of the reader loop, is one atomic step.
- Logging, timestamps, parameters' declaration, link-down detection, launch files and QoS settings.
- The ground station and the nodes downstream of `/joy` are not part of this model.
