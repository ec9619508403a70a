# Soluna streaming core: a Dafny model

Soluna streams audio over OSTP, an RTP-based protocol. This project models the
self-contained algorithms inside its senders, receivers and web players and proves
what they promise: the lock-free ring buffer under every interleaving of its two
threads, the CRC as polynomial division over GF(2), the ADPCM codec, clock and rate
control, loss recovery, the buffer transformations, and the auto-tuner.

Code that updates state in place is modelled in place: classes with the source's
fields, methods with its loops and branches, arrays where it has buffers. Each such
method is proved equal to a function of its inputs or of the old state, and the
properties are lemmas about that function, over every input and every run.

`dafny verify dfyconfig.toml` checks the whole project.

## Modules

- `Common`: what several modules share.
- `Bits`, `Cells`, `RingGeometry`, `SpscRing`, `SpscProtocol`, `SpscHistory`: `next_pow2`, slot arithmetic
  with wrapping `size_t` counters, the ring class from one thread with the receive
  loop's overflow path, and the ring as two threads in which every atomic load, atomic
  store and sample copy is a step; what becomes of every call in a run.
- `Gf2`, `Words`, `Crc32`, `CrcDivision`: GF(2) polynomials, words as bit strings, bitwise and
  table-driven CRC-32 (IEEE 802.3 section 3.2.9).
- `BigEndian`, `Ostp`: packet builder, parsers, round trips (RFC 3550 sections 5.1 and 5.3.1).
- `CrcHoles`, `Trailer`: what the packets' CRC trailer detects, bursts across its border included.
- `Adpcm`: the encoder, both decoders, lockstep and accuracy.
- `ClockSync`, `Asrc`, `Worklet`: ping, pong and the four-timestamp offset (RFC 5905 section 8), the
  daemon's rate converter, the browser's variable-rate reader.
- `LossRecovery`, `SequenceTracking`: packet cache, NACKs, 16-bit sequence accounting.
- `Interleaved`, `Blend`, `Deglitch`, `Wsola`: de-clicking and concealment.
- `BitStream`, `KoeQuantiser`, `KoeCodec`: bit packer, quantisers, encoder.
- `Sha1`, `Base64`, `ByteXor`, `WebSocket`: the control server's handshake pieces and frames.
- `FecParity`, `AutoOptimize`, `Shuffle`: parity packets, the
  auto-tuner, the web player's shuffle.

## Numbers and inputs

Floating-point numbers are reals. Unsigned wrap-around, truncating division and
truncating conversion are written out where they can matter. Clocks, random draws,
received bytes, the square root, logarithm and power functions, the MDCT, the SHA-1
block transform and the cosine fade are parameters; where a proof needs something of
them (a square root is one, a fade lies in [0, 1], a power is positive) it says so.

## Where a promise holds only under a condition

- The receive loop's write, discard, write (apps/linux-rx/main.cpp:2144-2150) keeps the
  newest frames when the shortfall is at most the ring's capacity. linux-rx is always in
  that case: it decodes at most 8192 samples and its ring holds 262144 frames
  (`SpscRing.SpscRingBuffer.Receive`).
- `next_pow2` lacks a shift by 32: it is right for 1 to 2^32, and beyond exactly for
  numbers without 32 zero bits in a row; it answers 0 with 0 (`Bits.NextPow2IsLeastIff`,
  `Bits.NextPow2MissesExample`).
- The trailer holds the CRC's high byte first, although the CRC shifts low bits out first. A
  change within four consecutive bytes of body and trailer goes unnoticed in exactly one
  case: the last two body bytes exclusive-ored with 61 D8 and the first two trailer bytes
  with F4 EE (`Trailer.CorruptPacketMatchesIff`, `Trailer.CorruptPayloadMatchesIff`).
- For corrections of at most three frames, the rate converter's requests conserve the
  corrections exactly when no request runs into its floor of one frame, its reads exactly
  when they miss as many frames as the floor added; staying within one frame of them has a
  weaker exact condition
  (`Asrc.RequestsDiffuseCorrections`, `Asrc.ReadsDiffuseCorrectionsIff`,
  `Asrc.FloorExample`, `Asrc.ShortReadExample`).
- The interpolation reproduces straight lines except in the first and last interval of a
  block (`Asrc.AffineIsExactIff`).
- The worklet's ring never overflows exactly when no message has more than 19200 frames
  (`Worklet.NeverOverflowsIff`).
- linux-rx decodes the trailer of a PT 96 packet as one more frame exactly when the
  stream is mono and the buffer not full (`Ostp.TrailerIsAFrameIffMono`).
- The web decoder does not clamp the header's step index, as the C++ decoder does; with
  an index above 88 it reads past its table (`Adpcm.DecodeWeb`).
- Over in-order runs received plus dropped equals the span exactly when no gap reaches
  100; the NACKs are the missing numbers exactly when besides those differ modulo 2^16,
  because the set of numbers already asked for is never cleared
  (`SequenceTracking.AccountingIsExactIff`, `SequenceTracking.NacksCoverMissingIff`).
- Retransmissions make the counters wrong: a late packet is received, but its loss is not
  taken back, and the next packet counts the way back again
  (`SequenceTracking.LatePacketAccounts`, `SequenceTracking.RetransmissionCountsTwice`).
- The packet cache never finds an empty packet: length zero marks a free slot
  (`LossRecovery.TxPacketCache.FindInWindow`).
- Concealment reads inside the previous packet exactly when that has at least 48
  frames (`Wsola.TemplateInsideIff`).
- A codebook search returns a nearest entry exactly when some entry is closer than the
  initial 1e30 or entry 0 is nearest (`KoeQuantiser.ChosenIsNearestIff`,
  `KoeQuantiser.StageIsGreedyIff`).
- The KoeCodec frame count is written modulo 2^16 (`KoeCodec.PacketRoundTrip`).
- The SHA-1 length field is the length exactly below 2^64 bits (`Sha1.LengthFieldIsLengthIff`).
- The frame parser adds header and payload length in 64 bits; it accepts a frame whose
  end it has not received exactly when that sum wraps (`WebSocket.PastEndIffWraps`,
  `WebSocket.LongestLengthIsPastEnd`).
- Previous undoes next, and next undoes previous, at every song exactly when the player does
  not shuffle or its shuffled order begins with an order of the songs there are. The order is
  built when shuffling is switched on (web/app.js:3235-3239), not when songs are added
  (2983, 3000) or removed (2861): add a song to one shuffled song, and next reads past the
  order (`Shuffle.BackUndoesNextIff`, `Shuffle.SongAddedAfterShuffle`).
- Next plays the whole list under the same condition when the player shuffles. When it does
  not, it plays the whole list exactly when it has not lost its place, or the list is empty:
  switch shuffling off after next has read past the order, and next finds no song any more
  (`Shuffle.NextPlaysAllIff`, `Shuffle.LostAfterShuffle`).
- The Python client frames payloads exactly below 65536 bytes, and understands every
  reply of n bytes exactly when n is below 126 and not 1
  (`WebSocket.ClientFrameRoundTrip`, `WebSocket.ClientReadsReplyIff`).

## Model

| member | source | states |
|---|---|---|
| Bits.NextPow2IsLeast | apps/linux-rx/main.cpp:206-211 | the shift-and-or cascade yields the least power of two not below v, for 1 <= v <= 2^32 |
| Bits.NextPow2IsLeastIff | apps/linux-rx/main.cpp:206-211 | for every 64-bit v it does so if and only if v is positive, that power fits and v - 1 has no 32 zero bits in a row below its leading one |
| Bits.NextPow2MissesExample | apps/linux-rx/main.cpp:206-211 | 2^33 + 2 is one for which it does not |
| Bits.AndMaskIsMod | apps/linux-rx/main.cpp:160-162 | masking with capacity - 1 is reduction modulo the capacity |
| RingGeometry.SlotIsCell | apps/linux-rx/main.cpp:159-163 | the masked, wrapped counter and the channel loop address the same cell as the unbounded sample number |
| RingGeometry.DistinctCells | apps/linux-rx/main.cpp:159-163 | sample numbers less than one buffer apart never share a cell |
| RingGeometry.CounterDifference | apps/linux-rx/main.cpp:154-158 | the wrapped difference of the two counters is the true number of queued frames |
| SpscProtocol.EveryInterleavingIsFifo | apps/linux-rx/main.cpp:154-198 | under every interleaving of loads, stores and copies the frames read and discarded tile a prefix of the frames written, in order, and the counters lie at most a capacity apart |
| SpscProtocol.NoSlotIsSharedWhileInUse | apps/linux-rx/main.cpp:154-183 | in every reachable state no buffer element in the producer's stretch is in the consumer's |
| SpscProtocol.EveryStepIsAQueueStep | apps/linux-rx/main.cpp:154-198 | refinement: the last step of a write appends the first min(frames, avail) frames of its data to a bounded queue, the last step of a read or discard takes its frames from the front, every other step leaves the queue alone |
| SpscProtocol.Reservation | apps/linux-rx/main.cpp:154-158 | avail is exactly the free frames when write loads read_pos |
| SpscProtocol.ConsumerReservation | apps/linux-rx/main.cpp:170-190 | read and discard take the minimum of the frames asked for and the frames queued when they load write_pos |
| SpscProtocol.AvailableAnswer | apps/linux-rx/main.cpp:194-198 | available_read, its two loads apart, answers with exactly the frames queued when it loaded write_pos |
| SpscProtocol.AvailableNeverOverstates | apps/linux-rx/main.cpp:194-198 | under every interleaving at least as many frames are queued as it answered, until the consumer's next call |
| SpscProtocol.NextInv | apps/linux-rx/main.cpp:154-198 | every step of either thread keeps the invariant |
| SpscProtocol.RunInv | apps/linux-rx/main.cpp:154-198 | the invariant holds after every run of steps |
| SpscHistory.EveryRequestIsAnswered | apps/linux-rx/main.cpp:169-192 | under every interleaving the k-th read or discard accepted yields the k-th consumer event, delivered if and only if it was a read, dropped if and only if it was a discard, of the minimum of its frames and the frames queued when it loaded write_pos |
| SpscHistory.EveryStoreIsKept | apps/linux-rx/main.cpp:154-166 | what was written is the finished writes in their order, each the first min(frames, free when it loaded read_pos) frames of its own data |
| SpscHistory.AvailableIsQueued | apps/linux-rx/main.cpp:194-198 | a query without steps of the other thread between its loads answers with the frames queued |
| SpscRing.SpscRingBuffer.constructor | apps/linux-rx/main.cpp:146-151 | an empty ring whose capacity is next_pow2 of the request |
| SpscRing.SpscRingBuffer.Write | apps/linux-rx/main.cpp:154-166 | appends exactly the frames that fit and returns their number |
| SpscRing.SpscRingBuffer.Read | apps/linux-rx/main.cpp:169-183 | hands out and removes exactly the oldest frames, leaves the rest of the output alone |
| SpscRing.SpscRingBuffer.Discard | apps/linux-rx/main.cpp:186-192 | drops exactly the oldest frames |
| SpscRing.SpscRingBuffer.AvailableRead | apps/linux-rx/main.cpp:194-198 | the number of queued frames, across counter wrap-around |
| SpscRing.SpscRingBuffer.Reset | apps/linux-rx/main.cpp:200-203 | empties the ring |
| SpscRing.SpscRingBuffer.Receive | apps/linux-rx/main.cpp:2144-2150 | write, discard, write: the newest capacity frames stay if the shortfall is at most a capacity, and the capacity frames after the first write otherwise |
| SpscRing.OverflowContents | apps/linux-rx/main.cpp:2144-2150 | both cases of the overflow path on sequences |
| Gf2.Division | apps/radio/radio.cpp:156-164 | the bit-serial register leaves quotient and remainder of the division by the generator |
| Gf2.DivisionUnique | apps/radio/radio.cpp:156-164 | quotient and remainder are unique |
| Gf2.MultipleSpread | apps/radio/radio.cpp:156-164 | a non-zero multiple of the generator spans at least 33 bits |
| Crc32.BitwiseCrc32 | apps/radio/radio.cpp:156-164 | the in-place bit loop computes the CRC function |
| Crc32.BuildTable | apps/win-tx/main.cpp:101-110 | every table entry is eight register shifts of its index |
| Crc32.TableCrc32 | apps/win-tx/main.cpp:112-119 | the table-driven loop equals the bitwise CRC on every byte sequence |
| Crc32.TableStep | web/soluna.js:82-88 | one table look-up equals eight bitwise steps |
| CrcDivision.PolyIsGenerator | apps/radio/radio.cpp:156-164 | 0xEDB88320 is the reflected IEEE 802.3 generator |
| CrcDivision.RegisterDivides | apps/radio/radio.cpp:156-164 | the register after a message is the division register after its bits |
| CrcDivision.CrcIsIeeeCrc | apps/radio/radio.cpp:156-164 | a word is the CRC if and only if its complement is the remainder that section 3.2.9 of IEEE 802.3 defines |
| CrcDivision.CrcDifferenceIff | apps/radio/radio.cpp:156-164 | the CRCs of equally long messages differ by exactly d if and only if the messages' difference, followed by d, is a multiple of the generator |
| CrcDivision.SameCrcIffDivisible | apps/radio/radio.cpp:156-164 | equally long messages share a CRC if and only if the generator divides their difference |
| CrcDivision.DetectsBitBursts | apps/radio/radio.cpp:156-164 | every corruption within 32 consecutive bits changes the CRC |
| CrcDivision.DetectsFourByteCorruption | apps/radio/radio.cpp:156-164 | every corruption within four consecutive bytes changes the CRC |
| BigEndian.Be32RoundTrip | apps/radio/radio.cpp:192-200 | four bytes in network order give a 32-bit number back |
| Ostp.BuildOstpPacket | apps/radio/radio.cpp:170-228 | fills the buffer with exactly header, payload and CRC, touches nothing behind it, returns 0 if it is too small |
| Ostp.FieldsRoundTrip | apps/radio/radio.cpp:180-227 | every field is read back from the place RFC 3550 and the extension give it |
| Ostp.ReceiversRecognise | apps/linux-rx/main.cpp:2005-2028 | linux-rx recognises every built packet with a payload, with its own sequence number, payload type and media time, and so does the Windows receiver unless the type is 126 or 127, which it ignores |
| Ostp.LinuxDispatch | apps/linux-rx/main.cpp:1980-2012 | pongs are the 25 byte datagrams that start with 7D, texts those that start with a capital letter; RTP version 2 is neither, and no receiver takes a packet without payload |
| Ostp.DecodeListen | web/listen.js:196-230 | the browser's decoder yields exactly the words between header and trailer of PT 96 packets and drops the rest |
| Ostp.SamplesRoundTrip | web/listen.js:220-230 | little-endian samples are read back |
| Ostp.ListenRecoversSamples | web/listen.js:196-230 | the trailer-stripping parser recovers exactly the samples of every PT 96 packet and refuses every other payload type |
| Ostp.TrailerIsAFrameIffMono | apps/linux-rx/main.cpp:2121-2128 | the C++ receiver takes the trailer for one more frame if and only if the stream is mono and its buffer has room |
| Ostp.PcmFramesAre | apps/linux-rx/main.cpp:2121-2128 | the frames decoded are those the payload holds, four bytes a sample, up to those the buffer holds |
| Ostp.PlainRtpRecognised | apps/linux-rx/main.cpp:2005-2028 | a packet with a bare RTP header is recognised with its own number and type; on Windows a payload that starts with OSTP is read as the legacy header |
| Ostp.ListenFindsPayload | web/listen.js:196-215 | the browser finds the payload behind an extension of any length or none, and refuses another version or type |
| CrcHoles.HoleOf16 | apps/radio/radio.cpp:156-164 | among all quotients of 16 bits one has a product with 16 zeros between message and CRC |
| CrcHoles.NoHoleOf24 | apps/radio/radio.cpp:156-164 | among all quotients of 24 bits none has a product with 24 zeros there |
| Trailer.CorruptPacketMatchesIff | web/soluna.js:252-254 | four consecutive bytes of body and trailer changed, anywhere: the trailer still matches if and only if the change is 61 D8 before and F4 EE behind the border |
| Trailer.CorruptPayloadMatchesIff | apps/radio/radio.cpp:221-226 | the same for payload and trailer of a radio's packet |
| Ostp.SequenceCounter.Advance | apps/radio/radio.cpp:501-502 | seq and seq_ext together are one 32-bit counter |
| Adpcm.Encoder.EncodeOne | apps/radio/radio.cpp:133-152 | chooses the nibble and moves the state as the decoder's recurrence will; what that does to value and index is EncoderAdapts, QuantisationError and OverloadProgress |
| Adpcm.Encoder.Packetise | apps/radio/radio.cpp:512-522 | the buffer holds the state header and the packed nibbles, the state is that after all samples |
| Adpcm.PacketLayout | apps/radio/radio.cpp:512-522 | two's-complement value low byte first, index, zero, then every sample's nibble at its half byte, even samples in the low half |
| Adpcm.EncoderAdapts | apps/radio/radio.cpp:129-150 | with d the distance of sample and prediction and S the step, the index falls by 1 for d < S, and rises by 2, 4, 6 or 8 as d - S lies below S/4, S/2, S/2 + S/4 or above, within 0 to 88 |
| Adpcm.DecodeMono | apps/linux-rx/main.cpp:109-139 | output k is the decoder state after k + 1 nibbles, shifted left by 8, up to the output's size |
| Adpcm.DecodeOne | apps/linux-rx/main.cpp:123-137 | one nibble moves the decoder as the recurrence says, which NibbleMoves and IndexTable give in terms of step and magnitude |
| Adpcm.IndexTable | apps/linux-rx/main.cpp:118 | the sixteen index changes |
| Adpcm.NibbleMoves | apps/linux-rx/main.cpp:123-137 | a nibble of magnitude m moves the value to the middle of its interval, (2m + 1)/8 of a step but for rounding, up or down as its sign bit says, and stops at the 16-bit limits |
| Adpcm.StepsGrowByATenth | apps/linux-rx/main.cpp:109-117 | the steps run from 7 to 32767, each a tenth above the one before but for rounding |
| Adpcm.DecodeWeb | web/app.js:1630-1662 | the browser's decoder follows the same recurrence unless the header index is above 88 |
| Adpcm.PacketInLockstep | apps/linux-rx/main.cpp:109-139 | decoding a packet, whatever trailer follows, reproduces the encoder's state after every sample |
| Adpcm.StateAfterStream | apps/radio/radio.cpp:512-522 | packetising chunk by chunk leaves the encoder where encoding them as one stream does |
| Adpcm.AnySinglePacketDecodesAlone | apps/radio/radio.cpp:512-522 | any packet of a stream, the others lost, decodes to the encoder's states of that stretch |
| Adpcm.QuantisationError | apps/radio/radio.cpp:133-152 | out of overload the error is at most step/8 + 2 |
| Adpcm.OverloadProgress | apps/radio/radio.cpp:133-152 | in overload the error shrinks by at least 11 without changing sign and the index rises by 8 up to 88 |
| Adpcm.LeavesOverload | apps/radio/radio.cpp:133-152 | a constant input is out of overload within 11 samples, from every state |
| Adpcm.ConstantInputConverges | apps/radio/radio.cpp:133-152 | a constant input is tracked from the twelfth sample on and within 2 from the 101st on |
| Adpcm.MinimumStepError | apps/radio/radio.cpp:133-152 | at the smallest step a tracked input stays within 2 |
| ClockSync.ClockSync.HandleSyncPong | apps/linux-rx/main.cpp:389-432 | a pong moves offset and count as the specification says, every other datagram leaves them |
| ClockSync.PingPong | apps/relay/main.cpp:5266-5293 | a ping answered by the relay is read back by the receiver as exactly the four timestamps; one that comes back unanswered is ignored |
| ClockSync.LeRoundTrip | apps/linux-rx/main.cpp:372-386 | a little-endian number is read back, at any place and width |
| ClockSync.AcceptedIffQuick | apps/linux-rx/main.cpp:403-411 | a pong counts if and only if its round trip is at most half a second and the relay's timestamps are not zero |
| ClockSync.PongMovesOffset | apps/linux-rx/main.cpp:413-426 | the first accepted pong sets the offset, the second to tenth move it by three tenths of its error, every later one by one tenth, to within a nanosecond |
| ClockSync.PingsAreCounted | apps/linux-rx/main.cpp:389-432 | over any run the counter is the number of accepted pongs modulo 2^32 |
| ClockSync.OutlierIsDamped | apps/linux-rx/main.cpp:413-426 | after ten accepted pongs one measurement, however far off, moves the offset by a tenth of its distance to within a nanosecond |
| ClockSync.MeasurementWithinHalfRtt | apps/linux-rx/main.cpp:406-411 | each measurement is within half its round trip of the true offset, rounded up, across 64-bit wrap-around |
| ClockSync.SmoothStaysInHull | apps/linux-rx/main.cpp:413-426 | a truncated smoothing step stays between integers that bound both values |
| ClockSync.SmoothedOffsetBound | apps/linux-rx/main.cpp:389-432 | after any run with an accepted pong the smoothed offset is within 250 ms of the truth |
| ClockSync.ConvergesToDelayBound | apps/linux-rx/main.cpp:413-426 | an accepted pong of round trip at most 2h leaves nine tenths of the distance beyond h of the truth, plus at most a nanosecond |
| ClockSync.SettlesWithinDelayBound | apps/linux-rx/main.cpp:389-432 | from less than 2^k ns beyond h + 10 ns, 7k accepted pongs of round trips at most 2h bring the offset within h + 10 ns of the truth, where it stays while round trips are that short |
| ClockSync.SettlesAfter196 | apps/linux-rx/main.cpp:389-432 | after any start with an accepted pong, 196 such pongs do |
| Asrc.Accumulator.Callback | apps/daemon/main.cpp:4352-4393 | the callback's request and the new fraction |
| Asrc.FillAsks | apps/daemon/main.cpp:4357-4375 | the correction for the fill is zero within a twentieth of the target; beyond that band it is a hundredth of the excess over the band's edge, relative to the target and with the excess's sign |
| Asrc.RequestRoundsAway | apps/daemon/main.cpp:4375-4393 | whole frames are requested once the fraction reaches one, at most four either way, a part of a frame being rounded away from zero |
| Asrc.OverfullDrains | apps/daemon/main.cpp:4352-4393 | at ratio one a run of callbacks that find the ring above 105 % of the target requests more frames than the device asked for, the corrections' sum but for the fraction held and the cut |
| Asrc.UnderfullFills | apps/daemon/main.cpp:4352-4393 | and one that finds it below 95 % fewer, the sum but for the fraction held and the floor |
| Asrc.EveryCallback | apps/daemon/main.cpp:4352-4393 | the fraction stays in (-1, 1) and the request within 4 of the frame count |
| Asrc.StepBalances | apps/daemon/main.cpp:4352-4393 | what one callback requests is what it was asked, but for the fraction held, what the clamp cut and what the floor added |
| Asrc.StepConserves | apps/daemon/main.cpp:4375-4393 | one callback loses nothing if and only if neither the clamp nor the floor bites |
| Asrc.RunBalances | apps/daemon/main.cpp:4352-4393 | the same balance over every run of any corrections and callback lengths |
| Asrc.RequestsDiffuseCorrections | apps/daemon/main.cpp:4352-4393 | over any run of corrections up to 3 the extra frames requested are their sum but for the fraction held if and only if no request ran into its floor, and within one frame of it if and only if so or the floor added one frame that the fraction makes up for |
| Asrc.LongCallbacksStayAboveFloor | apps/daemon/main.cpp:4381-4386 | callbacks of at least five frames never run into the floor |
| Asrc.FloorExample | apps/daemon/main.cpp:4381-4386 | a one-frame callback that does |
| Asrc.ReadsNeverExceedRequests | apps/daemon/main.cpp:4352-4413 | frames read never exceed frames requested, and equal them if and only if no callback underran and each found in the ring what it asked for |
| Asrc.ReadsDiffuseCorrectionsIff | apps/daemon/main.cpp:4352-4413 | the frames really read are within one frame of the corrections if and only if the frames missed equal the frames the floor added, or differ by one that the fraction held makes up for |
| Asrc.ShortReadExample | apps/daemon/main.cpp:4352-4413 | a concrete callback in which they do not |
| Asrc.Resample | apps/daemon/main.cpp:4427-4466 | every channel becomes the clipped Catmull-Rom interpolation of its source frames, at positions inside the block |
| Asrc.CatmullRomWeights | apps/daemon/main.cpp:4457-4460 | the interpolation is the weighted sum of its four points with the Catmull-Rom weights |
| Asrc.ParabolasAreExact | apps/daemon/main.cpp:4457-4460 | it reproduces every parabola between its inner points |
| Asrc.PositionsAreEven | apps/daemon/main.cpp:4436-4443 | the outputs' positions divide the block evenly |
| Asrc.OutputInRange | apps/daemon/main.cpp:4461-4464 | a sample is the interpolated value, or the nearer limit of -1 and 1 |
| Asrc.EndsAreExact | apps/daemon/main.cpp:4427-4466 | the first and last output are the first and last input |
| Asrc.AffineIsExactIff | apps/daemon/main.cpp:4440-4460 | a straight line is reproduced exactly if and only if it is flat, the position is a sample, or the interval is not the first or last of the block (half way in a block of two) |
| Worklet.SolunaProcessor.Push | web/soluna-worklet.js:20-46 | a message is appended whole, or dropped above the high-water mark; if it does not fit, the rings keep the newest frames and the queue is lost |
| Worklet.SolunaProcessor.Reset | web/soluna-worklet.js:47-52 | empties the ring, keeps the target |
| Worklet.SolunaProcessor.SetTarget | web/soluna-worklet.js:53-56 | moves the target and nothing else, after which every long enough stretch of fed blocks ends with the fill at the new target |
| Worklet.FillApproachesTarget | web/soluna-worklet.js:76-105 | fed as fast as it plays, the fill never moves away from the target or past it, and its level falls by exactly n * (rate - 1) a block |
| Worklet.LevelLaw | web/soluna-worklet.js:76-105 | a fed block of n outputs moves the level by n millionths of the fill error against it, and by exactly n/50 frames beyond an error of 20000 |
| Worklet.ErrorFallsBelow | web/soluna-worklet.js:76-105 | over any blocks that do not run dry the error is below e once the outputs times e reach a million times the way there |
| Worklet.ErrorHalves | web/soluna-worklet.js:76-105 | an error up to 40000 at least halves over two million outputs |
| Worklet.HalvingReachesTarget | web/soluna-worklet.js:76-105 | k stages of two million outputs, 1 <= k <= 15, take an error of at most 2^k away |
| Worklet.FillReachesTarget | web/soluna-worklet.js:76-105 | the fill is exactly the target once a million outputs a frame of error are played, over any blocks that do not run dry |
| Worklet.DeepRingIsFed | web/soluna-worklet.js:76-105 | no block runs dry while fill and target are two percent and a frame above the block length |
| Worklet.SolunaProcessor.Skip | web/soluna-worklet.js:58-62 | drops exactly the oldest frames |
| Worklet.SolunaProcessor.Process | web/soluna-worklet.js:66-105 | each output is the frame under the fractional cursor, which advances by the rate; silence before the prefill. RateLaw and LevelLaw give the rate's effect without naming it |
| Worklet.RateBounds | web/soluna-worklet.js:77-84 | the rate stays within two percent, above one exactly when too much is buffered |
| Worklet.RateLaw | web/soluna-worklet.js:77-84 | the rate is one plus a millionth for each frame above the target, at most 20000 of them either way |
| Worklet.StepsOfAtMostTwo | web/soluna-worklet.js:86-103 | input indices never go back and step by at most two |
| Worklet.BlockConsumption | web/soluna-worklet.js:86-103 | n outputs consume floor(frac + n * rate) frames, or all there are |
| Worklet.NeverOverflowsIff | web/soluna-worklet.js:20-62 | from reset on, whatever is consumed in between, the ring never overflows if and only if no message has more than 19200 frames |
| LossRecovery.TxPacketCache.Store | apps/win-tx/main.cpp:382-390 | the cache stands for everything stored, of which its slots hold the newest |
| LossRecovery.TxPacketCache.Find | apps/win-tx/main.cpp:393-404 | succeeds exactly when a windowed, non-empty packet has the number, with that packet's bytes |
| LossRecovery.TxPacketCache.FindInWindow | apps/daemon/main.cpp:3173-3198 | with distinct numbers in the window, find is exactly the last N packets |
| LossRecovery.NackRoundTrip | apps/win-rx/main.cpp:355-372 | a NACK datagram is read back as the number it was sent for |
| LossRecovery.AnswerNack | apps/win-tx/main.cpp:453-474 | one reply per request the cache can serve, in order, none for the others |
| LossRecovery.NackAnsweredIffRecent | apps/win-tx/main.cpp:377-474 | end to end, a NACK brings back the newest packet of its number if and only if that is among the last 64 sent |
| SequenceTracking.Receiver.Receive | apps/win-rx/main.cpp:1198-1222 | duplicates are skipped, small gaps counted and asked for, the rest received |
| SequenceTracking.AccountingIsExactIff | apps/win-rx/main.cpp:1198-1222 | over any in-order run received plus dropped never exceeds the unwrapped span and equals it if and only if every gap is below 100 |
| SequenceTracking.CountersAre | apps/win-rx/main.cpp:1198-1222 | over any in-order run received counts the arrivals, dropped the numbers asked for |
| SequenceTracking.SilentWithoutRelay | apps/win-rx/main.cpp:353-372 | without relay mode no run sends or remembers a NACK |
| SequenceTracking.NacksAreAskedFor | apps/win-rx/main.cpp:353-372 | over any in-order run the NACKs are the missing numbers of all gaps below 100, the first of every residue |
| SequenceTracking.AskedForIsMissingIff | apps/win-rx/main.cpp:1198-1214 | those are all missing numbers if and only if no gap reaches 100 |
| SequenceTracking.NacksCoverMissingIff | apps/win-rx/main.cpp:353-372 | every missing number is asked for, once and in order, if and only if no gap reaches 100 and their residues differ |
| SequenceTracking.NacksAreExactOverShortSpansIff | apps/win-rx/main.cpp:1198-1222 | over a span below 65536 the NACKs are exactly the missing numbers if and only if no gap reaches 100 |
| SequenceTracking.LatePacketAccounts | apps/win-rx/main.cpp:1198-1222 | a late packet and the next one leave received plus dropped right if and only if the gap back up reaches 100 and one packet is missing; below 100 the way back is counted again |
| SequenceTracking.RetransmissionCountsTwice | apps/win-rx/main.cpp:1198-1222 | a lost packet received again between its successors counts two dropped packets and asks for one that was received |
| Deglitch.DeglitchBuffer | apps/daemon/main.cpp:814-859 | in place, every channel becomes its repaired form and no channel disturbs another; the result counts the repaired samples |
| Deglitch.StaysInRange | apps/daemon/main.cpp:814-859 | a repaired channel never leaves the range of its input |
| Deglitch.EndsUnchanged | apps/daemon/main.cpp:829-856 | frames before the scan and the last frame stay |
| Deglitch.QuietIsUntouched | apps/daemon/main.cpp:829-834 | a channel without a jump above the threshold stays |
| Deglitch.BridgeIsStraight | apps/daemon/main.cpp:843-853 | a repaired stretch climbs in equal steps from its left to its right neighbour |
| Deglitch.ClickIsRemoved | apps/daemon/main.cpp:814-859 | a single sample that leaves an otherwise flat channel by more than the threshold is put back |
| Deglitch.ClickInBuffer | apps/daemon/main.cpp:814-859 | the same in the interleaved buffer, counted as two repairs, from the second frame on |
| Deglitch.RepairsAddUp | apps/daemon/main.cpp:814-859 | the repairs of the channels add up |
| Deglitch.GlitchEndIs | apps/daemon/main.cpp:835-842 | a glitch ends before the first small step after it, after five samples, or with the buffer |
| Deglitch.QuietIsSkipped | apps/daemon/main.cpp:829-834 | the scan moves on to the first step above the threshold |
| Deglitch.ThresholdOfEvenSignal | apps/daemon/main.cpp:818-827 | the threshold is the larger of the floor and sigma times the root mean square, which for a signal of equal magnitudes is that magnitude |
| Blend.MixBetween | apps/daemon/main.cpp:849-850 | a weighted mean stays between its two values |
| Blend.MixIsLinear | apps/daemon/main.cpp:849-850 | it is the first value at weight 0, the second at weight 1, and linear between |
| Wsola.FindPeriod | apps/daemon/main.cpp:3099-3128 | the period is the first lag of greatest normalised autocorrelation, or 48 for short packets |
| Wsola.PeriodIsUnique | apps/daemon/main.cpp:3099-3128 | that determines the period |
| Wsola.PeriodIsBest | apps/daemon/main.cpp:3099-3128 | no lag from 48 to 960, or half the packet, correlates better than the period; a packet below 98 frames has period 48 |
| Wsola.CorrWindow | apps/daemon/main.cpp:3105-3122 | the correlation of a lag is the product sum of window and shifted window over the root of their energies, zero for next to no energy |
| Wsola.RepetitionIsFound | apps/daemon/main.cpp:3099-3128 | if the analysis window repeats at some lag, the period chosen has similarity one |
| Wsola.CorrInUnit | apps/daemon/main.cpp:3105-3127 | every similarity lies in [-1, 1], so that starting from -1 misses none |
| Wsola.CauchySchwarz | apps/daemon/main.cpp:3111-3122 | the Cauchy-Schwarz inequality for any two stretches of a packet |
| Wsola.WsolaPlc | apps/daemon/main.cpp:3091-3156 | every output sample of every channel is the faded repetition of the last period, or zero without a previous packet; a previous packet of 1 to 47 frames is read outside |
| Wsola.ConcealmentStaysInRange | apps/daemon/main.cpp:3137-3155 | concealment never leaves the range of the packet it repeats |
| Wsola.RepeatsLastPeriod | apps/daemon/main.cpp:3137-3155 | the first cycle, and every later one outside its fade, is the end of the previous packet |
| Wsola.FadeJoinsCycles | apps/daemon/main.cpp:3143-3152 | at the start of a later cycle the output fades from the tail of the template to its start |
| Wsola.PeriodicFromThirdCycle | apps/daemon/main.cpp:3137-3155 | from the third cycle on the output repeats with its period |
| Wsola.TemplateInsideIff | apps/daemon/main.cpp:3096-3135 | the template lies in the previous packet if and only if that has 48 frames |
| BitStream.BitWriter.PutBit | apps/relay/koecodec_enc.h:123-132 | appends one bit, or reports that the buffer is full, and touches no later byte |
| BitStream.BitWriter.Put | apps/relay/koecodec_enc.h:123-132 | appends the low bits of a value, most significant first, as far as they fit |
| BitStream.ReadPacked | apps/relay/koecodec_enc.h:123-139 | a reader of the same widths gets every packed field back |
| KoeQuantiser.FindNearest | apps/relay/koecodec_enc.h:192-202 | the search loop computes the scan |
| KoeQuantiser.ChosenIsNearestIff | apps/relay/koecodec_enc.h:192-203 | the chosen codeword is a nearest one if and only if one is closer than 1e30 or entry 0 is nearest, and then the first |
| KoeQuantiser.ResidualStep | apps/relay/koecodec_enc.h:204-208 | each stage's residual is the previous one minus the codeword chosen for it |
| KoeQuantiser.StageIsGreedyIff | apps/relay/koecodec_enc.h:189-210 | a stage leaves the shortest residual its codebook allows if and only if some codeword is closer than 1e30 or codeword 0 is nearest |
| KoeQuantiser.StageNeverHurts | apps/relay/koecodec_enc.h:189-210 | with a zero codeword such a stage never lengthens the residual |
| KoeQuantiser.ParallelogramLaw | apps/relay/koecodec_enc.h:194-199 | the distance satisfies the parallelogram law |
| KoeQuantiser.UnitsAddUp | apps/relay/koecodec_enc.h:194-199 | and gives n units the length n, so that it is the squared Euclidean distance |
| KoeQuantiser.GainWithinHalfStep | apps/relay/koecodec_enc.h:164-173 | a gain is coded to within half a step, or clamped |
| KoeQuantiser.GainCodesAreFixed | apps/relay/koecodec_enc.h:164-173 | every code is the code of the gain it stands for |
| KoeCodec.KoeEncoder.EncodeFrame | apps/relay/koecodec_enc.h:147-210 | the nested loops compute the codes of a frame |
| KoeCodec.KoeEncoder.Encode | apps/relay/koecodec_enc.h:118-223 | the packet is the message as far as the buffer holds it, bytes behind it stay, the last hop is kept for the next call |
| KoeCodec.CodesSplit | apps/relay/koecodec_enc.h:141-145 | a stream coded in two calls has the codes of the stream coded at once |
| KoeCodec.FramesOverlap | apps/relay/koecodec_enc.h:141-145 | every frame is the previous hop followed by its own, the first one the hop kept from the previous call |
| KoeCodec.SubsTile | apps/relay/koecodec_enc.h:153-155 | the four sub-vectors tile the coefficients |
| KoeCodec.GainIsRms | apps/relay/koecodec_enc.h:156-173 | the gain coded is the root mean square of the sub-vector |
| KoeCodec.CodesInPlace | apps/relay/koecodec_enc.h:147-210 | gain and index of every stage and sub-vector are those of that sub-vector |
| KoeCodec.DecodedMissesByResidual | apps/relay/koecodec_enc.h:175-210 | gain times the summed codewords misses the input by gain times the last residual |
| KoeCodec.PacketRoundTrip | apps/relay/koecodec_enc.h:121-139 | n frames take 32 + 120 n bits, and a most-significant-first reader recovers every header field, gain code and index |
| KoeCodec.FieldOrder | apps/relay/koecodec_enc.h:212-216 | a frame is four gains of six bits, then stage by stage four indices of eight |
| Sha1.Compute | apps/linux-rx/main.cpp:1129-1145 | the transform is applied to exactly the blocks of the padded message, and the digest written out |
| Sha1.PaddedLayout | apps/linux-rx/main.cpp:1133-1139 | message, 0x80, zeros, and the length in bits in the last eight bytes of a whole block |
| Sha1.InitialDigest | apps/linux-rx/main.cpp:1130 | the initial state, as bytes |
| Sha1.ChainConcat | apps/linux-rx/main.cpp:1132-1140 | the blocks go through the transform one after the other |
| Sha1.DigestWords | apps/linux-rx/main.cpp:1141-1145 | the digest's words are the state's, high byte first |
| Sha1.GapIsLeast | apps/linux-rx/main.cpp:1133-1137 | the zero bytes are the fewest that leave eight bytes of a block |
| Sha1.PaddedBlocks | apps/linux-rx/main.cpp:1133-1140 | whole blocks, one more exactly when the length spills over |
| Sha1.LengthFieldIsLengthIff | apps/linux-rx/main.cpp:1138-1139 | the length field is the length in bits exactly below 2^64 |
| Sha1.PaddingIsInjective | apps/linux-rx/main.cpp:1133-1139 | different messages have different padded forms |
| Base64.Encode | apps/linux-rx/main.cpp:1148-1160 | the loop computes the encoding, group by group |
| Base64.Alphabet | apps/linux-rx/main.cpp:1148-1149 | the 64 symbols of RFC 4648 |
| Base64.GroupOfThree | apps/linux-rx/main.cpp:1150-1156 | three bytes give four symbols of six bits each, high bits first |
| Base64.GroupOfTwo | apps/linux-rx/main.cpp:1150-1158 | two give three and a padding character |
| Base64.GroupOfOne | apps/linux-rx/main.cpp:1150-1158 | one gives two and two of them |
| Base64.EncodedLength | apps/linux-rx/main.cpp:1148-1160 | four characters for every three bytes begun |
| Base64.DecodeEncoded | apps/linux-rx/main.cpp:1148-1160 | a decoder gives every message back |
| ByteXor.XorTwice | apps/linux-rx/main.cpp:1317-1319 | masking a byte twice restores it |
| WebSocket.SendFrame | apps/linux-rx/main.cpp:1423-1443 | the header has the shortest length form, the data follows |
| WebSocket.FrameStarts | apps/linux-rx/main.cpp:1423-1443 | first byte, length code and header length of each of the three forms |
| WebSocket.HandleFrame | apps/linux-rx/main.cpp:1287-1331 | after unmasking in place the server waits, closes, answers, ignores or passes on text as the parsed frame demands, or leaves its buffer |
| WebSocket.ServerReacts | apps/linux-rx/main.cpp:1321-1331 | the server closes on opcode 8 only, answers 9 only, with a pong frame of the same payload, takes 1 only as text, and ignores the rest |
| WebSocket.ServerFrameRoundTrip | apps/linux-rx/main.cpp:1423-1443 | the parser inverts the sender in all three length forms |
| WebSocket.LongerFormsAreRead | apps/linux-rx/main.cpp:1296-1306 | the parser also reads lengths in a longer form than needed |
| WebSocket.ClientFrameRoundTrip | deploy/rpi/soluna-web.py:69-75 | the parser inverts the client's masked frames for every mask and payload below 65536 bytes, the only ones it frames |
| WebSocket.PastEndIffWraps | apps/linux-rx/main.cpp:1290-1319 | a frame is accepted beyond the received bytes if and only if header plus length leaves 64 bits |
| WebSocket.LongestLengthIsPastEnd | apps/linux-rx/main.cpp:1290-1319 | the masked frame of length 2^64 - 1 is one |
| WebSocket.ClientReadsReplyIff | deploy/rpi/soluna-web.py:76-83 | the client recovers every reply of n bytes if and only if n is below 126 and not 1 |
| WebSocket.ReadsFirstReply | deploy/rpi/soluna-web.py:76-83 | when more bytes arrive with a short reply the client takes the reply only, then also one of one byte |
| FecParity.BuildParity | web/soluna.js:263-268 | the parity is the exclusive or of the group, as long as its longest packet |
| FecParity.ParityOfOne | web/soluna.js:263-268 | the parity of one packet is that packet |
| FecParity.EqualPacketsCancel | web/soluna.js:263-268 | two equal packets cancel |
| FecParity.AnyOnePacketIsRebuilt | web/soluna.js:263-268 | any one packet is rebuilt from the others and the parity |
| FecParity.FecSender.OnPacket | web/soluna.js:193-209 | every fifth packet is followed by the parity of its group |
| FecParity.EveryLossIsRepaired | web/soluna.js:193-209 | over every run each packet of a finished group can be lost alone |
| AutoOptimize.Optimizer.ProcessMetrics | tools/auto_optimize.py:111-168 | one metric moves the tuner as specified and leaves a daemon that obeyed every command in the same state |
| AutoOptimize.Optimizer.ApplyFixes | tools/auto_optimize.py:170-253 | the fixes in order; an adjustment is counted exactly when a parameter changed |
| AutoOptimize.Optimizer.TryRelax | tools/auto_optimize.py:255-281 | one relaxation; the stability count restarts exactly when a parameter changed |
| AutoOptimize.AnyFixShows | tools/auto_optimize.py:170-253 | no fix takes back what another did |
| AutoOptimize.AdjustmentsAreCounted | tools/auto_optimize.py:161-281 | over any run the counter of adjustments is the number of metrics that changed some parameter |
| AutoOptimize.ScoreAddsUp | tools/auto_optimize.py:117-153 | the score is the sum of what loss, clicks, dropouts and underruns score alone |
| AutoOptimize.ScoreOfEach | tools/auto_optimize.py:117-153 | the points of each |
| AutoOptimize.TightenedIs | tools/auto_optimize.py:170-253 | all fixes together, parameter by parameter |
| AutoOptimize.RelaxedTimesIs | tools/auto_optimize.py:255-281 | what k relaxations make of the parameters |
| AutoOptimize.WarnedIff | tools/auto_optimize.py:239-250 | over any run the advice on persistent loss is given if and only if some stretch of the stream calls for it |
| AutoOptimize.StartRelaxesBufferOnly | tools/auto_optimize.py:161-281 | thirty clean metrics from the start |
| AutoOptimize.RunStaysInBounds | tools/auto_optimize.py:111-253 | over any metric stream every parameter stays in its range, the crossfade threshold never rises, the history is the newest twenty |
| AutoOptimize.ConvergesIn570 | tools/auto_optimize.py:161-281 | from every state in bounds 570 clean metrics bring buffer, sigma and crossfade to rest, where they stay |
| AutoOptimize.Needs570 | tools/auto_optimize.py:161-281 | from a reachable state 569 clean metrics are not enough |
| Shuffle.BuildShuffle | web/app.js:2694-2702 | the swaps in place deal the order its draws determine |
| Shuffle.DealtIsPermutation | web/app.js:2694-2702 | dealing permutes |
| Shuffle.DrawsAreUnique | web/app.js:2694-2702 | different draws deal different orders |
| Shuffle.EveryOrderIsDealt | web/app.js:2694-2702 | every order is dealt by some draws |
| Shuffle.ShuffleIsOrder | web/app.js:2694-2702 | a fresh shuffle holds every song once, and is in step with the list |
| Shuffle.BackUndoesNextIff | web/app.js:2704-2722 | previous undoes next at every song, and next undoes previous, if and only if the player does not shuffle or its order begins with an order of the songs there are |
| Shuffle.NextPlaysAllIff | web/app.js:2704-2729 | for every player: as many presses of next as there are songs play them all if and only if a shuffling player's order begins with an order of the songs there are, and one that does not shuffle has not lost its place or has no songs |
| Shuffle.NextStartsOver | web/app.js:2704-2729 | under that condition, with a song playing, the list then starts over |
| Shuffle.EmptyListStays | web/app.js:2704-2729 | without songs neither button changes anything |
| Shuffle.SongAddedAfterShuffle | web/app.js:2704-2729 | a song added after the shuffle makes next read past the order |
| Shuffle.LostAfterShuffle | web/app.js:2704-2730 | when shuffling is then switched off, next finds no song for good |

## Left out

- Sockets, device I/O, HTTP, DOM and GUI code: plumbing around the algorithms.
- Opus, FLAC, AAC, AirPlay, DLNA, DTLS, DriftDLL, PlayoutBuffer, the C++ FecEncoder and FecDecoder: not part of this model.
- Floating-point rounding everywhere, and integer overflow of counters that no session reaches (write_idx, 64-bit totals, the 32-bit product of frames and channels).
- Memory orders weaker than sequential consistency: each load, store and copy of the ring is a step, and steps interleave.
- SpscRing.SpscRingBuffer.Receive: the producer-side discard is modelled from one thread only, as it is not a consumer operation of the concurrent model.
- SpscRing.SpscRingBuffer.constructor: capacities of 0 and above 2^32, and zero channels, are excluded; what next_pow2 makes of large ones is Bits.NextPow2IsLeastIff.
- SpscProtocol.EveryInterleavingIsFifo: runs in which the producer itself discards are not among the interleavings, for the same reason.
- Asrc.Resample: the interpolation branch; the branches for 0, 1 or exactly the wanted frames only copy, and one wanted frame would divide by zero. The drift loop that produces the ratio is an input.
- ClockSync.SmoothedOffsetBound: for clocks and delays whose differences fit 64-bit arithmetic.
- Worklet.SolunaProcessor.Push: after a message that did not fit, the other methods are not modelled; when that can happen is Worklet.NeverOverflowsIff.
- Worklet.FillApproachesTarget: in blocks of at most a million outputs, as long as the ring does not run dry; Worklet.DeepRingIsFed says when it does not.
- Worklet.SolunaProcessor.Skip: a negative skip is not modelled.
- Adpcm.Encoder.Packetise: one packetiser; that of apps/relay/radio.cpp:526-545 differs only in interleaved input and seeded state.
- Ostp.BuildOstpPacket: the builders of apps/win and apps/win-tx, whose trailers are in host byte order, are not modelled.
- LossRecovery.NackAnsweredIffRecent: for the Windows pair; the daemon keys its cache by 32-bit numbers that receivers do not send.
- KoeCodec.KoeEncoder.Encode: the MDCT, its window and basis, sqrt, log2 and pow are parameters, and codebook contents are arbitrary.
- Sha1.Compute: the block transform is a parameter.
- WebSocket.HandleFrame: one frame per receive, as the code assumes; fragments and the handling of text messages are not modelled.
- FecParity.BuildParity: the header and trailer around the parity are not modelled.
- AutoOptimize.Optimizer.ProcessMetrics: log output is not modelled; the advice it prints on persistent loss is a flag.
- Shuffle.BuildShuffle: the random draws are inputs.
- Shuffle.NextPlaysAllIff: of the exception that playing an undefined song ends in, only what it leaves in idx is modelled.
- The playback level and ramp logic, the sync-target average, the daemon's gap handling and bitrate control, the browser's gap detection and jitter estimate: not modelled.
