# LiteEth, modelled and proved in Dafny

LiteEth is an Ethernet core written in Migen: clocked state machines joined by
valid/ready/last streams. Here each block is a class whose `Tick` (or `Clock`)
method is one clock edge. Its registers are the fields, its combinational
outputs are functions of the fields and of the inputs of the cycle, and ghost
histories record every token transferred on either side since power-up. The
environment stalls both sides at will in every cycle. A block's `Valid()` ties
its histories to a function on whole packets; the packet functions are then
composed and inverted by lemmas.

What is proved, hardest first:

- **MAC CRC.** The symbolic unrolling of the serial register (repeated pop,
  append, cancel, insert) evaluates, for every width, polynomial, data width,
  register and data word, to the serial register, and never leaves an empty
  list for `reduce`. The serial register is polynomial division exactly when
  the polynomial has a constant term. A frame passes the receiver's check if
  and only if it ends in the check sequence the transmitter would append; every
  error burst of up to 32 bits is caught.
- **MAC pipelines.** Padding, a buffer, CRC, preamble and gap, wired to preamble
  check, a buffer and CRC check: in every run the packets delivered are the
  packets accepted, padded, in order and without error (safety), and from every
  reachable state a bounded number of cycles without stalls delivers everything
  accepted (progress). A packet offered without stalls comes out as it went in.
- **1000BASE-X/SGMII PCS.** Both code-group machines stay in step through the
  rate adaptation at 1, 10 and 100 cycles per byte; each byte is sampled once,
  in order; the first byte survives exactly when it lasts longer than /S/ or is
  0x55, and an acknowledged byte is lost only while a configuration word begins.
  The link is up only after ability, acknowledge and a full acknowledge
  period, in that order; the watchdog fires within two periods of silence, and
  stays quiet as long as ordered sets keep coming. Across the clock domains
  link_up is traced back to matching configuration registers.
- **Etherbone.** A host on one node's bus and a memory on another node's bus
  behave like a memory on the host's own bus (safety), and a bounded number of
  cycles without stalls ends whatever is under way (progress).
- **Internet checksums.** The pipelined adder chain yields the checksum of
  RFC 1071 whatever its registers held before; transmitter and receiver agree
  with each other and with the repository's reference model; the echo
  responder's incremental update (RFC 1624 section 3) is right exactly for
  messages of type 8.
- **Buffering and framing.** SRAM slots, UDP trimming, stream packetisation and
  bit-banged MDIO.

Some properties hold only under a condition, and the condition is part of the
statement. Where the code does not meet the property, a method or lemma exhibits
the failing case: `CrcChecker.DeliverFrame` and `MacCore.StalledLastByte` (a
frame that meets the checker in its RESET cycle), `Padding.WrappedCounterPads`
(the 16-bit length counter), `Etherbone.ConsumedIff` and `Etherbone.MixedRecord`
(a record that writes and reads), `Sram.RefusedFrame` and `Sram.CloseRefused` (a
frame refused for lack of a status entry), `Sram.OneSlot` (a writer with a single
slot), `Sram.OneBeatFrame` (a frame of a single beat), `Sram.AnyFrame` and
`Sram.LongFrame` (frames the length limit misses), `Sram.LostWhileClosing` (a
beat offered while a frame is being closed), `Sram.ShortCommand` and
`Sram.EmptyCommand` (commands shorter than a word), `Lfsr.NoConstantTerm`.

The library facts behind the model are small definitions: in Migen the last
assignment wins; `chooser(..., reverse=True)` selects from the top; a `SyncFIFO`
is a first-word-fall-through queue; a `PacketFIFO` is a queue of whole packets;
a buffered endpoint is a one-token register (`Streams.Buffer`).

`dafny verify dfyconfig.toml` checks the whole project.

## Model

| member | source | states |
|---|---|---|
| Lfsr.StepsLinear | liteeth/mac/crc.py:68-77 | the serial register is linear over GF(2) in register and input together |
| Lfsr.StepsInverse | liteeth/mac/crc.py:68-77 | for a fixed input the serial register is a bijection on states, with an explicit inverse |
| Lfsr.ShortInputsInjective | liteeth/mac/crc.py:68-77 | two inputs no longer than the register that lead to the same state are equal |
| Lfsr.DividesIffConstantTerm | liteeth/mac/crc.py:68-77 | the register fed back into bit 0 is long division by the polynomial, for every state and word of a given positive length, if and only if bit 0 of the polynomial is set |
| Lfsr.NoConstantTerm | liteeth/mac/crc.py:68-77 | for a polynomial without bit 0, an input on which register and division differ |
| CrcEngine.OptimizeEq | liteeth/mac/crc.py:51-66 | the result holds each operand once if the list held it an odd number of times, and not at all otherwise |
| CrcEngine.CancellingKeepsValue | liteeth/mac/crc.py:51-66 | a list so reduced has the same exclusive or, for every register and data word |
| CrcEngine.Round | liteeth/mac/crc.py:71-77 | one round of pop, append, cancel and insert, as the loops of the source do it, turns lists that compute n serial steps into lists that compute n + 1 |
| CrcEngine.RoundUnrolls | liteeth/mac/crc.py:71-77 | any lists related as the round relates them compute one serial step more |
| CrcEngine.NoListEmpty | liteeth/mac/crc.py:79-87 | no list is ever empty: each next-state bit is 1 for some register value |
| CrcEngine.Engine.constructor | liteeth/mac/crc.py:68-77 | for every width, polynomial and data width the lists built are non-empty, in range, and evaluate to data_width steps of the serial register |
| CrcEngine.Engine.Next | liteeth/mac/crc.py:79-87 | the parallel next value is exactly data_width steps of the serial register on the data word, bit 0 first |
| CrcEngine.Engine.Reduce | liteeth/mac/crc.py:79-87 | the reduction is defined on every list the engine holds and gives the exclusive or of its operands |
| CrcWord.Residue | liteeth/mac/crc.py:112-115 | thirty-two ones through a cleared register leave 0xC704DD7B, the check constant |
| CrcWord.PolynomBits | liteeth/mac/crc.py:112-115 | the taps taken from the number 0x04C11DB7 are those of the 32-bit word |
| Crc32.ResidueTheorem | liteeth/mac/crc.py:112-132 | whatever the register holds, its own complemented, bit-reversed contents lead it to the check constant |
| Crc32.VerdictExact | liteeth/mac/crc.py:130-131 | of all 32-bit sequences exactly the one the transmitter sends passes the check |
| Crc32.FrameVerdict | liteeth/mac/crc.py:130-131 | a frame of at least four bytes passes the check if and only if it ends in the check sequence of what precedes |
| Crc32.FcsBytesBits | liteeth/mac/crc.py:184-192 | the four bytes sent carry the register from its highest bit down, complemented, in transmission order |
| Crc32.WindowDetected | liteeth/mac/crc.py:112-132 | bit streams that differ only inside a window of 32 bits leave different registers |
| Crc32.BurstDetected | liteeth/mac/crc.py:272-273 | every non-zero error pattern confined to 32 consecutive bits of a valid frame fails the check |
| Crc32.ByteChangesInit | liteeth/mac/crc.py:114-124 | no byte leaves a freshly reset register unchanged |
| Crc32.LostFirstByteDetected | liteeth/mac/crc.py:272-273 | a valid frame that loses its first byte fails the check |
| Crc32.KnownAnswer | liteeth/mac/crc.py:93-199 | the byte 0x61 is sent with the check sequence 0x43, 0xBE, 0xB7, 0xE8 |
| Crc32.Crc32Register.Look | liteeth/mac/crc.py:123-132 | the engine's output for the byte at the input, and the error output: high unless it is the check constant |
| Crc32.Crc32Register.Clock | liteeth/mac/crc.py:91-125 | the register's new value; reset wins over clock enable |
| Streams.Buffer.Tick | liteeth/mac/core.py:49-50 | the register a buffered endpoint inserts hands on every token once, in order |
| CrcInserter.AppendKeeps | liteeth/mac/crc.py:184-199 | each byte sent in the CRC state extends the packet by the next byte of its check sequence, and the fourth completes it |
| CrcInserter.CopyKeeps | liteeth/mac/crc.py:172-180 | a byte passed on enters the register; the last one leaves the register with the CRC of the packet |
| CrcInserter.Inserter.Tick | liteeth/mac/crc.py:164-199 | under arbitrary stalls, what is sent is what was received with the last flag moved behind four check bytes; state and counter transitions |
| CrcInserter.SentPackets | liteeth/mac/crc.py:136-206 | in every reachable state the packets sent are the first packets received, each with its check sequence |
| CrcChecker.HoldKeeps | liteeth/mac/crc.py:258-274 | a byte taken keeps FIFO, register and output in step: all but the last four bytes have been sent, the last four are held |
| CrcChecker.HoldFinishes | liteeth/mac/crc.py:267-274 | the last byte of a packet makes the packet sent equal to the packet less four bytes, with the verdict as its error flag |
| CrcChecker.Checker.Tick | liteeth/mac/crc.py:258-295 | under arbitrary stalls: transfers on both sides, the FIFO never above four, and what each state adds; a token taken in RESET is noted |
| CrcChecker.CutIsParse | liteeth/mac/crc.py:282-295 | the checker's packet boundaries are those of the stream if and only if no packet is a single byte |
| CrcChecker.SentPackets | liteeth/mac/crc.py:246-295 | in every run without a token in RESET the output is, packet by packet, the input less its last four bytes with last on the final one and error equal to the CRC verdict; packets of four bytes or fewer vanish |
| CrcChecker.DeliverFrame | liteeth/mac/crc.py:246-295 | every valid frame, under arbitrary stalls and from any state between packets, is delivered less its last four bytes and without error if and only if its first byte was not taken in RESET, which happens if and only if it is offered and can be taken in a first cycle that is a RESET cycle; otherwise that byte is lost, a check byte held from the frame before takes its place if four were held, and the frame is flagged or, at five bytes, vanishes |
| CrcChecker.BurstFlagged | liteeth/mac/crc.py:272-273 | a received frame that differs from a valid one of the same length only within 32 consecutive bits is delivered with its error flag set |
| CrcChecker.TakingLast | liteeth/mac/crc.py:267-280 | the last byte of a frame gives the packet delivered, in both cases |
| Padding.PaddingExact | liteeth/mac/padding.py:22-26 | the counted padding is padding to 60 bytes if and only if the length is below 60 or its index modulo 65536 reaches the limit |
| Padding.WrappedCounterPads | liteeth/mac/padding.py:24-26 | a packet of 65537 bytes is given 59 zeros |
| Padding.PadKeeps | liteeth/mac/padding.py:43-54 | each padding byte is the next byte of the padded packet, and the last one completes it |
| Padding.PaddingInserter.Tick | liteeth/mac/padding.py:28-54 | under arbitrary stalls: transfers, the masked last flag, state and 16-bit counter |
| Padding.SentPackets | liteeth/mac/padding.py:22-54 | in every reachable state the packets sent are the first packets received, padded |
| Preamble.ChunksAreBytes | liteeth/mac/preamble.py:46-46 | the chooser reads the preamble word as seven 0x55 and the delimiter |
| Preamble.Inserter.Tick | liteeth/mac/preamble.py:33-65 | under arbitrary stalls: eight preamble bytes, then the packet unchanged; state and counter transitions |
| Preamble.SentPackets | liteeth/mac/preamble.py:33-65 | the packets sent are the packets received, each with preamble and delimiter |
| Preamble.Checker.Tick | liteeth/mac/preamble.py:90-108 | under arbitrary stalls: everything up to the first delimiter is swallowed, the rest forwarded; the error pulse |
| Preamble.ForwardedPackets | liteeth/mac/preamble.py:90-108 | the packets forwarded are the packets received, stripped up to their first delimiter, and the error pulses count those without one |
| Preamble.StripPrefix | liteeth/mac/preamble.py:33-108 | the checker undoes the inserter for every packet that is not empty, whatever bytes it holds |
| Preamble.StripPrefixAll | liteeth/mac/preamble.py:33-108 | ... and for every list of packets, without an error pulse |
| Gap.GapInserter.Tick | liteeth/mac/gap.py:22-37 | under arbitrary stalls tokens are unchanged, and every one is noted with the cycle it was sent in; state and counter transitions |
| Gap.TwelveIdleCycles | liteeth/mac/gap.py:22-37 | in every run at least twelve cycles pass between a last token and the next one |
| Gap.NextPacket | liteeth/mac/gap.py:22-37 | and not more: whatever is offered meanwhile, a token offered to a ready sink in the thirteenth cycle after a last one is sent in it |
| MacCore.CheckInsert | liteeth/mac/crc.py:164-295 | a packet with its check sequence is passed by the checker as the packet itself |
| MacCore.ReceiveTransmit | liteeth/mac/core.py:24-115 | receiving undoes transmitting up to padding, for every list of packets |
| MacCore.DeliveredIsPadded | liteeth/mac/padding.py:22-26 | what comes back is the packet padded to 60 bytes if and only if the counter did not mislead |
| MacCore.Transmitter.Tick | liteeth/mac/core.py:27-55 | the transmit stages, in the order the pipeline is built, hand every token on in order under arbitrary stalls; control step of the whole pipeline |
| MacCore.Receiver.Tick | liteeth/mac/core.py:27-55 | the receive stages likewise; without back-pressure at the output no token meets the CRC checker in RESET |
| MacCore.Receiver.Clock | liteeth/mac/core.py:27-55 | the registers of all receive stages after a clock |
| MacCore.StalledLastByte | liteeth/mac/core.py:39-55 | two valid frames in a row, the output stalling on the last byte of the first while the preamble of the second passes: the first is delivered, the second is damaged and flagged |
| MacCore.Loopback.Tick | liteeth/mac/core.py:108-117 | both pipelines over a lossless link whose ends stall at will |
| MacCore.CheckedPackets | liteeth/mac/core.py:24-115 | the CRC checker turns the first framed packets into the first packets delivered |
| MacCore.RoundTrip | liteeth/mac/core.py:24-115 | in every run without a token in the checker's RESET state the packets delivered are the first packets accepted, padded and error-free, none missing when the pipelines are quiet, and no preamble error |
| MacCore.RoundTripWithoutBackpressure | liteeth/mac/core.py:24-115 | an output that is always ready suffices, for packets the counter does not mislead |
| MacCore.Loopback.Settle | liteeth/mac/core.py:24-115 | a cycle without input and without stalls brings the packets accepted strictly closer to delivery, from every reachable state |
| MacCore.Drain | liteeth/mac/core.py:24-115 | so a bounded number of such cycles delivers every packet accepted |
| MacCore.Loopback.Offer | liteeth/mac/core.py:24-115 | a token offered in cycles without stalls is accepted after a bounded number of them, from every reachable state |
| MacCore.SendPacket | liteeth/mac/core.py:24-115 | a packet of up to 65536 bytes offered so, to an output that never stalled, is delivered with the same bytes, zeros up to 60 bytes, and no error, behind everything accepted before it |
| PcsPath.TransmitPath.Tick | liteeth/phy/pcs_1000basex.py:45-154 | the transmit machine's registers, its timer and its acknowledge output; ordered sets and packets begin on even code groups |
| PcsPath.TransmitPath.AckMeaning | liteeth/phy/pcs_1000basex.py:74-95 | a byte offered is acknowledged if and only if it is taken into a packet or discarded because a configuration word begins, never both |
| PcsPath.IdleSet | liteeth/phy/pcs_1000basex.py:89-125 | an idle ordered set is K28.5 with D5.6 or D16.2 by the disparity before it, and leaves the running disparity negative either way |
| PcsPath.ConfigSet | liteeth/phy/pcs_1000basex.py:74-113 | a configuration ordered set is K28.5, D21.5 and D2.2 in turn, and the register's low and high byte |
| PcsPath.PacketLine | liteeth/phy/pcs_1000basex.py:82-154 | at one cycle per byte a packet is /S/ in place of the first byte, the other bytes, /T/, and one or two /R/ so that what follows begins on an even group |
| PcsPath.ReceivePath.Tick | liteeth/phy/pcs_1000basex.py:170-269 | the receive machine's registers, with the endpoint register behind it |
| PcsPath.ReachedEnd | liteeth/phy/pcs_1000basex.py:300-306 | the last flag, raised when the receive enable falls, sits on the final byte |
| PcsPath.ClockworkByte | liteeth/phy/pcs_1000basex.py:54-69 | the timer counts out exactly the code groups of each byte |
| PcsPath.Link.Tick | liteeth/phy/pcs_1000basex.py:31-306 | both paths over an ideal symbol channel: timers equal, states in step, every acknowledged byte noted, bytes sampled as they are taken, configuration words and ordered sets recognised |
| PcsPath.ReadsExact | liteeth/phy/pcs_1000basex.py:83-89 | a packet is read back if and only if the speed code is 0 or 1, or its first byte is 0x55 |
| PcsPath.ByteTimes | liteeth/phy/pcs_1000basex.py:54-69 | in every run with the timers loaded, every byte of every packet lasts 100, 10 or 1 code groups for speed codes 0, 1 and 2 |
| PcsPath.RoundTrip | liteeth/phy/pcs_1000basex.py:31-306 | at every constant speed every packet taken by the transmitter arrives whole and in order with last on its final byte, each byte having lasted 100, 10 or 1 code groups; so do configuration words and ordered sets |
| PcsPath.StreamsEqual | liteeth/phy/pcs_1000basex.py:83-89 | packets read back as one stream of bytes are the bytes sent if and only if each packet is |
| PcsPath.HandshakeExact | liteeth/phy/pcs_1000basex.py:74-135 | between packets the bytes received are exactly the bytes acknowledged at the sink if and only if none was discarded while a configuration word began and the speed code is 0 or 1 or every packet begins with 0x55 |
| PcsAutoneg.LinkControl.Tick | liteeth/phy/pcs_1000basex.py:313-394 | state machine, acknowledge timer and watchdog, with the trace of everything visible so far |
| PcsAutoneg.LinkUpNegotiated | liteeth/phy/pcs_1000basex.py:346-394 | link_up implies an ability pulse, then an acknowledge pulse, then a full acknowledge period, in that order and with no restart since |
| PcsAutoneg.BringUp | liteeth/phy/pcs_1000basex.py:346-394 | the link does come up: with ordered sets in every cycle, an ability pulse, an acknowledge pulse, and exactly as many cycles as the timer counts |
| PcsAutoneg.RestartsExplained | liteeth/phy/pcs_1000basex.py:313-394 | in every run a tick comes in every period of checker_max_val + 1 cycles, and the link is restarted by a tick with no report since the one before or by an empty register while it is up, and by nothing else |
| PcsAutoneg.WatchdogFires | liteeth/phy/pcs_1000basex.py:313-327 | two watchdog periods without a valid ordered set contain a restart |
| PcsAutoneg.SilenceRestarts | liteeth/phy/pcs_1000basex.py:313-394 | ... from every reachable state of the machine, within 2 * (checker_max_val + 1) cycles |
| PcsAutoneg.TickRestartsIff | liteeth/phy/pcs_1000basex.py:313-327 | a tick restarts the link if and only if nothing was reported strictly between it and the tick before |
| PcsAutoneg.WatchdogQuiet | liteeth/phy/pcs_1000basex.py:313-327 | with a report strictly between every two ticks, the watchdog never restarts the link |
| PcsAutoneg.NegotiatedKeeps | liteeth/phy/pcs_1000basex.py:352-394 | each state is entered only by the pulse that leads to it |
| PcsAutoneg.ConfigMatcher.Tick | liteeth/phy/pcs_1000basex.py:396-426 | a receive clock: in every run the pulses are raised by matches and by nothing else, and the ability is the last register |
| PcsAutoneg.CounterSnoc | liteeth/phy/pcs_1000basex.py:396-415 | the counter is one exactly when the register before came four cycles earlier with none in between |
| PcsAutoneg.AgreeBits | liteeth/phy/pcs_1000basex.py:412-412 | two registers agree exactly when they differ at most in bit 14 |
| PcsAutoneg.TwoRegisters | liteeth/phy/pcs_1000basex.py:396-416 | from every state, two registers raise the ability pulse if and only if they are four clocks apart, the second is neither 0 nor 1, and they differ at most in bit 14 |
| PcsAutoneg.ThreeRegisters | liteeth/phy/pcs_1000basex.py:396-421 | of three registers four clocks apart the third raises the acknowledge pulse if and only if bit 14 is set in the last two, these are otherwise equal, and so is the first, unless the third has no other bit set |
| PcsAutoneg.Negotiator.TickReceive | liteeth/phy/pcs_1000basex.py:396-426 | a receive clock; its pulses set out for the other clock domain, or get lost |
| PcsAutoneg.Negotiator.TickTransmit | liteeth/phy/pcs_1000basex.py:338-394 | a transmit clock; pulses arrive after any delay, in order, and the empty register restarts the link |
| PcsAutoneg.LinkUpTraced | liteeth/phy/pcs_1000basex.py:338-426 | link_up implies two agreeing non-empty registers four receive cycles apart, and two that both acknowledge and repeat the match before, whose pulses the state machine took in this order with no restart since |
| Etherbone.ReverseTwice | liteeth/frontend/etherbone.py:313-339 | the byte reversals at the two ends cancel, for every word |
| Etherbone.WireBytes | liteeth/frontend/etherbone.py:313-339 | on the wire the bytes of every word come in the order of big endian, and nothing else of a record changes |
| Etherbone.RecordSender.Tick | liteeth/frontend/etherbone.py:251-297 | every packet of accesses leaves as its record, base address first, data in order, under arbitrary stalls |
| Etherbone.RecordReceiver.Tick | liteeth/frontend/etherbone.py:175-248 | every record that only writes or only reads becomes exactly its accesses; full register transitions for all records |
| Etherbone.InsideNext | liteeth/frontend/etherbone.py:208-247 | access k of a record: consecutive addresses for writes, listed addresses for reads, last on the final one |
| Etherbone.MixedRecord | liteeth/frontend/etherbone.py:228-234 | every record that both writes and reads is misread: the return address is taken for the first read address, and the last address stays behind |
| Etherbone.ConsumedIff | liteeth/frontend/etherbone.py:195-248 | a record is consumed whole if and only if it only writes or only reads |
| RemoteMemory.WishboneSlave.Tick | liteeth/frontend/etherbone.py:419-462 | the host-side bus controller's state machine |
| RemoteMemory.WishboneMaster.Tick | liteeth/frontend/etherbone.py:353-407 | the memory-side bus controller's state machine and response registers |
| RemoteMemory.StoredBytes | liteeth/frontend/etherbone.py:365-378 | a write puts the bytes its enables select at its address, and leaves every other byte of the memory |
| RemoteMemory.BurstWrites | liteeth/frontend/etherbone.py:195-297 | a burst of writes made into a record and back lands word by word from its base address on, under its byte enables, with nothing else changed, and only its last access is marked as last |
| RemoteMemory.BurstReads | liteeth/frontend/etherbone.py:195-297 | a burst of reads asks for the addresses listed, in order, and marks the last |
| RemoteMemory.RecordLink.Tick | liteeth/frontend/etherbone.py:300-339 | sender, channel and receiver together are a queue of operations: the oldest leaves when taken, a new one joins when pushed; control step of all three |
| RemoteMemory.FlightClock | liteeth/frontend/etherbone.py:300-339 | queueing, sending, byte reversal and delivery in one cycle leave the operations in flight unchanged otherwise |
| RemoteMemory.LandedSnoc | liteeth/frontend/etherbone.py:365-378 | a write issued last lands last |
| RemoteMemory.WriteLands | liteeth/frontend/etherbone.py:365-378 | the oldest write reaching the remote bus leaves the host's view unchanged |
| RemoteMemory.ReadServed | liteeth/frontend/etherbone.py:379-407 | a read is alone when it is served, and its answer is the host's value |
| RemoteMemory.WriteIssued | liteeth/frontend/etherbone.py:430-442 | a write is visible to the host from its acknowledge on |
| RemoteMemory.ReadIssued | liteeth/frontend/etherbone.py:443-454 | a read travels behind the writes before it |
| RemoteMemory.AnswerTaken | liteeth/frontend/etherbone.py:455-462 | the answer the host takes is what its own memory would hold |
| RemoteMemory.RemoteBus.Tick | liteeth/frontend/etherbone.py:343-462 | for every schedule and sequence of bus operations, each write is acknowledged once, and then exactly the bytes its enables select are the data in the host's memory; each read returns what that memory holds |
| RemoteMemory.Drained | liteeth/frontend/etherbone.py:343-462 | once nothing is in flight the remote memory equals the host's memory |
| RemoteMemory.BusControl.Falls | liteeth/frontend/etherbone.py:175-462 | in a cycle without stalls and without a new operation the bound on the cycles left falls, unless nothing is under way |
| RemoteMemory.RemoteBus.Settle | liteeth/frontend/etherbone.py:175-462 | such a cycle brings every operation under way strictly closer to its end, from every reachable state |
| RemoteMemory.Drain | liteeth/frontend/etherbone.py:175-462 | so a bounded number of them ends every operation: reads are answered, and the remote memory is the host's memory |
| OnesComplement.NormalAdd | test/model/ip.py:21-23 | one end-around-carry addition, as a remainder |
| OnesComplement.SumIsNormal | test/model/ip.py:21-31 | the end-around-carry sum depends on the total alone, not on order or carries |
| OnesComplement.SwapAdd | liteeth/core/ip.py:73-73 | end-around-carry addition commutes with exchanging bytes |
| OnesComplement.SumSwapAll | liteeth/core/ip.py:73-73 | summing byte-swapped words gives the byte-swapped sum |
| OnesComplement.Checksum | test/model/ip.py:26-31 | the reference loop computes the complement of the one's-complement sum of the little-endian words |
| OnesComplement.OnesByWeight | liteeth/core/ip.py:58-73 | the words of a message sum to all ones, in either byte order, if and only if its bytes, those at even places counted 256 times, total a non-zero multiple of 0xFFFF |
| Ipv4Checksum.ClockFlushes | liteeth/core/ip.py:62-71 | each clock with an unchanged header makes one more register of the chain right, whatever it held |
| Ipv4Checksum.NodeBySelect | liteeth/core/ip.py:58-71 | the partial sums depend on the header only through the words the instance sums |
| Ipv4Checksum.HeaderChecksum.Clock | liteeth/core/ip.py:46-81 | counter and partial sums, for every number of words per cycle; reset clears the counter only; the words summed decide whether the header counts as steady |
| Ipv4Checksum.HeaderChecksum.Advance | liteeth/core/ip.py:62-81 | one clock of the adder chain |
| Ipv4Checksum.ValueIsRfc1071 | liteeth/core/ip.py:46-84 | when done rises and the words summed have been steady, value is the RFC 1071 checksum of them and every partial sum fits 16 bits, whatever stale values the registers held and whatever the skipped word did |
| Ipv4Checksum.CycleCount | liteeth/core/ip.py:58-81 | the cycles until done for any number of words per cycle: nine for the transmitter and eleven for the receiver at one word per cycle |
| Ipv4Checksum.Transmit | liteeth/core/ip.py:102-128 | the transmitter, whose header carries the instance's own moving output, under any clock enables: done comes after exactly as many enabled cycles as there are registers, the output is then the RFC 1071 checksum of the other words, and the receiver takes the header |
| Ipv4Checksum.InstanceValues | liteeth/core/ip.py:104-128 | the two instances compute the transmitter's and the receiver's value |
| Ipv4Checksum.ReceiveIff | liteeth/core/ip.py:203-222 | the receiver takes a header if and only if its checksum word complements the sum of the others, or both are all ones |
| Ipv4Checksum.TransmitReceive | liteeth/core/ip.py:104-222 | every header carrying the transmitter's value yields zero at the receiver |
| Ipv4Checksum.ReceiveByWeight | liteeth/core/ip.py:203-222 | in bytes: the receiver takes a header if and only if its bytes, those at even places counted 256 times, total a non-zero multiple of 0xFFFF |
| Ipv4Checksum.TransmitByWeight | liteeth/core/ip.py:102-128 | in bytes: the transmitter's value, high byte in byte 10 and low byte in byte 11, makes the header total such a multiple |
| Ipv4Checksum.InsertChecksum | test/model/ip.py:63-68 | the reference model changes two bytes only, writes the very value the hardware transmitter writes, and the hardware receiver takes it |
| Icmp.EchoChecksumAdds | liteeth/core/icmp.py:140-140 | the updated checksum is the old one plus 0x800 with end-around carry, and never zero |
| Icmp.ReplyResidue | liteeth/core/icmp.py:139-140 | changing type and checksum keeps the total a multiple of 0xFFFF if and only if the type was 8 |
| Icmp.ReplyValidIff | liteeth/core/icmp.py:136-141 | for every valid message of any length the reply is valid if and only if the message was of type 8, and its checksum is not zero |
| Icmp.ReplyByWeight | liteeth/core/icmp.py:136-141 | in bytes: a request whose bytes total a non-zero multiple of 0xFFFF gets a reply with type 0, its own code and data, and such a total if and only if it was of type 8 |
| Sram.CountedIsLength | liteeth/mac/sram.py:44-58 | for either endianness the writer's count of the reader's beats is the length commanded |
| Sram.LastByteLane | liteeth/mac/sram.py:227-243 | the lane the reader marks is that of the last byte: from lane 3 down for big endian, from lane 0 up for little |
| Sram.LaneCounts | liteeth/mac/sram.py:43-58 | the writer counts the bytes up to the lane marked, in the same order |
| Sram.FrameLayout | liteeth/mac/sram.py:214-284 | a frame is the first words of its slot, as many as its bytes fill, with last and a lane on the final one only |
| Sram.BeatKeeps | liteeth/mac/sram.py:244-260 | taking the beat on the output leaves the next word of the slot on it, or completes the frame |
| Sram.Reader.Tick | liteeth/mac/sram.py:214-284 | every frame sent for a length of at least four is the slot's words up to that length, by read-ahead, under arbitrary stalls; slot and length from the command queue; all transitions |
| Sram.ServeCommand | liteeth/mac/sram.py:219-260 | a command is fetched in one cycle, its frame is sent after exactly as many ready cycles as its bytes fill words, and it is finished in one more, under any schedule of the sink |
| Sram.ShortCommand | liteeth/mac/sram.py:244-255 | a command of one to three bytes never ends, whatever the sink does |
| Sram.EmptyCommand | liteeth/mac/sram.py:244-255 | a command of length zero ends after as many beats as the counter has words |
| Sram.WriteKeepsReported | liteeth/mac/sram.py:60-76 | writing the current slot, if it exists, disturbs no frame still reported while a status entry is free |
| Sram.Writer.Tick | liteeth/mac/sram.py:44-160 | state, counter, slot, memories, status queue and error count of every cycle, for any number of slots; every frame closed takes the next value of the slot register; each status entry has its frame's length, and if its slot exists, describes its frame until it is cleared, across frames discarded for an error and as long as no refused frame went unreported |
| Sram.OfferFrame | liteeth/mac/sram.py:80-109 | a frame of several beats, all but the last full, that finds room, under any schedule, is written word for word to the current slot if that exists, and to no other; its last beat is followed by closing it, or by discarding it if its error flag is set |
| Sram.ReceiveFrame | liteeth/mac/sram.py:80-160 | such a frame, followed by one more cycle, is reported if and only if the error flag of its last beat is not set: with its slot and length, the next slot being taken; otherwise entries, frames and slot stay as they were |
| Sram.AnyFrame | liteeth/mac/sram.py:93-129 | any frame of several beats that finds room is cut short if and only if its count meets 1530 exactly; the part written is then reported whatever the error flag says, unless only the last beat was cut off |
| Sram.LongFrame | liteeth/mac/sram.py:93-160 | a frame of full beats is never cut short: past the end of the slot it overwrites its own beginning, and it is closed with its whole length |
| Sram.OneSlot | liteeth/mac/sram.py:20-65 | with one slot the second frame in a row is written nowhere, and an entry for slot one with its length is queued |
| Sram.LostWhileClosing | liteeth/mac/sram.py:110-129 | a beat offered while a frame is being closed or discarded is lost: no memory, frame or error count changes |
| Sram.OfferRefused | liteeth/mac/sram.py:80-122 | a refused frame of any number of beats, under any schedule of beats and clears, is dropped whole and counted once |
| Sram.CloseRefused | liteeth/mac/sram.py:114-129 | closing it takes a slot: without room the slot is one ahead of the frames reported, with room an entry of length zero is queued |
| Sram.RefusedFrame | liteeth/mac/sram.py:60-129 | in the first case, with several slots, the next frame overwrites a frame still reported once a status is cleared |
| Sram.OneBeatFrame | liteeth/mac/sram.py:80-109 | a frame of one beat does not end: the next frame is appended to it |
| Sram.Copy.Tick | liteeth/mac/sram.py:44-284 | reader wired to writer, with any number of slots: the two machines move together beat by beat, through refused frames and frames without a slot too |
| Sram.CopyExact | liteeth/mac/sram.py:44-284 | unless a frame began without a free status entry or without an existing slot, every frame commanded is stored word for word and its entry reports exactly the length commanded, until cleared |
| Sram.CopyExactIff | liteeth/mac/sram.py:44-284 | between frames, every frame commanded was in its slot when it was reported with its length, and those not cleared are in place, if and only if every frame found a free status entry and an existing slot when it began |
| Sram.SlotsExist | liteeth/mac/sram.py:20-65 | with more than one slot every frame finds an existing slot |
| Udp.ReceiveKeeps | liteeth/core/udp.py:190-202 | a byte delivered ends the packet when the datagram ends or the declared length is reached |
| Udp.DropKeeps | liteeth/core/udp.py:203-210 | what is dropped never reaches the user |
| Udp.TrimExact | liteeth/core/udp.py:190-192 | the user gets the first min(declared, present) bytes if and only if the declared length is not zero |
| Udp.PaddingUndone | liteeth/core/udp.py:190-210 | bytes after the declared payload, MAC padding included, never change what the user gets |
| Udp.Receiver.Tick | liteeth/core/udp.py:178-210 | the receiving machine under arbitrary stalls, with the header fields presented beside the token |
| Udp.Received | liteeth/core/udp.py:178-210 | in every run with steady header fields the user has received exactly the trimmed payloads, in order |
| StreamTx.Stream2Udp.Tick | liteeth/frontend/stream.py:31-60 | under arbitrary stalls: a byte offered is accepted exactly when the FIFO is not full; FIFO, level and counter; every finished datagram has the length it announced |
| StreamTx.NothingLost | liteeth/frontend/stream.py:31-60 | the bytes of all datagrams followed by the FIFO are the bytes accepted, every datagram has between send_level and fifo_depth bytes, and a sending machine never reads an empty FIFO |
| Mdio.ReverseBits | liteeth/software/liteeth_mdio.py:35-41 | the loop reverses the low bits of any word |
| Mdio.ReverseTwice | liteeth/software/liteeth_mdio.py:35-41 | the reversal is an involution on words of n bits |
| Mdio.SamplesPulses | liteeth/software/liteeth_mdio.py:50-63 | three writes per bit are sampled as that bit, once, in order |
| Mdio.SteadyPulses | liteeth/software/liteeth_mdio.py:50-63 | while the clock is high, data and direction are what they are just before and just after |
| Mdio.DecodeWriteFrame | liteeth/software/liteeth_mdio.py:87-96 | a station that samples rising edges recovers PHY address, register and value from every write frame |
| Mdio.WriteFrameBits | liteeth/software/liteeth_mdio.py:87-96 | every write frame has a preamble of 32 ones, start 01, operation 01 and turnaround 10 |
| Mdio.PhyAnswers | liteeth/software/liteeth_mdio.py:65-75 | during a read the PHY's register is on the line, most significant bit first |
| Mdio.Client.RawWrite | liteeth/software/liteeth_mdio.py:47-63 | the low bits of a word are sampled most significant first |
| Mdio.Client.RawTurnaround | liteeth/software/liteeth_mdio.py:77-85 | two clocks with the line released |
| Mdio.Client.RawRead | liteeth/software/liteeth_mdio.py:65-75 | whatever the data input carries, in any dependence on what was clocked, the word read is its sixteen bits before each clock, the first the most significant |
| Mdio.Client.Write | liteeth/software/liteeth_mdio.py:87-96 | the line carries exactly the clause 22 write frame, then is released for two clocks, with data steady while the clock is high |
| Mdio.Client.Read | liteeth/software/liteeth_mdio.py:98-108 | against a PHY that keeps registers the addressed one is returned |

## Left out

Conditions on the members above:

- PcsPath.RoundTrip: the user keeps a byte until it is taken (`proper`), no packet begins in the very first clock at a reduced speed, before the timers are loaded (`early`), and the speed is constant; speed code 0b11 is not modelled. The same holds for `PcsPath.HandshakeExact`.
- MacCore.RoundTrip: no token is taken in the CRC checker's RESET state; `CrcChecker.DeliverFrame` says what happens otherwise, `MacCore.RoundTripWithoutBackpressure` an environment in which it cannot happen.
- Sram.CopyExact: lengths from 5 bytes up, because a frame of one beat never ends for the writer (`Sram.OneBeatFrame`). That every frame found a status entry and a slot is the exact condition (`Sram.CopyExactIff`).
- Sram.Writer.Tick: once a refused frame has taken a slot unreported, entries in the queue may describe overwritten slots (`Sram.RefusedFrame`); a frame whose first beat comes while the one before is being closed is stored without that beat (`Sram.LostWhileClosing`); frames of one beat, with a beat before the last that is not full, or longer than a slot are not described by their entries (`Sram.OneBeatFrame`, `Sram.AnyFrame` and `Sram.LongFrame` say what becomes of them).
- MacCore.StalledLastByte: shown for the receive pipeline, fed without gaps; the link in front of it only queues tokens.
- Sram.OneBeatFrame: the frame appended has at most 382 beats, so that the count cannot meet 1530.
- Sram.Reader.Tick: for lengths below 4 it is said when the frame ends (`Sram.ShortCommand`, `Sram.EmptyCommand`), not which words are in it.
- Etherbone.RecordReceiver.Tick: accesses are characterised for records that only write or only read; for the others see `Etherbone.MixedRecord`. Counts beyond the 9 bits of the counter are not modelled.
- RemoteMemory.RemoteBus.Tick: a read returns the whole word, because the receiver presents no byte enables for reads.
- Udp.Receiver.Tick: a declared payload of zero is compared in 16-bit arithmetic as 65536, as the code does.
- StreamTx.Stream2Udp.Tick: a send level of at least one; the variant without a FIFO is not modelled.
- OnesComplement.Checksum: messages of even length, because for odd lengths the reference indexes past the end.
- Mdio.Client.Read: the PHY counts clock edges from the beginning of the transaction, and finds the fields of clause 22 at their places.

Not modelled:

- Data paths wider than one byte in padding, preamble and CRC, and with them `last_be`, the stride converters and the delimiter stages; the preamble checker is for bytes only in the source too.
- Clock-domain crossings: the MAC stages share one clock, and pulses that cross domains in the PCS arrive after any delay, in order, or not at all.
- The 8b/10b coder: symbols cross an ideal channel and the running disparity is an input; `PcsPath.IdleSet` uses only which groups flip it.
- The configuration word the PCS transmits and the speed multiplexer driven by the partner's ability.
- Error counters and status registers of the MAC core; the 32-bit wrap-around of lengths and error counts in the SRAM writer; CSR, interrupt and timestamp plumbing.
- Etherbone probes, packet headers, IP addresses and record lengths on the wire, UDP ports, the arbiter and the dispatcher: the channel between two nodes is lossless and in order.
- Packetizers and depacketizers, which are library code: header fields appear beside the tokens.
- The state machines of IP and ICMP transmit and receive, ARP, the dummy checksum, and checksum state after the transmitter drops a packet.
- Memory sizes that are not powers of two beyond their last word.
- Liveness of the PCS, SRAM, UDP and stream blocks beyond single frames and commands, as the environment decides when anything happens.
- Vendor PHYs, transceivers, generators and benches.
