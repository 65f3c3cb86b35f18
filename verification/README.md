# TRTP: a verified model of the reference implementation

TRTP transfers one file over UDP between a sender and a receiver, with 8-bit sequence
numbers, selective repeat at the receiver, and go-back-n at the sender. This project
models `reference-implementation/` and proves what it does: the packet codec on byte
arrays, the packet ring, both endpoints as imperative classes, the two endpoints joined
by an unreliable network, and the run-level theorems on top of that.

`dafny verify dfyconfig.toml` checks everything.

## How it is built

| file | content |
|---|---|
| `Words.dfy`, `Bits.dfy` | 8- and 32-bit words with their wrap-around, the window test of `net.c`, bit operations on the mask |
| `PktBuf.dfy` | the ring of `pktbuf.c`: an array and two wrapping 32-bit counters, proved against the sequence of live packets |
| `Codec.dfy` | `packet_implem.c` on byte arrays in memory; CRC-32 is an arbitrary function from bytes to 32 bits |
| `SenderModel.dfy`, `Sender.dfy` | `transmit.c`: a state machine over unbounded chunk numbers, and the class with the 8-bit variables and the ring that follows it step by step |
| `SenderAnswers.dfy` | every answer of that machine spelled out: for each datagram, chunk or timeout the packets sent and the variables after it |
| `SenderRuns.dfy` | the sender over whole runs against any peer |
| `ReceiverModel.dfy`, `Receiver.dfy` | `receive.c`: the same, with the 32-bit mask and the in-place copies |
| `ReceiverAnswers.dfy` | every answer of that machine spelled out: for each datagram what is kept and written, and every field of the replies |
| `ReceiverRuns.dfy` | the receiver over whole runs against any peer |
| `Misfiling.dfy` | what the receiver does with a packet that arrives while chunks in sequence wait to be written |
| `Network.dfy`, `Invariant.dfy` | both endpoints and the datagrams between them; the invariant of every reachable state |
| `Safety.dfy`, `Progress.dfy` | the end-to-end theorems |

The classes prove that the code follows the state machines; the machines use numbers
without bound where the code uses bytes, and the theorems are about the machines.
`SenderAnswers` and `ReceiverAnswers` say what the machines do without going through their
functions: in numbers, fields and sequences, case by case. The network carries bytes: a
send adds the encoded packet, a delivery runs the decoder on it. A datagram also carries
the unbounded number it stands for, which no step looks at except the bound on the lag
below.

The network may lose, reorder, duplicate, truncate and corrupt datagrams
(`statement/statement.tex:186-197`; duplication is more than it asks for). Assumed of it:
corruption is detected by the checksums, and a datagram that is delivered lags behind the
position it is compared with by at most 255 less the window of that test.
`Seqnum.WindowTestExact` and `Seqnum.StaleMessageAliases` prove that this bound is the
weakest one under which the 8-bit test is right. Also assumed: `max_window` from 1 to 31,
and a sender ring whose capacity is a power of two of at most 128.

## What the proofs found

- A go-back-n compares a `uint8_t` with the `int` `last_sent + 1`
  (`transmit.c:144`). With `last_sent` at 255 the loop condition never fails. The loop
  resends everything buffered and reserves slots up to the capacity of the ring; the next
  request passes the assertion at `pktbuf.c:70`, and since the assertion of
  `pktbuf_enqueue` is compiled out of the default build, the slot of the oldest packet gets
  a new number; the loop then goes round the ring once more, until that same assertion of
  `slotfor_seq` stops the process. `SenderCode.SenderState.ResendLoop` proves that it is
  2 * capacity + 1 packets, and which. `SenderView.LoopCondition` gives the exact condition.
  `Progress.Progress` says of every reachable state with a timeout left whether the transfer
  can be completed whatever is lost of the datagrams under way, and
  `Progress.LostTransfer` constructs, for every configuration, a run without a timeout that
  only loses datagrams and cannot be completed any more.
- `process_nack` scans the first slots of the array and not the live ones
  (`transmit.c:36-39`). What it sends is right (`SenderCode.SenderState.ProcessNack`),
  but it finds every packet in flight only in the cases of `SenderRuns.EveryNackFound`.
- The third duplicate ACK with nothing buffered reads through a null pointer
  (`transmit.c:66`): `SenderRuns.ThirdDuplicate`, `SenderRuns.ThreeAcks`. It takes neither a
  hostile peer nor a network that duplicates: `NullRead.NullPointerRun` gives, for every
  configuration, a run of both endpoints in which nothing is lost and three timeouts come
  early.
- A packet that is whole and accepted while chunks in sequence wait to be written is
  misfiled (`receive.c:116-147`): the distance is one too small, so that the bit of the slot
  before its own is set, and the advance of the expected number counts the waiting chunks
  again. `ReceiverCode.ReceiverState.DoReceiveData` proves the exact state for every such
  packet, and `Misfiling.MisfiledRightIff` that it is the right one only when the packet
  changes nothing. The next packet in sequence is acknowledged but not marked
  (`Misfiling.NextUnmarked`); it lies in wait in its slot until a later packet sets the bit of
  that slot instead of its own (`Misfiling.ReleasedByTheNext`), so that ring and mask stay out
  of step. With k chunks waiting and nothing held behind them, k - 1 numbers that were never
  received are acknowledged besides (`Misfiling.AdvanceExcess`). The bytes of a packet just
  ahead of the next one are written in the place of the next one
  (`Misfiling.WrittenInPlaceOfTheNext`).
- Chunks wait when the output file would block, or from the connection to the first drain.
  The former needs a descriptor that is non-blocking already: `receive.c:222-225` sets
  descriptor flags, of which `O_NONBLOCK` is none. The latter race is harmless to the output
  with the modelled sender, which has a window of one until the first reply
  (`Safety.RaceWritesTheSame`); but it keeps the main loop from ending after an empty first
  chunk (`Safety.FirstRace`).
- The comment at `receive.c:44` is not an equivalence: `ReceiverRuns.WindowZeroIff`.
- The receiver accepts `max_window + 1` numbers (`net.c:89`); the ring of 32 slots and
  the 32-bit mask are just enough for that. With `max_window` at 31 the mask is then set
  by a shift into the sign bit of an `int` (`receive.c:130`); the modelled sender never asks
  for it before a go-back-n has run away (`Safety.Credit`).

## Model

| member | source | states |
|---|---|---|
| Seqnum.WindowTestExact | reference-implementation/src/common/net.c:89 | the 8-bit distance test answers whether the unbounded number lies in [base, base + win] if and only if the lag is at most 255 - win; the distance then recovers the number |
| Seqnum.StaleMessageAliases | reference-implementation/src/common/net.c:89 | one step of lag more is accepted and taken for the last number of the window |
| PacketBuffer.WrappedCounter | reference-implementation/src/common/pktbuf.c:8-13 | a 32-bit counter that wraps keeps falling on the slot of the counter that does not |
| PacketBuffer.OffsetBoundTight | reference-implementation/src/common/pktbuf.c:70-72 | among the offsets that the assertion lets through, the slot is a fresh one exactly when the offset is less than the capacity |
| PacketBuffer.LiveStore | reference-implementation/src/common/pktbuf.c:84 | writing the slot of a live packet changes that packet and no other |
| PacketBuffer.PktBuf.constructor | reference-implementation/src/common/pktbuf.c:16-31 | an empty ring of cleared slots, for every capacity that passes the two assertions |
| Bits.PopcountOne | reference-implementation/src/common/pktbuf.c:20 | a number has one bit set if and only if it is a power of two |
| PacketBuffer.PktBuf.Mask | reference-implementation/src/common/pktbuf.c:8 | masking with the capacity less one reduces modulo the capacity |
| PacketBuffer.PktBuf.Enqueue | reference-implementation/src/common/pktbuf.c:115-121 | appends one live packet, with the bytes its slot holds, across the wrap of the counter; in a full ring it hands out the slot of the oldest packet |
| PacketBuffer.PktBuf.Dequeue | reference-implementation/src/common/pktbuf.c:107-113 | removes the oldest live packet and nothing else |
| PacketBuffer.PktBuf.First | reference-implementation/src/common/pktbuf.c:40-45 | the slot of the oldest packet, or none |
| PacketBuffer.PktBuf.Last | reference-implementation/src/common/pktbuf.c:47-52 | the slot of the newest packet, or none |
| PacketBuffer.PktBuf.At | reference-implementation/src/common/pktbuf.c:91-102 | indexes the array, not the live packets: the number of a live packet gives its slot if and only if that slot is among the first `used` ones, and otherwise stops the process |
| PacketBuffer.PktBuf.ExtendTo | reference-implementation/src/common/pktbuf.c:78-82 | ends for every offset up to the capacity, with the array that the filling of slots one after the other leaves |
| PacketBuffer.PktBuf.SlotFor | reference-implementation/src/common/pktbuf.c:54-89 | for every number: stops the process, changing nothing, if and only if the offset exceeds the capacity; otherwise the slot and the array left, even at an offset equal to the capacity |
| PacketBuffer.PktBuf.SlotWithin | reference-implementation/src/common/pktbuf.c:54-89 | within the capacity: extends only with consecutive numbers, changes no live packet and no body; inside the ring it changes nothing |
| PacketBuffer.FilledExtends | reference-implementation/src/common/pktbuf.c:78-82 | filling up to the capacity keeps every live packet and all bodies, and numbers the reserved slots consecutively |
| PacketBuffer.FilledOver | reference-implementation/src/common/pktbuf.c:70-82 | one slot more is the slot of the oldest packet, which keeps its body and loses its number |
| Codec.DecodeExact | reference-implementation/src/common/packet_implem.c:35-111 | for every byte string and packet: the decoder accepts the packet from the bytes if and only if the bytes are its encoding, up to four trailing bytes behind an empty payload |
| Codec.WireBytes | reference-implementation/src/common/packet_implem.c:124-144 | the encoding byte by byte: where each field lies, that lengths and checksums have their high byte first, and what each checksum covers |
| Codec.HeaderErrors | reference-implementation/src/common/packet_implem.c:49-64 | for every header: which error code, as a function of the bytes, the first failing check giving the answer |
| Codec.PayloadErrors | reference-implementation/src/common/packet_implem.c:69-101 | for every length and type: exactly when the length is inconsistent and exactly when the second checksum is wrong |
| Codec.DecodeErrors | reference-implementation/src/common/packet_implem.c:35-111 | which check answers for every byte string, and that passing all of them means acceptance |
| Codec.RoundTrip | reference-implementation/src/common/packet_implem.c:43-144 | decoding the encoding of any packet the protocol allows gives the packet back |
| Codec.TruncationTransparent | reference-implementation/src/common/packet_implem.c:58-67 | the header of a data packet with TR set by the network decodes to the same fields, TR and no payload |
| Codec.ReencodesToReceived | reference-implementation/src/common/packet_implem.c:35-111 | an accepted packet without TR is well-formed and re-encodes to the bytes received, up to those four; acceptance implies one of three lengths |
| Codec.OverwrittenSeqnum | reference-implementation/src/common/packet_implem.c:57-64 | an encoded packet whose number was overwritten is accepted if and only if the two header checksums collide |
| Codec.SerialLength | reference-implementation/src/common/net.c:141-147 | the length computed from the encoded form is that of the host form and of the encoding |
| Codec.PktEncodeInline | reference-implementation/src/common/packet_implem.c:124-144 | turns the struct in memory into the encoding in place and touches nothing behind it |
| Codec.PktEncode | reference-implementation/src/common/packet_implem.c:113-122 | without a buffer, without a length or with one too short, reports E_NOMEM and changes nothing; otherwise encodes into the second buffer and leaves the packet |
| Codec.LE32Bytes | reference-implementation/src/common/packet_implem.c:61-65 | a checksum in host order has its low byte first |
| Codec.DecodeHeader | reference-implementation/src/common/packet_implem.c:49-67 | the header checks in the order of the code; TR is cleared only meanwhile, and crc1 is left in host order: its four bytes, low one first, are the checksum of the bytes covered |
| Codec.PktDecodeInline | reference-implementation/src/common/packet_implem.c:43-111 | accepts exactly what the decoder function accepts, with the same error codes, and leaves the struct of the packet in host form: its length and both checksums are given byte by byte, low byte first |
| SenderView.ScannedSlot | reference-implementation/src/sender/transmit.c:36-39 | a scanned slot that carries an accepted number is the live packet with that number |
| SenderView.NothingScanned | reference-implementation/src/sender/transmit.c:36-42 | a scan that matches nothing had nothing to find |
| SenderView.LoopCondition | reference-implementation/src/sender/transmit.c:144 | the loop of go-back-n ends behind last_sent if and only if last_sent is not 255 |
| SenderView.InFlight | reference-implementation/src/sender/transmit.c:82 | the 8-bit differences are the number of packets in flight |
| SenderView.SlotsHoldNext | reference-implementation/src/sender/transmit.c:110-130 | filling the next slot keeps every slot at the last chunk that fell on it |
| SenderCode.SenderState.constructor | reference-implementation/src/sender/transmit.c:19-28 | the initial value of every variable, and that they stand for the initial state |
| SenderCode.SenderState.ScanFor | reference-implementation/src/sender/transmit.c:31-43 | finds the packet exactly when its slot is among the first `used` ones, although stale slots are scanned |
| SenderCode.SenderState.ProcessNack | reference-implementation/src/sender/transmit.c:31-43 | on ring and wire alone: if a scanned slot has the number, exactly the live packet with that number is sent, and otherwise nothing |
| SenderCode.SenderState.ProcessAck | reference-implementation/src/sender/transmit.c:46-57 | drops exactly as many of the oldest packets from the ring as the accepted number is ahead of last_ack, moves last_ack there, and clears the duplicates |
| SenderCode.SenderState.ProcessDupAck | reference-implementation/src/sender/transmit.c:59-69 | on ring and wire alone: the third duplicate sends the oldest packet in the ring, or reads through the null pointer when there is none; the others only count |
| SenderCode.SenderState.HandleSocketRead | reference-implementation/src/sender/transmit.c:71-108 | for any datagram, one step of the machine: window test, type check, window update, dispatch; retry_count is 0 afterwards, whatever came |
| SenderCode.SenderState.EnqueueChunk | reference-implementation/src/sender/transmit.c:114-128 | the newest packet in the ring is the data packet of the chunk, field by field, and no live packet changes |
| SenderCode.SenderState.HandleInputRead | reference-implementation/src/sender/transmit.c:110-130 | the chunk read becomes the next packet; when read fails, the slot is reserved and nothing is sent |
| SenderCode.SenderState.DoSendSbuf | reference-implementation/src/sender/transmit.c:163-180 | sends the next packets in order, as many as the window allows, without changing the ring |
| SenderView.TurnStep | reference-implementation/src/sender/transmit.c:144-149 | what slotfor_seq answers at every turn of a go-back-n, also of one that runs away: the slot, what it holds, and at the turn after twice the capacity the end of the process |
| SenderView.TurnAtCapacity | reference-implementation/src/common/pktbuf.c:70-82 | at the turn equal to the capacity the slot of the oldest packet gets a new number, and every other slot stays as it was |
| SenderCode.SenderState.ResendOne | reference-implementation/src/sender/transmit.c:144-149 | sends the packet of turn k, or stops the process; within the buffered packets the ring does not change |
| SenderCode.SenderState.ResendLoop | reference-implementation/src/sender/transmit.c:144-149 | the 8-bit loop, to its end: it sends last_ack to last_sent in order, or, with last_sent at 255, 2 * capacity + 1 packets round the ring before the process stops |
| SenderCode.SenderState.GoBackN | reference-implementation/src/sender/transmit.c:144-149 | resends exactly last_ack to last_sent in order and ends with a ring that stands for the same state, unless last_sent is 255; then the process stops after the runaway loop |
| SenderCode.SenderState.HandleRetransmission | reference-implementation/src/sender/transmit.c:133-161 | counts the timeout, gives up after five, and goes back |
| SenderCode.SenderState.PollReady | reference-implementation/src/sender/transmit.c:204-229 | one iteration for any combination of socket and input refines one step of the machine |
| SenderCode.SenderState.PollTimeout | reference-implementation/src/sender/transmit.c:230-234 | one iteration after a timeout refines one step of the machine |
| SenderCode.SenderState.Done | reference-implementation/src/sender/transmit.c:235 | the loop ends exactly when the end of the input was read and everything is acknowledged |
| SenderAnswers.AcceptsIff | reference-implementation/src/sender/transmit.c:80-90 | accepted is exactly a packet that decodes, is an ACK or a NACK, and whose number is that of an index from last_ack to last_sent + 1 |
| SenderAnswers.NotAccepted | reference-implementation/src/sender/transmit.c:78-90 | anything else only restarts the count of timeouts |
| SenderAnswers.NackAnswered | reference-implementation/src/sender/transmit.c:31-43 | an accepted NACK of index j sends exactly packet j if its slot is scanned, and otherwise nothing |
| SenderAnswers.AckAnswered | reference-implementation/src/sender/transmit.c:46-57 | an accepted ACK of index j beyond last_ack moves last_ack to j and sends nothing |
| SenderAnswers.DuplicateAnswered | reference-implementation/src/sender/transmit.c:59-69 | of the ACKs of last_ack exactly the third resends exactly the oldest packet, or reads through the null pointer |
| SenderAnswers.IterationAnswered | reference-implementation/src/sender/transmit.c:204-229 | one iteration: the datagram first, then the chunk, then the next packets in order up to the window or the last chunk, and what is polled next |
| SenderAnswers.AliveAgain | reference-implementation/src/sender/transmit.c:78 | an iteration that reads any datagram leaves retry_count at 0 |
| SenderAnswers.TimeoutAnswered | reference-implementation/src/sender/transmit.c:133-161 | every answer to a timeout: nothing, giving up at the sixth, last_ack to last_sent in order, or with last_sent at 255 the 2 * capacity + 1 packets of the runaway loop |
| SenderAnswers.ChunkBytes | reference-implementation/src/sender/transmit.c:114-128 | the bytes of the packet of a chunk: type, number, length, timestamp and payload |
| SenderRuns.NextValid | reference-implementation/src/sender/transmit.c:199-235 | for any packet and window, an iteration keeps the bounds of ring, flight and counters |
| SenderRuns.InOrderSendsNext | reference-implementation/src/sender/transmit.c:163-180 | first transmissions are the next numbers, each within the last announced window, and stop only when all is sent or the window is used up |
| SenderRuns.FlowControl | reference-implementation/src/sender/transmit.c:199-235 | in every run against any peer: at most 31 packets in flight, and the packets sent in order are 0, 1, 2, ... without gap or repetition |
| SenderRuns.CountedSince | reference-implementation/src/sender/transmit.c:133-141 | over any run, retry_count is at most the number of timeouts since the last datagram was read |
| SenderRuns.GivesUpAfterSix | reference-implementation/src/sender/transmit.c:133-141 | over any run, the sender gives up only after six timeouts with no datagram read in between |
| SenderRuns.StableImage | reference-implementation/src/sender/transmit.c:110-180 | over any run, every packet sent for a chunk, whichever handler sends it, is the one that was encoded when the chunk was read |
| SenderRuns.NacksFoundUpTo | reference-implementation/src/common/pktbuf.c:91-102 | all packets from last_ack up to any number are found for a NACK if and only if there are none, the ring is full, or their slots lie among the first `used` ones |
| SenderRuns.EveryNackFound | reference-implementation/src/sender/transmit.c:36-42 | every packet in flight, the only ones that an accepted NACK can name, is found if and only if one of these holds for the flight |
| SenderRuns.NackNotFound | reference-implementation/src/sender/transmit.c:36-42 | for every capacity above 1 and any data, a run from the initial state after which the NACK of the only packet in flight is accepted and sends nothing |
| SenderRuns.SingleSlot | reference-implementation/src/sender/transmit.c:36-42 | with a capacity of 1 every packet in flight is found |
| SenderRuns.ThirdDuplicate | reference-implementation/src/sender/transmit.c:59-69 | the null pointer is read if and only if the third duplicate ACK comes with nothing buffered |
| SenderRuns.ThreeAcks | reference-implementation/src/sender/transmit.c:59-69 | from any state with everything acknowledged, as many more ACKs as make three stop the sender |
| ReceiverModel.DrainExact | reference-implementation/src/receiver/receive.c:177-207 | the drain writes exactly the chunks next in line, in order, releases as many slots, keeps the others, and stops at the first gap |
| ReceiverModel.DrainLater | reference-implementation/src/receiver/receive.c:192-196 | an output file that blocks only puts writing off: the later writes are the same, and so is the next number meanwhile |
| ReceiverModel.ArriveValid | reference-implementation/src/receiver/receive.c:42-64 | no arrival lets the number of held chunks exceed max_window or the slots exceed the ring |
| ReceiverSteps.CopiedInSteps | reference-implementation/src/receiver/receive.c:133-141 | renumbering the slot of the next chunk, extending the ring and copying the packet down leave every other slot as it was |
| ReceiverSteps.MatchesKeep | reference-implementation/src/receiver/receive.c:130 | setting a bit and filling its slot stores one chunk and disturbs none |
| ReceiverSteps.MatchesRelease | reference-implementation/src/receiver/receive.c:204-205 | dequeuing and shifting the mask release the first chunk and no other |
| ReceiverCode.ReceiverState.constructor | reference-implementation/src/receiver/receive.c:21-40 | the initial value of every variable, a ring of 32 slots, and that they stand for the initial state |
| ReceiverCode.ReceiverState.WindowSize | reference-implementation/src/receiver/receive.c:55-64 | the shift-and-count loop returns max_window less the trailing ones, without underflow |
| ReceiverCode.ReceiverState.ReserveNext | reference-implementation/src/receiver/receive.c:158-160 | the slot of the next chunk is behind those that wait to be written; reserving it keeps the correspondence with the machine |
| ReceiverCode.ReceiverState.CopyDown | reference-implementation/src/receiver/receive.c:134-141 | the in-place copy through two slots of the ring, whatever waits before them |
| ReceiverCode.ReceiverState.FileWhole | reference-implementation/src/receiver/receive.c:130-147 | ring, mask and expected number after any whole packet, whatever waits to be written |
| ReceiverSteps.FiledRight | reference-implementation/src/receiver/receive.c:130-147 | with nothing waiting, that is the machine state with the chunk stored at its number, and the number after all that is then in sequence |
| ReceiverCode.ReceiverState.ProcessWhole | reference-implementation/src/receiver/receive.c:130-147 | the same for the code: with nothing waiting, ring, mask and numbers stand for the machine state again |
| ReceiverCode.ReceiverState.AdvanceExpected | reference-implementation/src/receiver/receive.c:142-147 | expected_seq advances by exactly the number of trailing ones |
| ReceiverCode.ReceiverState.ProcessTruncated | reference-implementation/src/receiver/receive.c:120-129 | a truncated packet makes a NACK due and stores nothing, whatever waits to be written |
| ReceiverCode.ReceiverState.ProcessIncomingPkt | reference-implementation/src/receiver/receive.c:108-150 | the state after any accepted packet: a step of the machine when it is truncated or nothing waits to be written, and what FileWhole says otherwise |
| ReceiverCode.ReceiverState.ReceiveInto | reference-implementation/src/receiver/receive.c:158-165 | every datagram goes into the slot of the expected number, which holds nothing, also while chunks wait |
| ReceiverCode.ReceiverState.DoReceiveData | reference-implementation/src/receiver/receive.c:152-175 | in order, ahead, duplicate, out of window, wrong type, undecodable, with chunks waiting or not: what is kept, and what is misfiled |
| ReceiverCode.ReceiverState.DoReadSock | reference-implementation/src/receiver/receive.c:213-216 | with a full buffer the datagram is discarded |
| ReceiverCode.ReceiverState.DoEmptyRbuf | reference-implementation/src/receiver/receive.c:177-207 | writes the chunks next in line until the output file would block; the expected number stays right |
| ReceiverCode.ReceiverState.Reply | reference-implementation/src/receiver/receive.c:284-290 | field by field, in any state: an ACK of the expected number if one is due, then a NACK of the number remembered if one is due, each with the window left, length 0, no payload and the timestamp remembered; nothing else is sent |
| ReceiverCode.ReceiverState.Iteration | reference-implementation/src/receiver/receive.c:263-308 | one iteration, for any combination of datagram and output file, with chunks waiting or not, refines one step of the machine unless the packet is misfiled; in any case it sends exactly the replies due, field by field, with the timestamp of the packet just accepted |
| ReceiverCode.ReceiverState.Connect | reference-implementation/src/receiver/receive.c:252-256 | the connection and the first packet: the chunk waits to be written, and an ACK is due |
| ReceiverCode.ReceiverState.Done | reference-implementation/src/receiver/receive.c:308 | the loop ends exactly when the last chunk written was empty and no slot is reserved |
| ReceiverAnswers.AcceptsIff | reference-implementation/src/common/net.c:82-97 | accepted is exactly a packet that decodes, is a data packet, and whose number is that of an index from the next one to the end of the window |
| ReceiverAnswers.NotAccepted | reference-implementation/src/receiver/receive.c:153-175 | anything else changes nothing that was received, written or remembered; it reserves the slot of the next chunk and makes an ACK due unless a NACK is |
| ReceiverAnswers.Discarded | reference-implementation/src/receiver/receive.c:213-216 | with the window full of chunks every datagram is discarded |
| ReceiverAnswers.TruncatedAnswered | reference-implementation/src/receiver/receive.c:121-128 | a truncated packet is not kept, its timestamp is, and a NACK of its number is due |
| ReceiverAnswers.WholeAnswered | reference-implementation/src/receiver/receive.c:129-147 | a whole packet is kept at its own index and changes nothing else that is held |
| ReceiverAnswers.RepliesAnswer | reference-implementation/src/receiver/receive.c:66-94 | the replies of the machine field by field: type, number, window, length, timestamp, no payload |
| ReceiverAnswers.IterationAnswered | reference-implementation/src/receiver/receive.c:263-308 | one iteration: the datagram, the drain, then the replies due with the number and window after it; and when the main loop ends |
| ReceiverAnswers.TimestampEchoed | reference-implementation/src/receiver/receive.c:66-94 | an accepted packet is answered, and every reply echoes its timestamp |
| ReceiverAnswers.FirstAnswered | reference-implementation/src/receiver/receive.c:252-290 | the answer to the first packet, whole or truncated, and when the main loop ends with it |
| ReceiverAnswers.BlockedAfter | reference-implementation/src/receiver/receive.c:177-207 | with an output file that takes n writes, chunks are left in line only after exactly n writes of chunks that are not empty |
| ReceiverRuns.AlwaysBounded | reference-implementation/src/receiver/receive.c:42-64 | in every run against any peer the held chunks stay within max_window and what is written stays written |
| ReceiverRuns.ArrivalExact | reference-implementation/src/receiver/receive.c:108-216 | seen as a map from numbers to chunks, the receiver gains exactly the chunk a datagram brings; nothing received is lost or changed |
| ReceiverSteps.BufferedDistance | reference-implementation/src/receiver/receive.c:115-117 | the 8-bit distance with k packets in sequence buffered is k - 1 |
| Misfiling.MaskRightIff | reference-implementation/src/receiver/receive.c:116-130 | the bit set is the right one if and only if bit 0 was clear or both bits were set already |
| Misfiling.AdvanceRightIff | reference-implementation/src/receiver/receive.c:116-146 | with k packets in sequence still buffered, the expected number advances to the right one if and only if k is 0 or exactly k - 1 packets behind the one received were held |
| Misfiling.AdvanceExcess | reference-implementation/src/receiver/receive.c:142-147 | with none held behind, the advance exceeds the due one by k - 1 |
| Misfiling.MisfiledRightIff | reference-implementation/src/receiver/receive.c:116-147 | the state after a packet that arrives while chunks wait stands for the machine state with the packet kept if and only if the packet is not the next one, and it and the one before it were held already |
| Misfiling.NextUnmarked | reference-implementation/src/receiver/receive.c:116-147 | the next packet then lies in its slot, ring and mask stand for a state without it, and the expected number has moved past it by as many as waited |
| Misfiling.ReleasedByTheNext | reference-implementation/src/receiver/receive.c:116-130 | after the drain its slot is the first one and bit 0 is clear; a packet with the expected number sets the bit of this slot and not that of its own |
| Misfiling.WrittenInPlaceOfTheNext | reference-implementation/src/receiver/receive.c:130-141 | a packet just ahead of the next one is stored as the next one, and its bytes are what is written there |
| ReceiverRuns.WindowZeroIff | reference-implementation/src/receiver/receive.c:42-46 | a window of 0 means full and everything in sequence, and nothing less |
| ReceiverRuns.FullWithWindow | reference-implementation/src/receiver/receive.c:44 | a concrete full buffer with a window of 1 |
| SlotBytes.EmissionBytes | reference-implementation/src/sender/transmit.c:144-149 | a buffered chunk goes out as its encoding; what a go-back-n that runs away sends beyond is rejected unless two header checksums collide |
| SenderSteps.PollReadyFacts | reference-implementation/src/sender/transmit.c:204-229 | with a truthful peer, an iteration leaves no more than the window in flight and sends nothing beyond |
| SenderSteps.ReplyTaken | reference-implementation/src/sender/transmit.c:82-107 | a reply in time is accepted for its own number; an ACK accepted names only written chunks |
| ReceiverKeeps.ChunkTaken | reference-implementation/src/common/net.c:82-97 | a data packet in time is accepted exactly when its chunk is in the window, and stored as that chunk |
| ReceiverKeeps.EndsWithEmptyChunk | reference-implementation/src/receiver/receive.c:308 | the main loop ends exactly when the empty chunk was written |
| ReceiverKeeps.ReceivingInv | reference-implementation/src/receiver/receive.c:263-308 | an iteration of the receiver keeps the joint invariant |
| ReceiverKeeps.WaitingInv | reference-implementation/src/common/net.c:100-139 | so does the connection, whichever datagrams come before |
| SenderSteps.SenderReadyInv | reference-implementation/src/sender/transmit.c:204-229 | so does an iteration of the sender |
| SenderSteps.TimeoutInv | reference-implementation/src/sender/transmit.c:230-234 | so does a timeout, even one whose go-back-n runs away |
| Safety.StepInv | statement/statement.tex:186-197 | every step of either endpoint, every loss, truncation and corruption keeps the joint invariant |
| Safety.Safety | reference-implementation/src/receiver/receive.c:108-308 | in every run the output is a prefix of the input; it is the whole input when the receiver's loop ends by itself and when the sender reports success |
| Safety.Credit | reference-implementation/src/sender/transmit.c:163-180 | in every run, before a go-back-n has run away: last_ack <= expected <= sent <= last_ack + max_window, every data packet under way is less than a window ahead, and the receiver's buffer is never full |
| Safety.GivesUpConnecting | reference-implementation/src/common/net.c:100-139 | over any run in which no packet numbered 0 is read, the receiver waits until it has read five datagrams and gives up at the fifth |
| Safety.Connects | reference-implementation/src/common/net.c:111-137 | the first packet numbered 0 is taken whatever else it says: what is written, and whether the transfer is complete with it |
| Safety.WindowTestsSound | reference-implementation/src/common/net.c:82-97 | in every reachable state both 8-bit tests accept a datagram in time exactly when its unbounded number is in the window |
| Safety.RaceWritesTheSame | reference-implementation/src/receiver/receive.c:252-283 | in every reachable state before the connection, whatever is under way is of chunk 0: read between the connection and the first drain it is not misfiled, and the same is written |
| Safety.FirstRace | reference-implementation/src/receiver/receive.c:252-308 | such a packet reserves a slot, so that the main loop does not end with an empty first chunk unless the window is 1 |
| Delivery.DataDelivered | reference-implementation/src/receiver/receive.c:270-286 | delivering the expected packet advances the receiver; delivering that or an older one is answered by an ACK of what was written |
| Delivery.AckDelivered | reference-implementation/src/sender/transmit.c:46-57 | delivering that ACK brings last_ack there and sends what the window then allows |
| Delivery.TimeoutResends | reference-implementation/src/sender/transmit.c:133-161 | a timeout puts everything in flight back on the network, unless last_sent is 255 |
| Progress.Progress | reference-implementation/src/sender/transmit.c:133-235 | of every reachable state with a timeout left: the transfer can be completed whatever is lost of the datagrams under way if and only if last_sent is not 255 or one more packet can be sent first; it then completes with every datagram intact and delivered at most once |
| Progress.ProgressWhenQuiet | reference-implementation/src/sender/transmit.c:133-235 | with nothing under way, it can be completed at all if and only if that holds |
| Progress.ProgressUnderWay | reference-implementation/src/sender/transmit.c:133-235 | with more to send, it can be completed in any case while an ACK is under way that moves last_ack, or a packet that will be answered by one |
| Progress.LostTransfer | reference-implementation/src/sender/transmit.c:144 | for every configuration and every long enough input, a run in which datagrams are lost but none is truncated, corrupted or duplicated and no timeout occurs, and from which the transfer cannot be completed |
| NullRead.NullPointerRun | reference-implementation/src/sender/transmit.c:59-69 | for every configuration and every input of more than three chunks, a run of both endpoints without loss, truncation, corruption or duplication, with timeouts only, that ends in the null pointer |

## Left out

- Sockets, `poll`, address resolution and `connect`: events of any kind and order take their place. I/O errors that end the process are not modelled.
- ReceiverCode.ReceiverState.Iteration: of an iteration that misfiles a packet it promises only the replies and that the code can go on. The state is that of `DoReceiveData`; for a packet that is the next one or just ahead of it, `Misfiling.NextUnmarked` and `Misfiling.WrittenInPlaceOfTheNext` say what state ring and mask then stand for, and `DoEmptyRbuf` what is written. For one further ahead, what lies in the slot that is marked without having been received is not modelled.
- ReceiverCode.ReceiverState.DoEmptyRbuf: a write that fails or is partial ends the process (`receive.c:197-201`) and is not modelled.
- In the joint machine the output file never blocks, and the connection, the first packet and its drain are one step; `Safety.RaceWritesTheSame` covers the datagrams that the code may read in between.
- The linger phase and all real-time constants (`receive.c:310-322`): timeouts may happen at any time; the receiver may give up at any time.
- The packets of a runaway go-back-n beyond the chunks read are not put on the network of the joint machine, since the decoder rejects them (`SlotBytes.EmissionBytes`); the class puts them on the wire.
- The inner workings of CRC-32 (section 8 of RFC 1952): any function from bytes to 32 bits; that corruption is detected is an assumption of the joint machine.
- `pkt_decode` on more than 528 bytes is an error value; `recvfrom` cutting a longer datagram is not modelled.
- The byte order of the host is little-endian, as for the machines the statement names.
- Class `ReceiverState`: the slots hold decoded packets, not raw memory; a datagram that does not decode leaves an arbitrary packet there. The struct in memory is covered by `Codec` alone.
- The check of the echoed timestamp (`transmit.c:94-97`) only logs; logging, accessors, status descriptions and the options of both programs add no behaviour.
- Progress.Progress: does not cover a sender whose five timeouts are used up, since the next one ends the transfer by design.
- Progress.ProgressWhenQuiet: likewise.
- `foreach_pktbuf`, `pktbuf_free` and the setters of `packet_interface.h`: easy members.
- `tests/test_pktbuf.c` expects packets to leave the ring in reverse order; the code is first in, first out, and the model follows the code.
- The evaluation scripts, the dissector and the build files.
