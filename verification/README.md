# libuavcan in Dafny

A model of the core of libuavcan, the C++ implementation of the UAVCAN v0 protocol stack, with proofs of
what the library is for: transfers arrive once, in order and unchanged; values survive marshalling at
every bit alignment; frames leave in arbitration order and wanted frames are never filtered out; timers,
time synchronisation, service calls and pollers keep their books.

Check the project with `dafny verify dfyconfig.toml`.

## How it is organised

| file | subject |
|---|---|
| Bits | machine words as bit strings, and the numbers they denote |
| Crc | CRC-16-CCITT, bitwise and with the 256-entry table |
| Frames | UAVCAN frames and their CAN identifiers |
| TransferBuffer | flat and block-chained payload buffers |
| Receiver | the reassembly state machine of one source |
| Listener | all sources of one data type: receivers, buffers, CRC check, clean-up |
| Sender | segmentation, and the registry of outgoing transfer IDs |
| Reassembly, EndToEnd, Redundancy | the theorems that span sender, bus, receiver and listener |
| BitCopy, BitStream, ScalarCodec, ArrayCodec, SquareMatrix | marshalling |
| TxQueue, CanIo | the transmission queue and sending on several interfaces |
| Routing | listener registries, dispatching |
| Filters, FilterLimits, SmallHardware | hardware acceptance filters; what happens beyond 256 of them |
| PoolMap, Multisets | pool allocator, limited allocator, map and unordered container over pool blocks |
| Scheduler, TimeSync, ServiceClient, RoundRobin | scheduling and protocols |

Code that updates objects or arrays is modelled by classes and methods with loops, each proved against a
function on values; runs of unbounded length are stated over those functions. Time is a number of
microseconds. The CAN driver, the clock, the bus and the memory pool are parameters: a script of answers
that may be anything, so a pool may refuse at every point. Words are bit strings, most significant bit
first, so masks, shifts and field extraction are exact.

## What turned out to need a condition

These properties hold only under a condition. The condition is proved to be exact, and a lemma named as
failing shows an input outside it.

- An anonymous frame survives compilation and parsing if and only if its data type ID is at most 3
  (`Frames.RoundTrip`, failing in `Frames.AnonymousTypeLost`).
- A transfer that fails its CRC check leaves its buffer behind. A later, undamaged transfer is delivered
  unchanged if and only if it fits one frame or the leftover is not longer than its payload
  (`EndToEnd.StaleBuffer`, failing in `EndToEnd.StaleRun`).
- Sending can put a frame in front of an equal one that was queued earlier, if and only if the driver has
  just refused the queued one and then takes the new one (`CanIo.OrderExact`, failing in `CanIo.OvertakesQueued`).
- A pass of the filter merge loses traffic if and only if it pairs a filter with itself and that filter
  was not redundant (`Filters.PassExact`). Up to 256 filters that happens if and only if no pair agrees on
  a checked bit (`Filters.ProperExact`, failing in `Filters.NothingShared`). Beyond 256 the start of the inner
  loop is cut to eight bits, and a pass loses traffic if and only if a message filter without a copy stands at
  number 255 or later, but not last (`FilterLimits.BeyondExact`). In the order in which the container lists
  them, that is from 257, 258 or 259 filters on (`FilterLimits.FirstDropLoses`).
- The whole merge of more filters than that covers all traffic, on hardware with at least 258 filters, if and
  only if nothing has to be merged (`FilterLimits.LargeHardwareExact`). On smaller hardware the dropped data
  types may be covered by what the others are merged into: two conditions on the data type IDs decide, one for
  loss (`SmallHardware.OutsideLost`, failing in `SmallHardware.CrowdLoses`) and one for coverage
  (`SmallHardware.SurroundedCovered`); a single filter covers everything when anonymous messages are wanted
  (`SmallHardware.OneFilterCovers`).
- A call whose request cannot be sent takes back the first call with its ID that a search of the registry meets.
  With one call per pool block that is the call itself, so every run conserves calls
  (`ServiceClient.Conservation`); with more it may be an older one (`ServiceClient.SlotsExact`,
  `ServiceClient.CallFaithful`, failing in `ServiceClient.CollisionSwaps`).
- A service call that needs a block and is refused it, while other calls are pending, stops the response
  listener for all of them, nothing else does, and only the end of all pending calls cures it
  (`ServiceClient.CallListening`, `ServiceClient.DeafRun`, failing in `ServiceClient.RefusalDeafens`).
- A receiver whose bus has gone silent takes a transfer from another bus if and only if a copy of it starts
  after the interface switch delay or the transfer ID timeout (`Redundancy.SilentBusExact`).
- The time synchronisation slave leaves its master for one of a greater ID when the timeout has passed
  since the last message it stored, which need not mean silence (`TimeSync.MasterRises`, failing in
  `TimeSync.RisesThoughUsed` and `TimeSync.RisesThoughHeard`).
- The limited allocator counts a block that the pool then refuses, and never takes the count back
  (`PoolMap.CountExact`, `PoolMap.Exhausted`).
- A push is lost uncounted, together with its victim, if and only if the allocator refuses a block that has just
  been returned to it (`TxQueue.LostExact`), which the library's own pool never does (`TxQueue.RunConserves`).
- Listener lists are in descending order of data type ID, although a comment at the insertion says
  ascending; the early exit of the scan relies on the descending order (`Routing.ListenerRegistry.HandleFrame`).

## Model

| member | source | states |
|---|---|---|
| `Crc.Table` | libuavcan/src/transport/uc_crc.cpp:13-47 | every one of the 256 table entries is the remainder of its own index under the polynomial 0x1021 |
| `Crc.TableStepIsBitwise` | libuavcan/include/uavcan/transport/crc.hpp:43-73 | one table-driven step equals eight bitwise steps, for every register value and byte |
| `Crc.UpdateConcat` | libuavcan/include/uavcan/transport/crc.hpp:66-73 | feeding a byte string in pieces gives the CRC of the whole |
| `Crc.UpdateInjective` | libuavcan/include/uavcan/transport/crc.hpp:43-73 | different start values give different CRCs over the same bytes, so no suffix hides an earlier error |
| `Crc.BurstDetected` | libuavcan/include/uavcan/transport/crc.hpp:43-73 | any corruption confined to two adjacent bytes changes the CRC, whatever surrounds it |
| `Crc.TransferCRC.AddBitwise` | libuavcan/include/uavcan/transport/crc.hpp:43-58 | the bit loop absorbs the byte as polynomial division does |
| `Crc.TransferCRC.Add` | libuavcan/include/uavcan/transport/crc.hpp:60-63 | the table form has the same effect as the bit loop |
| `Crc.TransferCRC.AddBytes` | libuavcan/include/uavcan/transport/crc.hpp:66-73 | the byte loop gives the CRC of the whole string |
| `Frames.ParseCompiled` | libuavcan/src/transport/uc_frame.cpp:34-179 | what a receiver reads from a compiled frame: the frame itself, or for an anonymous one the frame with two bits of its data type ID |
| `Frames.RoundTrip` | libuavcan/src/transport/uc_frame.cpp:34-258 | every valid frame compiles, and parsing restores it if and only if it names its source or its data type ID is at most 3 |
| `Frames.AnonymousTypeLost` | libuavcan/src/transport/uc_frame.cpp:168-176 | the failing input: an anonymous message of type 4 is read as one of type 0 |
| `Frames.CompileParsed` | libuavcan/src/transport/uc_frame.cpp:34-179 | compiling a parsed frame of a named source rebuilds the CAN frame bit for bit |
| `Frames.MessageIdLayout` | libuavcan/src/transport/uc_frame.cpp:120-132 | where each field of a message identifier lies, flags included |
| `Frames.ServiceIdLayout` | libuavcan/src/transport/uc_frame.cpp:120-141 | where each field of a service identifier lies, flags included |
| `Frames.AnonymousField` | libuavcan/src/transport/uc_frame.cpp:168-176 | the discriminator leaves priority, source, flags and the two lowest type bits intact |
| `TransferBuffer.SpliceAppend` | libuavcan/src/transport/uc_transfer_buffer.cpp:187-256 | consecutive writes have the effect of one write of the concatenation |
| `TransferBuffer.StaticTransferBuffer.Read` | libuavcan/src/transport/uc_transfer_buffer.cpp:14-32 | a read returns the window of the contents, cut at their end |
| `TransferBuffer.StaticTransferBuffer.Write` | libuavcan/src/transport/uc_transfer_buffer.cpp:34-53 | at any offset, stores the prefix that fits, reports its length and changes no other byte; without a gap it is a write to a byte string |
| `TransferBuffer.TransferBufferManagerEntry.ReadBlock` | libuavcan/src/transport/uc_transfer_buffer.cpp:99-111 | a block contributes exactly its bytes at and behind the target offset |
| `TransferBuffer.TransferBufferManagerEntry.Read` | libuavcan/src/transport/uc_transfer_buffer.cpp:151-185 | reading the chain gives what reading a flat array with the same contents gives |
| `TransferBuffer.TransferBufferManagerEntry.WriteBlock` | libuavcan/src/transport/uc_transfer_buffer.cpp:113-125 | a block takes exactly the part of the input that falls into it and keeps its other bytes |
| `TransferBuffer.TransferBufferManagerEntry.WriteAppending` | libuavcan/src/transport/uc_transfer_buffer.cpp:223-250 | new blocks are chained until everything is stored or the pool refuses; earlier blocks stay |
| `TransferBuffer.TransferBufferManagerEntry.Write` | libuavcan/src/transport/uc_transfer_buffer.cpp:187-256 | a gap-free write has the effect of a write to a flat array, of exactly the reported prefix, at any quota of the pool |
| `TransferBuffer.TransferBufferManagerEntry.Reset` | libuavcan/src/transport/uc_transfer_buffer.cpp:258-270 | every block of the chain is handed back, in order, and the buffer is empty |
| `Receiver.ForwardDistance` | libuavcan/src/transport/uc_transfer.cpp:44-54 | the number of increments modulo 32 that lead from one transfer ID to another |
| `Receiver.StepCoherent` | libuavcan/src/transport/uc_transfer_receiver.cpp:96-239 | after any frame and any allocator behaviour a write position is backed by a buffer that covers it; completion hands over a buffer, a single frame leaves none |
| `Receiver.TransferReceiver.UpdateTransferTimings` | libuavcan/src/transport/uc_transfer_receiver.cpp:34-48 | the interval estimate moves one eighth of the way to the clamped interval, unless there was no earlier transfer |
| `Receiver.TransferReceiver.Validate` | libuavcan/src/transport/uc_transfer_receiver.cpp:57-94 | a frame is taken exactly when interface, toggle, transfer ID and CRC length fit; which refusals count as errors |
| `Receiver.TransferReceiver.WritePayload` | libuavcan/src/transport/uc_transfer_receiver.cpp:96-129 | the transfer CRC is split off the first frame, which is refused without one, the rest is stored, and the result says whether all of it was |
| `Receiver.TransferReceiver.ReceiveFrame` | libuavcan/src/transport/uc_transfer_receiver.cpp:131-179 | single, first, middle and last frames take the receiver and its buffer where the transition function says |
| `Receiver.TransferReceiver.AddFrame` | libuavcan/src/transport/uc_transfer_receiver.cpp:186-239 | the object refines the transition function, restart conditions included |
| `Receiver.StoreInChain` | libuavcan/src/transport/uc_transfer_buffer.cpp:187-256 | the block chain stores and refuses exactly as the receiver model assumes of its buffer, for a grant determined by the blocks the pool has |
| `Listener.NextInv` | libuavcan/src/transport/uc_transfer_listener.cpp:85-101 | no event leaves a buffer without a receiver, a write position beyond its buffer, or a buffer beyond the size limit |
| `Listener.RunInv` | libuavcan/src/transport/uc_transfer_listener.cpp:196-238 | the same in every reachable state, so the short-read assertion cannot fail |
| `Listener.Isolation` | libuavcan/src/transport/uc_transfer_listener.cpp:202-238 | over any run, what happens to one source depends on its own events only: no interference between sources |
| `Listener.TransferListener.CheckPayloadCrc` | libuavcan/src/transport/uc_transfer_listener.cpp:106-133 | reading in chunks of sixteen bytes gives the verdict of one pass over the whole payload |
| `Listener.TransferListener.HandleReception` | libuavcan/src/transport/uc_transfer_listener.cpp:135-178 | deliveries and kept or removed buffers follow the reception function, a failed CRC check keeping its buffer |
| `Listener.TransferListener.HandleFrame` | libuavcan/src/transport/uc_transfer_listener.cpp:180-238 | the listener refines the step function: anonymous frames, missing memory and frames that start nothing included |
| `Listener.TransferListener.Clean` | libuavcan/src/transport/uc_transfer_listener.cpp:196-200 | exactly the timed-out receivers go, each with its buffer |
| `Sender.TransferIsValid` | libuavcan/src/transport/uc_transfer_sender.cpp:55-140 | every frame that segmentation produces passes the frame check |
| `Sender.OutgoingTransferRegistry.TakeTid` | libuavcan/src/transport/uc_outgoing_transfer_registry.cpp:27-43 | a known key continues its sequence, a new one starts at zero, refusal changes nothing |
| `Sender.OutgoingTransferRegistry.Cleanup` | libuavcan/src/transport/uc_outgoing_transfer_registry.cpp:50-53 | of every key, an entry whose deadline has passed is forgotten and any other keeps its place in the sequence |
| `Sender.SequenceSurvives` | libuavcan/src/transport/uc_outgoing_transfer_registry.cpp:27-53 | a key that was used continues its sequence after a clean-up if and only if the deadline set by that use has not passed, whatever happens to other keys |
| `Sender.TransferSender.SendMulti` | libuavcan/src/transport/uc_transfer_sender.cpp:76-140 | the loop hands over the frames of the transfer in order, stops at the first failure and reports it, and reports their number otherwise |
| `Sender.TransferSender.Send` | libuavcan/src/transport/uc_transfer_sender.cpp:27-144 | anonymous senders are limited to short broadcasts; otherwise as above, a short payload in one frame |
| `Sender.TransferSender.SendAuto` | libuavcan/src/transport/uc_transfer_sender.cpp:146-171 | the transfer ID comes from the registry, which moves on and extends its entry; the frames and the result are those of a send with that ID, failed and forbidden sends included |
| `Reassembly.FirstFrame` | libuavcan/src/transport/uc_transfer_receiver.cpp:131-179 | the first frame of any multi-frame transfer leaves its CRC and its bytes over whatever the buffer held |
| `Reassembly.LaterFrame` | libuavcan/src/transport/uc_transfer_receiver.cpp:131-179 | each further frame extends the prefix received; the last one completes it and moves to the next transfer ID |
| `Reassembly.NoRestart` | libuavcan/src/transport/uc_transfer_receiver.cpp:196-211 | within the timeouts no frame of the transfer in progress asks for a restart |
| `Reassembly.OtherInterface` | libuavcan/src/transport/uc_transfer_receiver.cpp:57-94 | a frame on another interface changes nothing at all |
| `Reassembly.DuplicateIgnored` | libuavcan/src/transport/uc_transfer_receiver.cpp:57-94 | after completion, frames with the old transfer ID change only the error count, on any interface |
| `Reassembly.FailedCheckLeavesBuffer` | libuavcan/src/transport/uc_transfer_listener.cpp:152-171 | a transfer that fails its CRC check delivers nothing and leaves exactly the bytes it received |
| `Reassembly.LeftoverHarmless` | libuavcan/src/transport/uc_transfer_receiver.cpp:149-162 | a transfer written over a leftover yields its payload if and only if the leftover is not longer |
| `EndToEnd.BusIsTransparent` | libuavcan/src/transport/uc_frame.cpp:34-179 | every frame of a transfer is the same after compilation and parsing |
| `EndToEnd.WholeTransfer` | libuavcan/src/transport/uc_transfer_listener.cpp:135-238 | the outcome of a complete transfer with clean-up calls anywhere in between, whatever buffer it finds |
| `EndToEnd.StaleBuffer` | libuavcan/src/transport/uc_transfer_listener.cpp:152-171 | the exact condition under which a complete transfer is delivered unchanged |
| `EndToEnd.DamagedTransfer` | libuavcan/src/transport/uc_transfer_listener.cpp:152-171 | the first transfer of a source, with a wrong CRC, ends with its bytes in the buffer and the next transfer ID expected |
| `EndToEnd.StaleRun` | libuavcan/src/transport/uc_transfer_listener.cpp:152-171 | the failing run from the empty listener: a twelve-byte transfer with a wrong CRC costs the undamaged eight-byte transfer that follows within a second, whatever the bytes |
| `EndToEnd.LinkStep` | libuavcan/src/transport/uc_transfer_sender.cpp:146-171 | each send, registry clean-up or listener clean-up keeps sender and listener in agreement on the next transfer ID, and delivers what was sent |
| `EndToEnd.LinkFidelity` | libuavcan/src/transport/uc_transfer_sender.cpp:27-171 | over any run of one link the payloads delivered are the payloads sent, in order, across wrap-around, idle gaps and expired registry entries |
| `EndToEnd.Fidelity` | libuavcan/src/transport/uc_transfer_listener.cpp:106-238 | the same inside any run of a listener, whatever other sources do |
| `EndToEnd.FreshlyLinked` | libuavcan/src/transport/uc_transfer_receiver.cpp:196-232 | a new listener agrees with any sender, so fidelity holds from its start |
| `Redundancy.DonePhase` | libuavcan/src/transport/uc_transfer_receiver.cpp:57-94 | after delivery, remaining copies deliver nothing and change only the error count |
| `Redundancy.ExactlyOnce` | libuavcan/src/transport/uc_transfer_receiver.cpp:57-239 | for every interleaving of in-order copies on up to three interfaces within the switch delay and the timeout, the payload is delivered exactly once |
| `Redundancy.SilentBusExact` | libuavcan/src/transport/uc_transfer_receiver.cpp:184-239 | the expected bus is silent: over every interleaving on the others, the payload is delivered exactly once if a copy starts after the switch delay or the timeout, and otherwise not at all |
| `BitCopy.BitarrayCopy` | libuavcan/src/marshal/uc_bit_array_copy.cpp:12-58 | every destination bit in range equals its source bit and every other bit is unchanged, at all offsets and lengths; the loop ends |
| `BitStream.StagedAppends` | libuavcan/src/marshal/uc_bit_stream.cpp:15-53 | merging the cached bits with the staged bytes appends the new bits and pads with zeros |
| `BitStream.Stream.Write` | libuavcan/src/marshal/uc_bit_stream.cpp:15-53 | succeeds if and only if the bits fit, and then the buffer holds all bits written so far, padded with zeros |
| `BitStream.Stream.Read` | libuavcan/src/marshal/uc_bit_stream.cpp:55-76 | succeeds if and only if the bits are there, and then returns them left-aligned and advances past them |
| `ScalarCodec.TakenLaid` | libuavcan/src/marshal/uc_scalar_codec.cpp:21-44 | the number read from its little-endian wire form is the number |
| `ScalarCodec.LaidTaken` | libuavcan/src/marshal/uc_scalar_codec.cpp:21-44 | the wire form of the number read from any bits is those bits |
| `ScalarCodec.AlignedBits` | libuavcan/src/marshal/uc_scalar_codec.cpp:21-30 | left-aligning the incomplete last byte in memory produces the wire form |
| `ScalarCodec.UnalignedNum` | libuavcan/src/marshal/uc_scalar_codec.cpp:32-44 | shifting the last byte back produces the number of the wire form |
| `ScalarCodec.RoundTrip` | libuavcan/include/uavcan/marshal/integer_spec.hpp:78-129 | for every width, signedness, cast mode and integer, decoding gives the saturated or the two's-complement wrapped value |
| `ScalarCodec.NoRedundantCode` | libuavcan/include/uavcan/marshal/scalar_codec.hpp:52-76 | every bit pattern decodes to a value in range that encodes to the same pattern |
| `ScalarCodec.Codec.EncodeBytesImpl` | libuavcan/src/marshal/uc_scalar_codec.cpp:21-30 | in-place alignment followed by the stream write |
| `ScalarCodec.Codec.DecodeBytesImpl` | libuavcan/src/marshal/uc_scalar_codec.cpp:32-44 | the bytes left in memory denote the number of the bits taken from the stream |
| `ScalarCodec.Codec.Encode` | libuavcan/include/uavcan/marshal/scalar_codec.hpp:103-116 | a value that fits extends the stream by the encoding of its cast, at any alignment; otherwise zero is returned |
| `ScalarCodec.Codec.Decode` | libuavcan/include/uavcan/marshal/scalar_codec.hpp:118-136 | returns the value that the next bits encode, sign included, or zero at the end of the stream |
| `ScalarCodec.ListRoundTrip` | libuavcan/include/uavcan/marshal/integer_spec.hpp:110-129 | any list of fields, packed back to back at any position with anything behind it, is read back field by field |
| `ScalarCodec.EncodeFields` | libuavcan/include/uavcan/marshal/integer_spec.hpp:110-123 | successive encodes succeed if and only if all fields fit, and lay them down back to back |
| `ScalarCodec.DecodeFields` | libuavcan/include/uavcan/marshal/integer_spec.hpp:125-129 | successive decodes return every value, cast by its own type, and end behind the last |
| `ScalarCodec.ThereAndBack` | libuavcan/include/uavcan/marshal/scalar_codec.hpp:103-136 | encoding a list of fields into an empty buffer and decoding it from the start returns every value cast by its type, if and only if it fits |
| `ArrayCodec.SizeFits` | libuavcan/include/uavcan/marshal/type_util.hpp:27-36 | the length prefix is wide enough for every admissible length |
| `ArrayCodec.Lossless` | libuavcan/include/uavcan/marshal/array.hpp:429-538 | every value of every nested array type is restored: away from the tail whatever follows, in tail position when less than a byte follows |
| `ArrayCodec.OptimizedExact` | libuavcan/include/uavcan/marshal/array.hpp:495-515 | an array without its length prefix is restored if and only if fewer bits follow than one element takes |
| `ArrayCodec.TailArrayLossless` | libuavcan/include/uavcan/marshal/array.hpp:429-538 | an array written last into a byte-padded buffer, behind any other fields, is restored |
| `ArrayCodec.TooShort` | libuavcan/include/uavcan/marshal/array.hpp:470-510 | with fewer bits left than the minimum length, decoding ends at the end of the stream and reports no error |
| `ArrayCodec.LengthBounds` | libuavcan/include/uavcan/marshal/array.hpp:671-681 | every encoding lies between the declared minimum and maximum bit lengths |
| `ArrayCodec.DecodedIsTyped` | libuavcan/include/uavcan/marshal/array.hpp:470-538 | whatever the bits, a successful decode respects array bounds and integer ranges |
| `ArrayCodec.Encode` | libuavcan/include/uavcan/marshal/array.hpp:449-468 | succeeds if and only if the encoding fits, and then the stream is extended by it |
| `ArrayCodec.EncodeItems` | libuavcan/include/uavcan/marshal/array.hpp:434-447 | the element loop lays down all elements, only the last one in tail position |
| `ArrayCodec.Decode` | libuavcan/include/uavcan/marshal/array.hpp:491-538 | result code, value and stream position are those of the decoding function, on every input |
| `ArrayCodec.DecodeItems` | libuavcan/include/uavcan/marshal/array.hpp:470-486 | the same for the loop over a known number of elements |
| `ArrayCodec.DecodeToEnd` | libuavcan/include/uavcan/marshal/array.hpp:495-515 | the same for the loop that runs to the end of the stream, with its overflow error |
| `ArrayCodec.ThereAndBack` | libuavcan/include/uavcan/marshal/array.hpp:449-538 | encoding any nested value behind anything and decoding it from the same buffer returns it, if and only if it fits |
| `SquareMatrix.Sizes` | libuavcan/include/uavcan/marshal/array.hpp:40-52 | scalar, diagonal, triangle and full forms never have the same length for two or more rows |
| `SquareMatrix.UpperAt` | libuavcan/include/uavcan/marshal/array.hpp:572-583 | the running index of the triangle reaches the right element |
| `SquareMatrix.RoundTrip` | libuavcan/include/uavcan/marshal/array.hpp:543-659 | unpacking restores every integer matrix of every size from whichever form was chosen |
| `SquareMatrix.CheckScalar` | libuavcan/include/uavcan/marshal/array.hpp:99-114 | the test holds if and only if the matrix is a multiple of the identity |
| `SquareMatrix.CheckDiagonal` | libuavcan/include/uavcan/marshal/array.hpp:116-127 | the test holds if and only if everything off the diagonal is zero |
| `SquareMatrix.CheckSymmetric` | libuavcan/include/uavcan/marshal/array.hpp:129-145 | the test holds if and only if the matrix equals its transpose |
| `SquareMatrix.Pack` | libuavcan/include/uavcan/marshal/array.hpp:543-599 | the loops produce the chosen form |
| `SquareMatrix.Unpack` | libuavcan/include/uavcan/marshal/array.hpp:601-659 | the destination is filled in place as the form's length demands, zeros for an unknown length |
| `SquareMatrix.UnpackTriangle` | libuavcan/include/uavcan/marshal/array.hpp:623-645 | the lower half is taken from elements of the destination that were written before |
| `TxQueue.PriorityIsRank` | libuavcan/src/driver/uc_can.cpp:19-57 | the branching comparison is the order of one number per frame, hence a strict weak order, for all identifiers |
| `TxQueue.QosTotal` | libuavcan/src/transport/uc_can_io.cpp:41-57 | quality of service is a total preorder |
| `TxQueue.LowestIsMinimum` | libuavcan/src/transport/uc_can_io.cpp:151-159 | the scan finds a minimum of the quality of service |
| `TxQueue.PushInv` | libuavcan/src/transport/uc_can_io.cpp:108-178 | every push keeps arbitration order, first-in first-out among equals, and the quota |
| `TxQueue.VictimIsLowest` | libuavcan/src/transport/uc_can_io.cpp:139-169 | a displaced entry is a minimum among the unexpired ones and not above the new frame; a persistent one never yields to a volatile one |
| `TxQueue.PushConserves` | libuavcan/src/transport/uc_can_io.cpp:100-178 | a push and everything it displaces is queued or counted as rejected; the one exception is described exactly |
| `TxQueue.LostExact` | libuavcan/src/transport/uc_can_io.cpp:139-174 | a push is lost if and only if it displaces an entry and the allocator then refuses the block just returned |
| `TxQueue.PoolPushConserves` | libuavcan/src/transport/uc_can_io.cpp:100-178 | over a pool nothing is ever lost: queued plus rejected is what was queued plus one |
| `TxQueue.PeekFacts` | libuavcan/src/transport/uc_can_io.cpp:180-200 | exactly the expired head entries go, each counted, and the head left is not expired |
| `TxQueue.RunInv` | libuavcan/src/transport/uc_can_io.cpp:100-226 | in every reachable queue, for any allocator: order, FIFO, quota, and pushes = queued + taken + rejected + lost, the counter saturating |
| `TxQueue.RunConserves` | libuavcan/src/transport/uc_can_io.cpp:100-226 | over a pool that others use as well, in every reachable queue: pushes = queued + taken + rejected |
| `TxQueue.CanTxQueue.RegisterRejectedFrame` | libuavcan/src/transport/uc_can_io.cpp:100-106 | the counter saturates at 32 bits |
| `TxQueue.CanTxQueue.Allocate` | libuavcan/src/uc_dynamic_memory.cpp:12-23 | an attempt is counted against the quota before the pool answers; a block that comes is one the queue does not hold |
| `TxQueue.CanTxQueue.Remove` | libuavcan/src/transport/uc_can_io.cpp:202-211 | exactly the given entry goes, and its block goes back to the pool |
| `TxQueue.CanTxQueue.InsertBefore` | libuavcan/include/uavcan/util/linked_list.hpp:114-145 | the list walk inserts before the first entry of lower priority |
| `TxQueue.CanTxQueue.DropExpired` | libuavcan/src/transport/uc_can_io.cpp:124-135 | the loop removes and counts exactly the expired entries |
| `TxQueue.CanTxQueue.FindLowest` | libuavcan/src/transport/uc_can_io.cpp:151-159 | the scan returns the first minimum |
| `TxQueue.CanTxQueue.PushFrame` | libuavcan/src/transport/uc_can_io.cpp:108-178 | over the limited pool, the object refines the push function with the answers of that pool, and the blocks of the queue and of the free list add up |
| `TxQueue.CanTxQueue.PeekEntry` | libuavcan/src/transport/uc_can_io.cpp:180-200 | the object refines the peek function |
| `CanIo.TransmitFacts` | libuavcan/src/transport/uc_can_io.cpp:389-415 | one turn on one interface keeps the accounts, and keeps the order if the driver takes what it is offered |
| `CanIo.OrderExact` | libuavcan/src/transport/uc_can_io.cpp:392-406 | without any assumption on the driver, the exact condition under which a turn keeps the order of equal frames |
| `CanIo.OvertakesQueued` | libuavcan/src/transport/uc_can_io.cpp:392-406 | the failing input, for any frame: the driver refuses the queued entry and then takes an equal later frame |
| `CanIo.EnqueueFacts` | libuavcan/src/transport/uc_can_io.cpp:427-433 | enqueueing on timeout keeps the order and puts the frame on record once |
| `CanIo.CanIOManager.TransmitAll` | libuavcan/src/transport/uc_can_io.cpp:386-416 | the interface loop keeps accounts and order on all interfaces, and counts what the drivers took |
| `CanIo.CanIOManager.EnqueueAll` | libuavcan/src/transport/uc_can_io.cpp:418-435 | afterwards the frame went exactly once to driver or queue on every selected interface |
| `CanIo.CanIOManager.Send` | libuavcan/src/transport/uc_can_io.cpp:338-438 | on a non-negative return, driver or queue had the frame exactly once on the selected interfaces and never elsewhere; the result counts the frames sent; equal frames leave in call order if the drivers take what they are offered |
| `Routing.ListenerRegistry.Add` | libuavcan/src/transport/uc_dispatcher.cpp:75-92 | keeps the list descending, refuses a second unique listener, and appends to the listeners of its type only |
| `Routing.ListenerRegistry.Exists` | libuavcan/src/transport/uc_dispatcher.cpp:99-111 | whether some listener has the data type |
| `Routing.ListenerRegistry.HandleFrame` | libuavcan/src/transport/uc_dispatcher.cpp:124-144 | the scan with its early exit calls exactly the listeners that a full scan would, in order |
| `Routing.Dispatcher.HandleFrame` | libuavcan/src/transport/uc_dispatcher.cpp:149-188 | the listeners called are those of the frame's kind and type, for frames addressed to this node or to all |
| `Filters.MergeAccepts` | libuavcan/src/transport/uc_can_acceptance_filter_configurator.cpp:237-244 | a merged filter accepts whatever either filter accepts |
| `Filters.MergeTightest` | libuavcan/src/transport/uc_can_acceptance_filter_configurator.cpp:237-244 | any filter that covers both covers the merged one |
| `Filters.CountBits` | libuavcan/src/transport/uc_can_acceptance_filter_configurator.cpp:246-255 | clearing the lowest set bit until nothing is left counts the set bits |
| `Filters.FindBest` | libuavcan/src/transport/uc_can_acceptance_filter_configurator.cpp:74-94 | the pair found is the first best one among the pairs looked at, the eight-bit start index included |
| `Filters.PassExact` | libuavcan/src/transport/uc_can_acceptance_filter_configurator.cpp:69-98 | a pass loses no traffic if and only if it merges two different filters or drops a redundant one |
| `Filters.ProperExact` | libuavcan/src/transport/uc_can_acceptance_filter_configurator.cpp:74-94 | with at most 256 filters, the pass merges two different ones if and only if some pair agrees on a checked bit |
| `Filters.CanAcceptanceFilterConfigurator.MergeConfigurations` | libuavcan/src/transport/uc_can_acceptance_filter_configurator.cpp:62-103 | on the container itself, the loop follows the passes to their end; without hardware filters it reports a driver error and changes nothing |
| `Filters.MergesLength` | libuavcan/src/transport/uc_can_acceptance_filter_configurator.cpp:71-98 | the merge ends with exactly as many filters as the hardware has, or as there were |
| `Filters.MergesCovers` | libuavcan/src/transport/uc_can_acceptance_filter_configurator.cpp:71-98 | with at most 256 filters that share a checked bit, the merge loses no traffic |
| `Filters.NothingShared` | libuavcan/src/transport/uc_can_acceptance_filter_configurator.cpp:74-97 | the failing input without a shared bit: two filters, one hardware filter, and the first one is dropped |
| `FilterLimits.RemovableGoes` | libuavcan/src/transport/uc_can_acceptance_filter_configurator.cpp:71-98 | loaded filters in any order: if there is a message filter with a copy behind it, or at number 255 or later but not last, the first such one goes and nothing else changes |
| `FilterLimits.FiveMessages` | libuavcan/src/transport/uc_can_acceptance_filter_configurator.cpp:79-94 | among any five message filters two agree on at least eleven bits, as many as an anonymous or service filter checks |
| `FilterLimits.ProperOtherwise` | libuavcan/src/transport/uc_can_acceptance_filter_configurator.cpp:71-98 | otherwise a pass over more than 256 loaded filters merges two different ones |
| `FilterLimits.BeyondExact` | libuavcan/src/transport/uc_can_acceptance_filter_configurator.cpp:71-98 | one pass over more than 256 loaded filters in any order loses traffic if and only if such a filter exists and the first one has no copy; equal filters lose nothing |
| `FilterLimits.BeyondMerges` | libuavcan/src/transport/uc_can_acceptance_filter_configurator.cpp:71-98 | the whole merge is a merge of the filters that survive; the others are gone unmerged |
| `FilterLimits.SurvivingCovered` | libuavcan/src/transport/uc_can_acceptance_filter_configurator.cpp:62-103 | whatever the hardware, nothing that survives is lost |
| `FilterLimits.NothingMergedExact` | libuavcan/src/transport/uc_can_acceptance_filter_configurator.cpp:62-103 | if the survivors fit the hardware, all traffic is covered if and only if all filters survive |
| `FilterLimits.LargeHardwareExact` | libuavcan/src/transport/uc_can_acceptance_filter_configurator.cpp:62-103 | with 258 or more hardware filters and different filters in any order, all traffic is covered if and only if nothing has to be merged |
| `FilterLimits.FirstDropLoses` | libuavcan/src/transport/uc_can_acceptance_filter_configurator.cpp:71-98 | in the order of the container: a pass over the filters of different data types loses traffic if and only if there are at least 257, 258 or 259 of them, depending on the filters per block and the mode |
| `FilterLimits.BelowFirstDrop` | libuavcan/src/transport/uc_can_acceptance_filter_configurator.cpp:62-103 | below that number the whole merge loses nothing, whatever the hardware |
| `SmallHardware.OutsideLost` | libuavcan/src/transport/uc_can_acceptance_filter_configurator.cpp:62-103 | with three or more hardware filters, a data type whose filter was dropped loses its frames if the surviving ones agree on seven bits of the ID and it differs in one of them |
| `SmallHardware.SurroundedCovered` | libuavcan/src/transport/uc_can_acceptance_filter_configurator.cpp:62-103 | all traffic is covered if every dropped data type lies between any two of more surviving ones than there are hardware filters |
| `SmallHardware.OneFilterCovers` | libuavcan/src/transport/uc_can_acceptance_filter_configurator.cpp:62-103 | with one hardware filter and anonymous messages wanted, all traffic is covered, however many filters there are and in whatever order |
| `SmallHardware.CrowdLoses` | libuavcan/src/transport/uc_can_acceptance_filter_configurator.cpp:62-103 | the failing input, with three filters per block: 257 listeners, any hardware from 3 to 258 filters, and the frames of data type 505 are lost |
| `Filters.CanAcceptanceFilterConfigurator.LoadInputConfiguration` | libuavcan/src/transport/uc_can_acceptance_filter_configurator.cpp:17-60 | the container then enumerates one filter per message listener and those for services and anonymous messages in its own order, newest block first; a memory error if and only if the blocks do not suffice |
| `Filters.LoadedShare` | libuavcan/src/transport/uc_can_acceptance_filter_configurator.cpp:17-60 | the loaded filters do share a checked bit |
| `Filters.LoadedAccepts` | libuavcan/src/transport/uc_can_acceptance_filter_configurator.cpp:17-60 | every wanted CAN frame that the dispatcher routes to a listener passes one of the loaded filters |
| `Filters.CanAcceptanceFilterConfigurator.ComputeConfiguration` | libuavcan/src/transport/uc_can_acceptance_filter_configurator.cpp:169-192 | driver and memory errors as they occur; otherwise the filters fit the hardware, follow the passes, and up to 256 of them pass every wanted frame that the dispatcher would route |
| `Filters.CanAcceptanceFilterConfigurator.AddFilterConfig` | libuavcan/src/transport/uc_can_acceptance_filter_configurator.cpp:227-235 | a filter added by the application widens what is accepted by exactly its own frames, or memory is refused and nothing changes |
| `Filters.CanAcceptanceFilterConfigurator.ApplyConfiguration` | libuavcan/src/transport/uc_can_acceptance_filter_configurator.cpp:105-167 | what the interfaces are programmed with is the merge of everything in the container; errors in the order of the code |
| `PoolMap.PoolAllocator.constructor` | libuavcan/include/uavcan/dynamic_memory.hpp:141-157 | all blocks start on the free list |
| `PoolMap.PoolAllocator.Allocate` | libuavcan/include/uavcan/dynamic_memory.hpp:159-182 | hands out a block nobody has, refuses only when none is free; free list and blocks in use partition the pool |
| `PoolMap.PoolAllocator.Deallocate` | libuavcan/include/uavcan/dynamic_memory.hpp:184-202 | returns the block to the head of the free list and keeps the partition |
| `PoolMap.LimitedPoolAllocator.Allocate` | libuavcan/src/uc_dynamic_memory.cpp:12-23 | a refused attempt is counted, so the count is the blocks out plus the refusals; a block comes if and only if the count is below the limit and the pool has one |
| `PoolMap.LimitedPoolAllocator.Deallocate` | libuavcan/src/uc_dynamic_memory.cpp:25-34 | count and outstanding blocks go down together |
| `PoolMap.CountExact` | libuavcan/src/uc_dynamic_memory.cpp:12-34 | over every run the count exceeds the blocks out by exactly the number of refusals, which never goes down |
| `PoolMap.Exhausted` | libuavcan/src/uc_dynamic_memory.cpp:12-34 | after as many refusals as the limit allows blocks, nothing is ever granted again |
| `PoolMap.Map.FindKey` | libuavcan/include/uavcan/util/map.hpp:183-197 | finds the slot of a key, or a free slot, if and only if there is one |
| `PoolMap.Map.Access` | libuavcan/include/uavcan/util/map.hpp:224-230 | gives the value that the finite map gives |
| `PoolMap.Map.Compact` | libuavcan/include/uavcan/util/map.hpp:199-222 | every empty group's block goes back to the pool and the contents stay |
| `PoolMap.Map.Remove` | libuavcan/include/uavcan/util/map.hpp:255-265 | removes the key from the finite map, leaves no empty group, and leaves a free slot or a free block |
| `PoolMap.Map.Insert` | libuavcan/include/uavcan/util/map.hpp:232-253 | refines the map update; replacing a key never fails even when the pool is exhausted, and a failed insertion changes nothing |
| `Multisets.PlaceItems` | libuavcan/include/uavcan/util/multiset.hpp:341-366 | a new item stands at its position in the enumeration, and the order of the others stays |
| `Multisets.OneSlot` | libuavcan/include/uavcan/util/multiset.hpp:73-76 | with one slot per chunk a new item always comes first |
| `Multisets.PlaceAllItems` | libuavcan/include/uavcan/util/multiset.hpp:341-366 | a container filled from empty enumerates the newest chunk first, each chunk in order of arrival |
| `Multisets.EnumeratedAt` | libuavcan/include/uavcan/util/multiset.hpp:341-366 | which item stands at which place of that enumeration |
| `Multisets.WithoutFirstItems` | libuavcan/include/uavcan/util/multiset.hpp:393-433 | removal by a search takes the first item that the enumeration meets, and no other |
| `Multisets.KeptItems` | libuavcan/include/uavcan/util/multiset.hpp:393-433 | removal of all items with a property keeps the others in order |
| `Multisets.CompactItems` | libuavcan/include/uavcan/util/multiset.hpp:368-391 | giving back empty chunks changes no item |
| `Multisets.Multiset.Emplace` | libuavcan/include/uavcan/util/multiset.hpp:341-366 | the item is placed in the first free slot or a new chunk; refused if and only if no slot is free and no block is granted |
| `Multisets.Multiset.CompactAll` | libuavcan/include/uavcan/util/multiset.hpp:368-391 | the loop gives back exactly the empty chunks |
| `Multisets.Multiset.RemoveFirstWhere` | libuavcan/include/uavcan/util/multiset.hpp:393-433 | the object removes the first item with the property in the order of enumeration |
| `Multisets.Multiset.RemoveAllWhere` | libuavcan/include/uavcan/util/multiset.hpp:393-433 | the object keeps exactly the items without the property |
| `Multisets.Multiset.GetByIndex` | libuavcan/include/uavcan/util/multiset.hpp:313-317 | the item at that place of the enumeration, or nothing |
| `Multisets.Multiset.AssignByIndex` | libuavcan/src/transport/uc_can_acceptance_filter_configurator.cpp:95-96 | assignment through the found item changes it alone and keeps every place |
| `Scheduler.DueTimesExact` | libuavcan/src/node/uc_timer.cpp:13-26 | a periodic timer owes floor((now - d) / p) + 1 events, at exactly d, d + p, d + 2p and so on |
| `Scheduler.AdvancedExact` | libuavcan/src/node/uc_timer.cpp:13-26 | it then waits for the next multiple of its period, and a one-shot timer is gone |
| `Scheduler.NoDrift` | libuavcan/src/node/uc_timer.cpp:13-26 | polling late, often or seldom makes no difference to the events owed |
| `Scheduler.PollExact` | libuavcan/src/node/uc_scheduler.cpp:87-114 | a poll gives every registered timer exactly the events it owes and leaves it registered where it should be |
| `Scheduler.PollSilent` | libuavcan/src/node/uc_scheduler.cpp:87-114 | nothing fires for a timer that is not registered |
| `Scheduler.PollOrder` | libuavcan/src/node/uc_scheduler.cpp:87-114 | events come in the order of their scheduled times, none early, and every deadline left is in the future |
| `Scheduler.DeadlineScheduler.Add` | libuavcan/src/node/uc_scheduler.cpp:50-54 | the list stays sorted |
| `Scheduler.DeadlineScheduler.Remove` | libuavcan/src/node/uc_scheduler.cpp:56-60 | exactly the named handler goes |
| `Scheduler.DeadlineScheduler.PollAndGetMonotonicTime` | libuavcan/src/node/uc_scheduler.cpp:87-114 | for any clock readings, on return every deadline left is later than the returned time |
| `Scheduler.DeadlineScheduler.PollAt` | libuavcan/src/node/uc_scheduler.cpp:87-114 | with a clock that stands still and positive periods the poll ends, with the events and handlers of the poll function |
| `TimeSync.GlobalTimeSyncSlave.ProcessMsg` | libuavcan/include/uavcan/protocol/global_time_sync_slave.hpp:47-122 | the slave refines the step function; suppressed mode only withholds the adjustment |
| `TimeSync.AdjustmentOrigin` | libuavcan/include/uavcan/protocol/global_time_sync_slave.hpp:77-122 | in any run every adjustment is a carried time minus the reception time of one earlier message of the same master and interface, with the previous transfer ID, within the longest period |
| `TimeSync.MasterRises` | libuavcan/include/uavcan/protocol/global_time_sync_slave.hpp:77-95 | the followed master ID rises if and only if a message of a greater ID comes more than the timeout after the last message that the slave stored |
| `TimeSync.HeardSinceUpdate` | libuavcan/include/uavcan/protocol/global_time_sync_slave.hpp:47-122 | since that message the slave has had at most one more from the followed master on that interface, the one it adjusted from, and none of a smaller ID |
| `TimeSync.RisesThoughUsed` | libuavcan/include/uavcan/protocol/global_time_sync_slave.hpp:47-62 | the timeout is no measure of silence: the slave leaves a master that it heard and used 1.3 seconds before |
| `TimeSync.RisesThoughHeard` | libuavcan/include/uavcan/protocol/global_time_sync_slave.hpp:92-121 | the same for a master heard on another interface a tenth of a second before |
| `TimeSync.IfaceMaster.SetTxTimestamp` | libuavcan/include/uavcan/protocol/global_time_sync_master.hpp:60-75 | a second report for one publication discredits both |
| `TimeSync.IfaceMaster.PublishMsg` | libuavcan/include/uavcan/protocol/global_time_sync_master.hpp:77-95 | carries the stored time unless the period was too long, and forgets it |
| `TimeSync.GlobalTimeSyncMaster.PublishRequest` | libuavcan/include/uavcan/protocol/global_time_sync_master.hpp:221-234 | the publications of all requests so far are those that the limit grants |
| `TimeSync.GrantedSpaced` | libuavcan/include/uavcan/protocol/global_time_sync_master.hpp:221-234 | however often publishing is requested, publications keep the minimum interval |
| `TimeSync.GrantedPrompt` | libuavcan/include/uavcan/protocol/global_time_sync_master.hpp:221-234 | at every request, less than the minimum interval has passed since the last publication, that request included |
| `TimeSync.CarriesPrevious` | libuavcan/include/uavcan/protocol/global_time_sync_master.hpp:60-95 | in any run in which the report precedes the next publication, a message carries its predecessor's transmission time or nothing |
| `TimeSync.Neighbours` | libuavcan/include/uavcan/protocol/global_time_sync_master.hpp:123-142 | consecutive transfer IDs within the longest period mean neighbouring publications, across wrap-around and forgotten registry entries |
| `TimeSync.SameFrame` | libuavcan/include/uavcan/protocol/global_time_sync_slave.hpp:47-122 | both times of every adjustment belong to one and the same frame, across lost messages, other masters and other interfaces |
| `ServiceClient.Conservation` | libuavcan/include/uavcan/node/service_client.hpp:418-568 | with one call per pool block, over every run, the accepted calls are exactly the calls that ended, each once, and the calls still pending |
| `ServiceClient.SlotsExact` | libuavcan/include/uavcan/node/service_client.hpp:234 | every run of a new client conserves calls in this sense if and only if a block holds one call |
| `ServiceClient.CleanConservation` | libuavcan/include/uavcan/node/service_client.hpp:418-568 | with any number of calls per block, every run without a collision does |
| `ServiceClient.CallFaithful` | libuavcan/include/uavcan/node/service_client.hpp:494-551 | a call keeps that account if and only if it is not a failed request that finds a pending call of its ID before the slot it got itself |
| `ServiceClient.MakeCallExact` | libuavcan/include/uavcan/node/service_client.hpp:464-561 | what every call does to the account: nothing, one call more, or on a collision the new call in place of the old |
| `ServiceClient.CollisionSwaps` | libuavcan/include/uavcan/node/service_client.hpp:543-561 | the failing input for two or more calls per block: the accepted call never ends and the refused one is still pending |
| `ServiceClient.NoSecondCallback` | libuavcan/include/uavcan/node/service_client.hpp:428-463 | in every run no call gets two callbacks, nor one after its cancellation, and a pending call has had none |
| `ServiceClient.ResponseCompletes` | libuavcan/include/uavcan/node/service_client.hpp:418-437 | a response that is heard completes the first pending call, in the order of the registry, with its ID that has not timed out, and otherwise changes nothing |
| `ServiceClient.SweepEnds` | libuavcan/include/uavcan/node/service_client.hpp:440-463 | the shared deadline calls back exactly the timed-out calls and drops them, also when callbacks make new calls |
| `ServiceClient.CallListening` | libuavcan/include/uavcan/node/service_client.hpp:464-485 | a call leaves pending calls unheard if and only if it needs a block that is refused while others are pending |
| `ServiceClient.KeepsListening` | libuavcan/include/uavcan/node/service_client.hpp:440-568 | nothing else does: responses, expiry, cancellation, and the shared deadline with the calls it makes, given memory |
| `ServiceClient.DeafRun` | libuavcan/include/uavcan/node/service_client.hpp:464-485 | once unheard, no call succeeds, whatever is answered and whatever new calls are made, until none is pending |
| `ServiceClient.RefusalDeafens` | libuavcan/include/uavcan/node/service_client.hpp:464-485 | the failing input: the response to a pending call goes unheard after another call ran out of memory |
| `ServiceClient.Registry.ShouldAcceptFrame` | libuavcan/include/uavcan/node/service_client.hpp:418-426 | a response frame is accepted if and only if a call with its ID is pending and not timed out |
| `ServiceClient.Registry.StartCall` | libuavcan/include/uavcan/node/service_client.hpp:464-485 | the subscriber starts with the first call, which gets the first free slot or a new block in front; a refused block stops it and adds nothing |
| `ServiceClient.Registry.PlaceCall` | libuavcan/include/uavcan/node/service_client.hpp:494-551 | a call is accepted only when its request went out; otherwise it is taken back |
| `ServiceClient.Registry.CancelCall` | libuavcan/include/uavcan/node/service_client.hpp:553-561 | the first matching call in the order of the registry goes, and the subscriber stops with the last one |
| `ServiceClient.Registry.HandleReceivedDataStruct` | libuavcan/include/uavcan/node/service_client.hpp:428-437 | the object refines the response function of the runs |
| `ServiceClient.Registry.HandleDeadline` | libuavcan/include/uavcan/node/service_client.hpp:440-463 | the object refines the sweep function of the runs, calls placed by callbacks included |
| `ServiceClient.CollectExpired` | libuavcan/include/uavcan/node/service_client.hpp:440-456 | the loop calls back the timed-out calls in the order of the registry |
| `RoundRobin.Fair` | libuavcan/include/uavcan/protocol/node_info_retriever.hpp:199-229 | a node that is eligible at every turn is chosen after at most its cyclic distance, which is at most 127 turns, whatever else is eligible |
| `RoundRobin.NodeInfoRetriever.PickNextNodeToQuery` | libuavcan/include/uavcan/protocol/node_info_retriever.hpp:199-229 | chooses the next eligible node in cyclic order, or tells exactly whether any request is still needed |
| `RoundRobin.NodeInfoRetriever.HandleTimerEvent` | libuavcan/include/uavcan/protocol/node_info_retriever.hpp:231-254 | queries the node next in turn, and stops the timer only when no request is needed |
| `RoundRobin.NodeInfoRetriever.HandleNodeStatusChange` | libuavcan/include/uavcan/protocol/node_info_retriever.hpp:256-281 | keeps: a request still needed implies a running timer |
| `RoundRobin.NodeInfoRetriever.HandleNodeStatusMessage` | libuavcan/include/uavcan/protocol/node_info_retriever.hpp:283-299 | the same; a decreasing uptime asks for a new request |
| `RoundRobin.NodeInfoRetriever.HandleGetNodeInfoResponse` | libuavcan/include/uavcan/protocol/node_info_retriever.hpp:301-329 | keeps the same; success ends the requests, a failure counts, and the one that reaches the limit ends them |
| `RoundRobin.GivesUp` | libuavcan/include/uavcan/protocol/node_info_retriever.hpp:301-329 | a node that never answers is asked exactly as often as the limit says, and for ever without a limit |
| `RoundRobin.NodeInfoRetriever.InvalidateAll` | libuavcan/include/uavcan/protocol/node_info_retriever.hpp:370-380 | the same; every entry is reset |
| `RoundRobin.FirmwareUpdateTrigger.Search` | libuavcan/include/uavcan/protocol/firmware_update_trigger.hpp:147-168 | the smallest eligible ID above the last one, from an unordered map |
| `RoundRobin.FirmwareUpdateTrigger.PickNextNodeId` | libuavcan/include/uavcan/protocol/firmware_update_trigger.hpp:243-276 | chooses the same node in cyclic order as the array picker would |

## Left out

- Listener.TransferListener.HandleReception: performance counters are not modelled, because no decision depends on them.
- Listener.TransferListener.HandleFrame: performance counters and the transfer object passed to the application are not modelled; the linked list of the buffer manager is a map from keys to buffers, and receivers are values in a map.
- TransferBuffer.TransferBufferManagerEntry.Write: a write that leaves a gap is specified only as to the bytes it stores, because the skipped bytes have no defined value.
- Redundancy.ExactlyOnce: requires that the receiver holds no leftover buffer; what a leftover does is the subject of EndToEnd.StaleBuffer.
- EndToEnd.Fidelity: assumes a bus without loss or reordering on one interface, and payloads within the receive buffer, which is what the library promises delivery for.
- SquareMatrix.RoundTrip: integer elements; NaN, fuzzy comparison and rounding of floating-point elements are not modelled.
- CanIo.CanIOManager.Send: the frames shown to the driver before select are not modelled, since the driver may do anything with them; interfaces and queues are values.
- Routing.ListenerRegistry.HandleFrame: callbacks that change the listener list during the scan are not modelled.
- SmallHardware.OutsideLost: a condition for loss, and SmallHardware.SurroundedCovered one for coverage; between the two the outcome on hardware with fewer than 258 filters depends on the single merges, and no closed condition is given.
- Filters.CanAcceptanceFilterConfigurator.MergeConfigurations: reads all filters at once where the source looks each up by index.
- Scheduler.DeadlineScheduler.PollAt: timer callbacks that start or stop timers are not modelled.
- ServiceClient.Conservation: timeout callbacks may make calls but do not cancel others, which the source leaves open; response decoding and the data type registry are not modelled. How many calls a block holds is a parameter; with the default block sizes it is one.
- TimeSync.SameFrame: assumes that the transmission report precedes the next publication, and a latency of at most the minimum period less one millisecond; the periods are parameters, related by 32 minimum periods being no shorter than the maximum one.
- The map over pool blocks: removal by predicate, iteration and lookup by index are not modelled; sizes of blocks and slots are parameters.
- Multisets.Multiset.Emplace: chunks are sequences of slots on a sequence, not linked nodes, and the pool is an answer given with the call; removal of items while a loop over them runs is not modelled.
- The intrusive list is not modelled as linked nodes; its users see it as a sequence.
- Receiving on the CAN interface manager, the dispatcher's spin loops and the scheduler's spin loop are not part of this model.
- Half-float conversion, compound types generated from DSDL, and text formatting are not part of this model.
- Publishers, subscribers and generic servers, parameter, file and node status protocols, dynamic node ID allocation and the platform drivers are not part of this model.
- Byte order conversion on big-endian machines is not part of this model.
- Integers are unbounded except where a counter's width decides behaviour: transfer IDs, error counts, rejected frame counts and attempt counts wrap or saturate as in the source; time does not wrap.
