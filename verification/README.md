# RXU01 receiver: a verified model

RXU01 takes packets over ESP-NOW from one peer, the TXU01, decodes them, keeps
retransmissions from being executed twice, routes each command to a CAN frame, hands the
frame to an MCP2515 controller, and acknowledges what came of it. This project models that
path from the radio callback to the controller's registers and proves what it promises.

One module stands for one part of the program; the modules whose names end in `Runs`,
`Theorems`, `Errors`, `Bursts` or `Detection` state what follows from it.

| module | part |
|---|---|
| `Gf2`, `Crc`, `ErrorDetection` | the check word: the loop on machine words, its meaning as polynomial division over GF(2), and the errors it cannot miss |
| `RemoteProtocol`, `PacketErrors`, `PacketBursts` | encoder and decoder, their round trips, and error detection on the bytes on the air |
| `CanCommandRouter`, `VehicleCanProtocol` | table validation, lookup, frame construction; the shipped tables and the grammar of the bus |
| `CanFrames`, `Mcp2515`, `CanManager` | identifier packing and register images; the driver against a chip that moves on its own; the manager's status chain |
| `EspNowCanGateway`, `GatewayRuns` | message processing, the transmit callback, and the counters over every life of a gateway |
| `EspNowDriver`, `QueueRuns`, `QueueRounds` | the receive queue under every interleaving of callback and receiver, and round by round as the main loop uses it |
| `RequestCache`, `Application` | the duplicate cache and the handling of one packet |
| `ReceiverRuns`, `ReceiverTheorems` | whole runs of the receiver |
| `BusRecord`, `MainLoop` | what the controller's record holds of the frames handed over; start-up and main loop, from the radio callback to that record |
| `Timer`, `Counters`, `Options` | the microsecond timer; 32-bit counters; optional values |

Code that works by changing things step by step is modelled by classes and methods with
loops, each proved against a specification function; theorems about whole runs are lemmas
over those functions. `Application.Receiver.ProcessReceivedPacket` is proved to do exactly
`Application.Step`, and `ReceiverRuns.Run` is the repetition of `Step`. The methods of
`MainLoop` close the circle: what is taken from the queue is a function of what arrives
(`QueueRounds.EventsOf`), the loop is proved to live through a `Run` over exactly those packets,
from a cache that start-up makes fresh, and the controller's own record of transfers and ended
requests holds the frames of that run and nothing else.

How the outside world enters:

- The timer never runs backwards. A reading may be any amount later than the one before,
  and a bus transfer takes at least one microsecond. The bound on polling rests on that
  microsecond alone and not on the driver's delay of 1 ms, which is zero ticks at the
  configured tick rate of 100 Hz (`sdkconfig.esp32-c3-devkitm-1:2053`).
- The chip may change its registers before every bus transfer in any way, except that it
  never sets a transmit request and never changes a loaded frame (`Mcp2515.ChipMove`).
- `Application.World` collects what one packet meets: the timer reading at each slot of the
  cache, the reading at insertion, and the answer of the transmit callback. The run theorems
  hold for all worlds whose readings are in order.
- Packets are arbitrary byte strings from arbitrary senders in arbitrary order.

## Results worth knowing

- **The ring is a log.** Over every run the 16-slot ring with lazy expiry, timer readings slot
  by slot, early return and wrap-around executes, transmits and acknowledges exactly what a
  receiver would that keeps a log of all executions and consults the last 16
  (`ReceiverRuns.RingRefinesLog`). Executing at most once, replaying exactly and telling the
  truth follow from it.
- **A burst across the boundary of payload and check bytes can go unseen.** The check bytes
  are sent low byte first, so the usual guarantee for bursts of up to 16 bits stops at the end
  of the payload. `PacketErrors.StraddlingBurstUnseen` gives 13 consecutive bits that pass
  unseen in every accepted packet with a payload. `PacketBursts.BurstUnseenIff` says exactly
  which bursts do: of all changes within 16 consecutive bits anywhere in a packet, twelve
  patterns across that boundary, listed in `PacketBursts.UnseenBurst`, and no others. Changes of
  any one byte, changes of the check bytes alone, and any one, two or three flipped bits are
  always detected.
- **Every answer is true.** `MainLoop.RunApplication` states it for every life of the program:
  behind every answer except InvalidMessage stands an execution no later than the answer, of the
  very same bytes. Behind CanTransmitted, CanBusy and CanTimeout there is in the controller's
  record one complete send of the frame routed for them that ended so, and for CanTransmitted, in
  the buffer that send chose, a request for exactly its registers that the chip ended. No two
  executions share any of it. InvalidMessage is answered exactly when a sequence number is reused
  too early for another packet (`ReceiverTheorems.InvalidMessageIffCollision`).
- **Exactly the safe frames can be reached.** With the shipped tables nothing but safe frames gets
  out (`ReceiverTheorems.FramesAreAskedFor`), and every safe frame does for bytes that are written
  out (`ReceiverTheorems.CommandReaches`). `ReceiverTheorems.FramesIff` says for every packet
  whether it adds a frame, from its bytes alone and the executions before it.
- **Nothing else is sent.** The controller's record since start is, in order, one complete send
  for every frame handed over (`BusRecord.OnlySends`); with the shipped tables every load ever
  written is the registers of a safe data frame (`MainLoop.LoadsAreSafe`), and what the chip reads
  out of loaded registers is the frame they were loaded for (`CanFrames.LoadedIsSent`).
- **A timeout does not say that the frame was not sent.** The chip may end the request between
  the last poll and the withdrawal; `Mcp2515.TimeoutAfterEnd` gives such an exchange for every
  frame and every register file with an idle buffer, with both error flags clear. What a timeout
  does say is exact: the chip has ended the request if and only if the withdrawal found it gone (`Mcp2515.Driver.SendTo`,
  `Mcp2515.Driver.Send`, `Mcp2515.TimeoutEndedIff`). The driver does not look, so its caller is
  not told.

## Model

| member | source | states |
|---|---|---|
| `Crc.CalculateCrc16` | src/remote_protocol/remote_protocol.cpp:88-130 | the loop over the bytes computes the recursive check word of the first `length` bytes; a null pointer gives 0, or the preset when the length is 0 |
| `Crc.ShiftByte` | src/remote_protocol/remote_protocol.cpp:113-126 | the inner loop is eight shift steps |
| `Crc.CrcFeeds` | src/remote_protocol/remote_protocol.cpp:98-129 | bit for bit, the check word is what the bits of the data, most significant first, leave in a serial register preset to ones |
| `Crc.CrcIsRemainder` | src/remote_protocol/remote_protocol.cpp:98-129 | a word is the check word if and only if it completes the message, its first 16 bits complemented, to a multiple of x^16 + x^12 + x^5 + 1 |
| `Crc.NoEarlyReturn` | src/remote_protocol/remote_protocol.cpp:113-126 | the shift step, started from the generator's feedback, does not come back to the top bit within 608 steps, the length of the longest packet in bits |
| `Gf2.FeedLinear` | src/remote_protocol/remote_protocol.cpp:98-129 | the register is linear over GF(2): runs over two messages differ by the run over their difference |
| `Gf2.FeedInjective` | src/remote_protocol/remote_protocol.cpp:113-126 | the shift step can be undone: equal registers after equal bits were equal before |
| `Gf2.FeedParity` | src/remote_protocol/remote_protocol.cpp:113-126 | every step keeps the parity of the register and the bits fed |
| `Gf2.Division` | src/remote_protocol/remote_protocol.cpp:98-129 | message times x^16 plus the register is the quotient times the generator |
| `ErrorDetection.TwoFlipsSeen` | src/remote_protocol/remote_protocol.cpp:98-129 | two flipped bits within 608 never cancel |
| `ErrorDetection.Distance` | src/remote_protocol/remote_protocol.cpp:98-129 | code words of at most 608 bits differ in an even number of bits, and in at least four if their data differ |
| `ErrorDetection.UnseenBurstIsEmpty` | src/remote_protocol/remote_protocol.cpp:98-129 | a difference within 16 consecutive bits that the check word accounts for is no difference in the data |
| `RemoteProtocol.JoinSplit` | src/remote_protocol/remote_protocol.cpp:17-39 | reading a written little-endian word gives the word back |
| `RemoteProtocol.SplitJoin` | src/remote_protocol/remote_protocol.cpp:17-39 | writing a read little-endian word gives its two bytes back |
| `RemoteProtocol.Encode` | src/remote_protocol/remote_protocol.cpp:132-226 | the result is the first failed check; on success exactly the packet is written and no byte behind it changes; on failure no byte changes and no length is reported |
| `RemoteProtocol.EncodeStatusIff` | src/remote_protocol/remote_protocol.cpp:132-175 | each encoding error is reported if and only if type, flags, length or capacity are wrong and nothing checked before is; success if and only if type is 1 to 5, flags have only the two lowest bits, the payload at most 64 bytes and the output room for 12 more |
| `RemoteProtocol.PacketIs` | src/remote_protocol/remote_protocol.cpp:177-225 | the packet byte by byte: 0x52 0x43, version 1, type, flags, sequence number and message id low byte first, length, payload, check word low byte first |
| `RemoteProtocol.WritePacket` | src/remote_protocol/remote_protocol.cpp:177-225 | header, payload and check bytes are in place and nothing behind them changes |
| `RemoteProtocol.Decode` | src/remote_protocol/remote_protocol.cpp:228-346 | the result is the first failed check of the bytes, or their message; a rejected packet leaves the caller's message as it was |
| `RemoteProtocol.DecodeEncode` | src/remote_protocol/remote_protocol.cpp:132-346 | decoding an encoded message gives it back with the bytes past its payload zeroed |
| `RemoteProtocol.EncodeDecode` | src/remote_protocol/remote_protocol.cpp:132-346 | encoding a decoded message gives the packet back byte for byte |
| `RemoteProtocol.AcceptedIffEncoded` | src/remote_protocol/remote_protocol.cpp:132-346 | the decoder accepts a packet if and only if the encoder produces it |
| `RemoteProtocol.AcceptedIff` | src/remote_protocol/remote_protocol.cpp:228-317 | a packet is accepted if and only if it starts 0x52 0x43 0x01, its type is 1 to 5, its flags have only the two lowest bits, its length byte is at most 64 and its size 12 more, and its last two bytes are the check word of the rest |
| `RemoteProtocol.RejectedIff` | src/remote_protocol/remote_protocol.cpp:228-317 | each of the eight reasons for rejecting is given if and only if it is the first thing wrong with the bytes |
| `RemoteProtocol.AcceptedSays` | src/remote_protocol/remote_protocol.cpp:319-346 | every field of an accepted packet is the bytes at its place, words low byte first, the rest of the payload zeros |
| `PacketErrors.UnseenChangeIff` | src/remote_protocol/remote_protocol.cpp:288-317 | a change of an accepted packet that keeps its framing goes unseen if and only if the change of the check word is the register fed with the change of the data |
| `PacketErrors.MinimumDistance` | src/remote_protocol/remote_protocol.cpp:288-317 | different accepted packets of one length differ in an even number of bits and in at least four |
| `PacketErrors.EvenWeight` | src/remote_protocol/remote_protocol.cpp:288-317 | every accepted packet, hence every encoded one, has an even number of one bits |
| `PacketErrors.BurstDetected` | src/remote_protocol/remote_protocol.cpp:288-317 | a change within 16 consecutive bits of header and payload makes the decoder reject |
| `PacketErrors.ByteChangeDetected` | src/remote_protocol/remote_protocol.cpp:288-317 | a change of any one byte, check bytes included, makes the decoder reject |
| `PacketErrors.StraddlingBurstUnseen` | src/remote_protocol/remote_protocol.cpp:300-317 | 13 consecutive flipped bits across the boundary of payload and check bytes go unseen, in every accepted packet with a payload |
| `PacketBursts.BurstUnseenIff` | src/remote_protocol/remote_protocol.cpp:288-317 | a change within 16 consecutive bits anywhere in an accepted packet goes unseen if and only if it keeps the framing and is one of twelve patterns across the boundary of the check bytes |
| `PacketBursts.CheckChangeDetected` | src/remote_protocol/remote_protocol.cpp:300-317 | a change confined to the check bytes makes the decoder reject |
| `CanCommandRouter.FindEcu` | src/can_command_router/can_command_router.cpp:17-32 | finds the first unit with the id, or none if none is registered |
| `CanCommandRouter.FindRoute` | src/can_command_router/can_command_router.cpp:34-50 | finds the first route with the message id, or none if there is none |
| `CanCommandRouter.IsValidConfig` | src/can_command_router/can_command_router.cpp:55-124 | true if and only if both tables are there and not empty, unit ids are nonzero and unique with identifiers in range, message ids are nonzero and unique, and every route's destination is its id's high byte and registered, its length at most 7 and its validator there |
| `CanCommandRouter.ValidConfigIff` | src/can_command_router/can_command_router.cpp:55-124 | that condition with its numbers: unit ids not 0, identifiers up to 0x1FFFFFFF or 0x7FF, message ids not 0, destination the upper byte, at most 7 argument bytes |
| `CanCommandRouter.CheckRegistry` | src/can_command_router/can_command_router.cpp:65-87 | the nested loop over the units decides the registry's part of that condition |
| `CanCommandRouter.CheckRoutes` | src/can_command_router/can_command_router.cpp:89-121 | the nested loop over the routes decides the routes' part of it |
| `CanCommandRouter.BuildFrame` | src/can_command_router/can_command_router.cpp:126-190 | the frame is the routing of the message, or the result is the first failed check and the frame is cleared |
| `CanCommandRouter.RoutedIff` | src/can_command_router/can_command_router.cpp:17-50 | for valid tables a frame is built if and only if some route and some unit in the tables fit the message, and it is theirs: first match is membership |
| `CanCommandRouter.RefusedIff` | src/can_command_router/can_command_router.cpp:131-166 | for valid tables each refusal is reported if and only if it is what is wrong: no command, no route with the id, a route with the id and another length, a route with id and length whose validator rejects the payload |
| `CanCommandRouter.ConfigurationErrorIff` | src/can_command_router/can_command_router.cpp:168-173 | the configuration error is reported for invalid tables and nothing else: the late branch for a missing unit is never taken |
| `CanCommandRouter.OrderDoesNotMatter` | src/can_command_router/can_command_router.cpp:17-190 | permuting either table changes neither its validity nor any frame |
| `VehicleCanProtocol.ShippedTablesAreValid` | src/vehicle_can_protocol/vehicle_can_protocol.cpp:113-190 | the shipped tables pass validation |
| `VehicleCanProtocol.RoutedFramesAreSafe` | src/vehicle_can_protocol/vehicle_can_protocol.cpp:21-178 | every frame of the shipped tables has identifier 0x101 in standard format, one of five commands with exactly its arguments in range, never both direction indicators on, zeros behind, and tells its message id and payload |
| `VehicleCanProtocol.SafeFramesAreRouted` | src/vehicle_can_protocol/vehicle_can_protocol.cpp:21-178 | every such frame is the routing of a message, which is given |
| `VehicleCanProtocol.BusGrammar` | src/vehicle_can_protocol/vehicle_can_protocol.cpp:21-178 | the frames the shipped tables can emit are exactly the safe ones |
| `VehicleCanProtocol.CommandIsRouted` | src/vehicle_can_protocol/vehicle_can_protocol.cpp:21-178 | for every safe frame the bytes that ask for it are given: under any sequence number, with or without an acknowledgement, they decode to a message routed to exactly that frame |
| `VehicleCanProtocol.FrameDeterminesCommand` | src/vehicle_can_protocol/vehicle_can_protocol.cpp:113-178 | two messages routed to one frame have one message id and one payload |
| `CanFrames.PrepareId` | src/mcp2515/mcp2515.cpp:624-645 | the four identifier registers are in the chip's layout, bit by bit, and the rest of the buffer is as it was |
| `CanFrames.ReadIdUndoes` | src/mcp2515/mcp2515.cpp:808-825 | for every 29-bit and every 11-bit identifier the receive path's formula undoes the packing |
| `CanFrames.PackedAlikeIff` | src/mcp2515/mcp2515.cpp:624-645 | two identifiers of one format are packed alike if and only if they agree in their low 29 or 11 bits |
| `CanFrames.BuildImage` | src/mcp2515/mcp2515.cpp:729-739 | the buffer filled in place is identifier, length with remote flag, data |
| `CanFrames.RegisterRoundTrip` | src/mcp2515/mcp2515.cpp:729-841 | every frame of at most eight bytes whose identifier word has no bit outside identifier and flags survives the registers: the receive path reads what was loaded |
| `CanFrames.DlcBits` | src/mcp2515/mcp2515.cpp:737 | the length register holds the length, bit 6 if and only if the frame is a remote frame, and nothing else |
| `CanFrames.LoadedIsSent` | src/mcp2515/mcp2515.cpp:729-741 | what the chip reads out of the loaded registers and puts on the wire is the frame: format, identifier, remote flag, length and data, none with a remote frame; bits without a meaning are zeros |
| `Mcp2515.Chip.ReadRegister` | src/mcp2515/mcp2515.cpp:90-115 | one read transfer returns the register after the chip's move, and takes time |
| `Mcp2515.Chip.ReadRegisters` | src/mcp2515/mcp2515.cpp:117-150 | one sequential read transfer, and which requests the chip ended before it |
| `Mcp2515.Chip.SetRegisters` | src/mcp2515/mcp2515.cpp:174-204 | one sequential write transfer changes exactly the addressed registers of what it found, after the chip's move and the requests it ended |
| `Mcp2515.Chip.ModifyRegister` | src/mcp2515/mcp2515.cpp:206-229 | one bit-modify transfer changes exactly the masked bits of one register, records what it held, and tells which requests the chip ended before it |
| `Mcp2515.Driver.Send` | src/mcp2515/mcp2515.cpp:781-806 | the transfers seen by the chip are the scan for the first idle buffer and one exchange with it; the other two buffers keep their frames; in the chosen buffer the chip ended during the call the request pending at its start, if there was one, and the frame's own request if and only if the send did not time out or its withdrawal found the request gone, each exactly once |
| `Mcp2515.Driver.SendTo` | src/mcp2515/mcp2515.cpp:717-779 | load, clear old results, request, poll, and withdraw on timeout, in this order and nothing else; at most 1000 polls per millisecond of timeout and one more; a timeout is not reported before the deadline, and leaves no request pending; the chip ended the frame's request if and only if the send did not time out or its withdrawal found the request gone |
| `Mcp2515.Driver.Load` | src/mcp2515/mcp2515.cpp:741-749 | the buffer holds the image, its request is pending, the other buffers are as they were |
| `Mcp2515.Driver.Poll` | src/mcp2515/mcp2515.cpp:751-778 | terminates with the time left to the deadline as measure; only the last polled value shows no request, or the deadline has passed; the result is the one the last value calls for; the chip ends no request of the buffer before that, and after a timeout it has ended one if and only if the withdrawal found it gone |
| `Mcp2515.Driver.Withdraw` | src/mcp2515/mcp2515.cpp:770-775 | the request is cleared and all loaded frames are as they were; the chip had ended the request if and only if the clearing found it gone |
| `Mcp2515.Driver.ReadMessage` | src/mcp2515/mcp2515.cpp:808-846 | header from 0x61, control register 0x60 and data from 0x66, each 0x10 higher for the second buffer, are read and the buffer's bit in register 0x2C is cleared, in this order; more than eight bytes is an error that changes nothing; the data bytes past the length are as they were |
| `Mcp2515.SendTraceIsSafe` | src/mcp2515/mcp2515.cpp:717-806 | in every reported send, only the chosen buffer is written, it is loaded and its request is set only while none is pending in it, nothing is written when all are busy, a timeout ends with the withdrawal as last transfer, and success with a poll that shows request and both error flags clear |
| `Mcp2515.SendTraceMeans` | src/mcp2515/mcp2515.cpp:717-806 | a reported send transfer by transfer, with register addresses and masks as numbers: the scan of registers 0x30, 0x40 and 0x50, the load, clearing, request, polls and withdrawal; the last polled value decides: bit 3 set if and only if the result is a timeout, otherwise bit 6 or bit 4 set if and only if it is a failure |
| `Mcp2515.TimeoutEndedIff` | src/mcp2515/mcp2515.cpp:768-776 | after a timeout in a buffer idle at the start, the chip has ended a request of that buffer if and only if the withdrawal found it gone |
| `Mcp2515.TimeoutAfterEnd` | src/mcp2515/mcp2515.cpp:717-806 | from every register file with an idle buffer and for every frame, an exchange of the driver in which the request is pending at the poll, a permitted move of the chip then ends it without error, and the report is a timeout all the same |
| `Mcp2515.NoEndWithoutRequest` | src/mcp2515/mcp2515.cpp:770-775 | what is assumed of the chip, over any number of its moves: no request of a buffer ends until the driver sets one |
| `CanManager.Manager.Send` | src/can_manager/can_manager.cpp:71-102 | a manager that is not initialised, or a frame that is too long, touches no register; any other result is the end of exactly one complete send, as reported by the driver, and success means that the chip ended a request for this frame |
| `EspNowCanGateway.TransmitCanFrame` | src/application/application.cpp:79-142 | without a manager, or when it refuses, the answer is a failure and the chip saw nothing; otherwise the chip saw one complete send of the frame and the answer tells busy, timeout, success and failure apart as the driver did |
| `EspNowCanGateway.RegistersHoldTheCommand` | src/application/application.cpp:97-113 | for valid tables the registers loaded for a routed command read back, by the receive path's formula, as the configured identifier and format of the destination unit and the command byte followed by the arguments; the length register is the number of those bytes and nothing else |
| `EspNowCanGateway.CommandOnTheWire` | src/application/application.cpp:97-113 | what the chip sends for a routed command is a data frame with identifier and format of a registered unit, and in it the command byte of the route in the tables for exactly this message id, followed by the message's arguments, as many as the route expects and good by its validator |
| `EspNowCanGateway.Gateway.Init` | src/esp_now_can_gateway/esp_now_can_gateway.cpp:57-76 | nothing happens on an initialised gateway; anything but a callback with valid tables is refused; otherwise the configuration is taken and the counters are zero |
| `EspNowCanGateway.Gateway.Deinit` | src/esp_now_can_gateway/esp_now_can_gateway.cpp:78-85 | back to the state at power-up |
| `EspNowCanGateway.Gateway.ResetStatistics` | src/esp_now_can_gateway/esp_now_can_gateway.cpp:175-178 | all counters are zero |
| `EspNowCanGateway.Gateway.ProcessMessage` | src/esp_now_can_gateway/esp_now_can_gateway.cpp:92-141 | state, result and the frame handed over are those of the specification for the callback's answer; the chip saw the transmission of exactly that frame, or nothing if there was none |
| `EspNowCanGateway.LetsThroughIff` | src/esp_now_can_gateway/esp_now_can_gateway.cpp:92-141 | an initialised gateway hands over a frame if and only if type is 1 to 5, flags have only the two lowest bits, the response bit is clear, the payload has at most 64 bytes and the message is routed to that frame; it reports InvalidMessage if and only if the message is not in that form; without initialisation nothing happens and the result is a failed transmission |
| `GatewayRuns.CountersAreTallies` | src/esp_now_can_gateway/esp_now_can_gateway.cpp:57-141 | over every sequence of initialisations, shutdowns, resets and messages each counter is, modulo 2^32, the number of its events since it was last at zero |
| `GatewayRuns.CountersBalance` | src/esp_now_can_gateway/esp_now_can_gateway.cpp:92-141 | modulo 2^32, refusals plus routed commands are the messages given to an initialised gateway, and frames sent plus transmit errors are the routed commands |
| `EspNowDriver.Driver.OnDataReceived` | src/esp_now_driver/esp_now_driver.cpp:87-145 | an arrival with sender, data and a length of 1 to 250 joins the queue with its sender, destination, signal strength and exactly that many bytes if there is room, and is counted as dropped, modulo 2^32, if not; any other changes nothing |
| `EspNowDriver.Driver.Receive` | src/esp_now_driver/esp_now_driver.cpp:417-431 | takes the oldest packet; on an empty queue it is woken by the first valid arrival and takes that, or times out if there is none; nothing without initialisation |
| `EspNowDriver.Driver.ClearQueues` | src/esp_now_driver/esp_now_driver.cpp:449-460 | empties the queue and leaves the counter |
| `EspNowDriver.Driver.ResetStatistics` | src/esp_now_driver/esp_now_driver.cpp:477-486 | zeroes the counter and leaves the queue |
| `QueueRuns.QueueKeepsOrder` | src/esp_now_driver/esp_now_driver.cpp:87-145 | under every interleaving, packets that left followed by packets queued are the packets accepted, in order, and the queue never exceeds its depth |
| `QueueRuns.CounterTellsDrops` | src/esp_now_driver/esp_now_driver.cpp:136-144 | the drop counter is, modulo 2^32, the number of packets dropped since its last reset |
| `QueueRuns.ArrivalsAreAccountedFor` | src/esp_now_driver/esp_now_driver.cpp:87-145 | every valid arrival has left the queue, is in it, or was dropped |
| `RequestCache.FirstHit` | src/application/application.cpp:238-263 | the first slot that is valid, not expired at its own reading, and has the key |
| `RequestCache.Cache.Find` | src/application/application.cpp:238-263 | for some readings in order, the result is the first such slot, expired slots up to it are cleared, and slots behind it are as they were |
| `RequestCache.Cache.Sweep` | src/application/application.cpp:243-249 | one slot is cleared if it has expired at the reading; all others are as they were |
| `RequestCache.Cache.Insert` | src/application/application.cpp:279-306 | exactly the slot at the index is replaced, by the request with its outcome, time and zeroed rest, and the index moves round the ring |
| `Application.Receiver.ProcessReceivedPacket` | src/application/application.cpp:363-475 | one packet changes cache, gateway, acknowledgements and frames exactly as the specification says for a world whose readings lie within the call, and the chip saw the transmission of exactly the frame handed over, or nothing |
| `Application.Receiver.HandleRequest` | src/application/application.cpp:418-475 | the same for a packet that wants an acknowledgement: lookup, then replay or execution |
| `Application.Receiver.HandleAndCache` | src/application/application.cpp:445-474 | execution, record and acknowledgement with the mapped outcome |
| `Application.Receiver.SendAcknowledgement` | src/application/application.cpp:308-343 | exactly one packet goes to the radio, to the sender, with the request's sequence number and message id and the status; its encoding cannot fail |
| `ReceiverRuns.LookupFindsLive` | src/application/application.cpp:238-263 | the ring's lookup finds an entry if and only if one of the last 16 logged executions has the key and has not expired when its slot is looked at, and it is that execution's record |
| `ReceiverRuns.InsertKeeps` | src/application/application.cpp:279-306 | a new record goes into the place of the one that falls out of the last 16, wrap-around included |
| `ReceiverRuns.SameRequestIsSameBytes` | src/application/application.cpp:265-277 | a request repeats a record field by field if and only if the two packets are the same bytes |
| `ReceiverRuns.RecordedStatus` | src/application/application.cpp:208-236 | the status recorded for a request says, through all three mappings and with if and only if for each status, how the transmission was answered or why routing refused the message; it is never InvalidMessage |
| `ReceiverRuns.StepAgrees` | src/application/application.cpp:363-475 | one packet does to the ring what it does to the log, and the ring goes on holding the log |
| `ReceiverRuns.RingRefinesLog` | src/application/application.cpp:238-475 | over every run the receiver with the ring executes, transmits and acknowledges exactly what the receiver with the log does |
| `ReceiverRuns.ExecutedAtMostOnce` | src/application/application.cpp:238-475 | in every run two executions with the same sequence number bytes from one sender have at least 16 others between them, or the first was more than 5,000,000 us old when the lookup for the second looked at its slot |
| `ReceiverRuns.OneSlotPerKey` | src/application/application.cpp:238-306 | in every run no two valid slots have one sender and sequence number |
| `ReceiverTheorems.AckDecodes` | src/application/application.cpp:308-343 | an acknowledgement decodes to type 3, flags 2, the request's sequence number and message id, length 1 and the status code |
| `ReceiverTheorems.StatusBytes` | include/remote_protocol/remote_protocol.h:58-69 | the code of each status, 0 to 8 |
| `ReceiverTheorems.AckIsReply` | src/application/application.cpp:308-343 | the acknowledgement of a packet, byte by byte: fixed header bytes, the packet's own bytes 5 to 8, length 1, the code, and the check word |
| `ReceiverTheorems.OneAcknowledgement` | src/application/application.cpp:363-475 | one packet is acknowledged exactly once if it comes from the peer, is intact, and has bit 0 of its flags set and bit 1 clear, to its sender and with its sequence number and message id bytes; otherwise not at all, nothing is executed for the record and the cache stays as it was; it puts at most one frame on the bus |
| `ReceiverTheorems.OneAcknowledgementEach` | src/application/application.cpp:363-475 | over every run the acknowledgements are, in order, one for each packet with those properties, with its sequence number and message id bytes and a code of at most 8, and no other |
| `ReceiverTheorems.OthersAreNotAnswered` | src/application/application.cpp:363-416 | at any point of any run a packet without those properties adds no acknowledgement and no execution and leaves all slots as they were |
| `ReceiverTheorems.NoAcknowledgementLoop` | src/application/application.cpp:408-475 | an acknowledgement fed back is not acknowledged, not routed and not remembered |
| `ReceiverTheorems.ReplayIsExact` | src/application/application.cpp:420-443 | at any point of any run a request for whose sequence number bytes one of the last 16 executions answers, no more than 5,000,000 us old at its slot, is answered from that execution: with its recorded code if it is the same bytes, with 1 if not; nothing is executed or transmitted |
| `ReceiverTheorems.MissIsExecuted` | src/application/application.cpp:445-474 | at any point of any run a request for which no execution answers adds exactly its own execution to the log and exactly one acknowledgement, with the code of its outcome, which is never InvalidMessage |
| `ReceiverTheorems.InvalidMessageIffCollision` | src/application/application.cpp:420-443 | a request is answered with code 1 if and only if its sequence number is still taken by a different packet |
| `ReceiverTheorems.AnswerSaysWhy` | src/application/application.cpp:208-236 | the answer to an executed request, code by code and with if and only if: 0, 3, 4 and 5 how the transmission of the routed frame was answered, 2, 6, 7 and 8 why routing refused it, 4 also without gateway or valid tables |
| `ReceiverTheorems.AnsweredAsRecorded` | src/application/application.cpp:420-474 | a request is answered with a code other than 1 if and only if its own execution, or a live earlier one of the very same bytes, is recorded with that code |
| `ReceiverTheorems.FramesIff` | src/application/application.cpp:363-475 | at any point of any run a packet adds exactly the frame routed for it if it comes from the peer, is intact, is no response, and either wants no acknowledgement or finds no execution that answers for its sequence number, in an initialised gateway; otherwise no frame |
| `ReceiverTheorems.CommandReaches` | src/application/application.cpp:363-475 | at any point of any run with the shipped tables, the bytes that ask for a safe frame put exactly that frame on the bus, unless they want an acknowledgement and an execution answers for their sequence number |
| `ReceiverTheorems.SafeFramesAreReached` | src/application/application.cpp:363-475 | every safe frame is reached: for each there are bytes for which a fresh receiver with the shipped tables and an initialised gateway hands over exactly that frame |
| `ReceiverTheorems.FramesAreAskedFor` | src/application/application.cpp:363-475 | over every run the frames on the bus are, in order, the routings of packets the peer sent, each of another packet; with the shipped tables every one of them is safe |
| `ReceiverTheorems.StatusIsTruthful` | src/application/application.cpp:208-236 | an execution is recorded as CanTransmitted if and only if the frame routed for its packet was handed over and the callback answered with success, and then the frame is among those handed over |
| `ReceiverTheorems.TruthfulStatus` | src/application/application.cpp:363-475 | a request is answered with code 0 if and only if its own execution, or a live earlier one of the same bytes, handed over the frame routed for it and the callback answered with success |
| `MainLoop.AnswersAreHonoured` | src/application/application.cpp:113-141 | every answer of a life other than InvalidMessage has behind it an execution of the log so far, of the same bytes; if that sent the frame routed for them, there is evidence in the controller's record of one complete send of it that ended as the code says: 0 success, with an ended request for exactly its registers in the buffer it chose, 3 no free buffer, 4 failure, 5 timeout; 0, 3 and 5 are never answered without |
| `MainLoop.HandlePacket` | src/application/application.cpp:363-475 | one packet carries the receiver's run on, with later evidence for its outcome and exactly its frame's send in the record |
| `QueueRounds.TakePacket` | src/application/application.cpp:481-489 | one receive call that waits for ever is still waiting if and only if the queue was empty and the arrivals brought nothing; otherwise it takes the oldest packet, after as many arrivals as the specification says |
| `QueueRounds.RoundsKeepArrivals` | src/esp_now_driver/esp_now_driver.cpp:87-145 | the events of all rounds hold all arrivals, in order |
| `MainLoop.HandleRound` | src/application/application.cpp:479-492 | one round handles one packet unless it is idle, and leaves the queue where the round's events leave it |
| `MainLoop.RunMainLoop` | src/application/application.cpp:477-493 | the packets handled are exactly those the queue gave out over these rounds, one for every round that is not idle; state, acknowledgements, frames and the controller's record are those of a run over them; and every answer given is honoured |
| `BusRecord.LoadsAreOfFrames` | src/mcp2515/mcp2515.cpp:729-741 | in a record that is the sends of some frames, every write starts at 0x31, 0x41 or 0x51 and is the register image of one of them |
| `MainLoop.LoadsAreSafe` | src/vehicle_can_protocol/vehicle_can_protocol.cpp:21-178 | with the shipped tables every write the controller saw in a receiver's life starts at 0x31, 0x41 or 0x51 and is 0x20 0x20 0x00 0x00, the length and the data of a safe frame that was handed over |
| `MainLoop.IsValidUnicastMac` | src/application/application.cpp:48-61 | true if and only if the address is not all zeros and its group bit is clear |
| `MainLoop.ValidateConfig` | src/application/application.cpp:63-77 | true if and only if channel, queue depths, address and tables are usable |
| `MainLoop.Start` | src/application/application.cpp:498-510 | the program goes on if and only if its configuration is usable and the set-up succeeded, with an initialised gateway, an empty queue and a fresh receiver |
| `MainLoop.RunApplication` | src/application/application.cpp:498-510 | the whole program from start-up: all arrivals go through the queue, the packets it gives out are handled, one acknowledgement goes out for each request among them, in order, the record holds their frames and nothing else, and every answer is honoured; if it does not start it sends nothing |

## Left out

- SPI transfers succeed: the driver only logs a failed transfer, and what its registers then read is not modelled.
- `getStatus` and the `readMessage` overload that picks a receive buffer by it: one branch over the modelled read.
- Filters and masks, bit rates, modes, reset, clock output, interrupt and error-flag accessors of the MCP2515: constants or single register writes.
- Set-up of Wi-Fi, ESP-NOW, the peer and the SPI bus: sequences of foreign calls; a manager's `initialized` flag is a parameter.
- The send-result queue and its callback: the same bounded queue as the receive queue.
- What the radio does with an acknowledgement after it is handed over: the program only logs the error.
- Mcp2515.NoEndWithoutRequest: a frame already on the wire when its request is cleared is not modelled; the chip's state is its registers, and a request ends when the chip clears TXREQ.
- How long `receive` waits: the model says which arrivals come before the timeout.
- Shutting the radio driver down while a callback runs, and memory ordering: callback and calls are atomic steps.
- Null payload pointers in the payload validators: the router always passes the message's own buffer.
- The header bytes are written in one aggregate assignment, not one statement each; the order of those stores is not captured.
- The receive buffer of a packet is a sequence of its length; the bytes behind it in the fixed array are not modelled.
- Logging, names of results, version numbers, build configuration and the TXU01 itself.
