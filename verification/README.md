# Verified model of the Modbus RTU stack of service-data-gateway-edge

The gateway polls field devices as a Modbus master and serves their values as a Modbus slave. This project models the
protocol stack it does this with, and proves what the stack promises.

* `Bytes`, `Crc`, `CrcDetection`, `CrcDistance`: CRC-16/Modbus bit by bit and by table, as loops over an array; that the
  two agree; and which transmission errors a receiver is sure to notice: bursts, odd errors, and any error of up to three
  bits in a frame. The table is the source's, in its 32 rows of eight. A byte is a `bv8` and a word a `bv16`, so masks and
  shifts mean what they mean in C; lengths are integers, and the casts that wrap are written out (`CastByte`, `CastWord`).
* `Framing`: the incremental rule for where a request and a response end.
* `Codec`, `Payload`: encoding and decoding of ADUs (RTU and TCP), request and response PDUs, register and coil packing,
  as methods that fill buffers, each proved against a function on byte sequences.
* `Units`: the bitmap of unit addresses, as a set.
* `ServerSpec`, `Ring`, `Server`: the server. `ServerSpec` is an abstract machine (a queue of bytes, at most one
  response waiting, a set of units, and the record of callbacks made); `Server.ModbusServer` is the class with its ring
  buffer, response buffer, bitmap and `sending` flag, and every method is proved to be a step of the machine.
  `ServerBounds` says which frames stay within the server's arrays, `ServerAnswers` what the machine does with one frame,
  and `ServerTheorems` what it promises over whole runs.
* `ClientSpec`, `Client`: the same for the client, with the circular doubly linked list of request slots.
* `EndToEnd`: a read from the client, through the server, back to the client, in arbitrary pieces.
* `Rejection`: corrupted frames, unknown functions and chunks that do not fit, and how both ends recover from them.
* `LoopbackSpec`, `Loopback`: the loopback handshake of the application, as a transition system, and the context object
  whose poll callbacks are its steps.
* `Persist`: the persistence thread, as interleaved steps of producer and consumer over a pipe, and its read loops.
* `Witnesses`: for each property that the code does not have, an input on which it fails.

The read callback is an arbitrary function of unit, address and count that fails or stores any registers from the start
of the array it is given; the write callback is an arbitrary function of its arguments. The calls that are made are
recorded.

The arrays on the stack have the source's sizes: 253 bytes for a PDU in server and client, 256 registers, 512 bytes of
packed data, 128 registers in the client. The source compares nothing with these sizes in the server, nor the PDU with
its array in the client. Where it would access such an array out of range the model sets `overrun` and does nothing more
with the frame, so that Dafny's own checks of every index show that there is no other such place;
`ServerBounds.OverrunIff` gives the exact condition, `ServerBounds.FrameInRange` spells it out for a callback that stores
what it is asked for, and every result about answers, runs and the whole way is stated for the frames that meet it. What
an array holds where nothing has been stored is an arbitrary function.

Where the code and its documentation or evident intention differ, the model follows the code. A lemma says exactly when
the intention is met, and another, in `Witnesses`, gives an input on which it is not:

* `src/protocol/include/egw_modbus_server.h:275` says that frames for other units are discarded. The code answers any
  whole frame whose function code has the exception bit set, whatever its unit (`ServerAnswers.AnsweredIff`). An exception
  response is thus a request that is answered by itself, and two servers on one line go on answering each other
  (`Witnesses.ExceptionsForever`).
* `send_exception` is called with the transaction id and the exception code exchanged, so every RTU exception response
  carries code 0 (`ServerAnswers.ExceptionCodeIsLost`, `Witnesses.DeviceFailureIsLost`).
* Counts and frame lengths are not compared with the arrays (`ServerBounds.OverrunIff`, `ClientSpec.OverrunIff`;
  `Witnesses.ReadOverruns`, `CoilReadOverruns`, `WriteOverruns`, `LongFrameOverruns`, `ResponseOverruns`).
* A frame behind one that is not answered, such as a broadcast, stays in the queue until the next event
  (`ServerTheorems.StallsBehindUnanswered`, `Witnesses.BroadcastStalls`); `ServerTheorems.PipelineExact` says how far the
  server gets in any run.
* FC 0x0F and 0x10 requests encoded from parameters are one byte short and are never delimited by the server
  (`Codec.RequestArrivesIff`, `Witnesses.WriteNeverArrives`). On TCP the last byte is stored behind the ADU, so there the
  encoder is modelled for buffers that have a place for it (`Codec.HasRoom`).
* A completed response stays in the client's buffer, and every further chunk completes the request again
  (`ClientSpec.CompletionsExactly`, `Witnesses.CompletesTwice`).
* The client interprets every response as a read response, so no write ever completes with success
  (`ClientSpec.OnlyReadsSucceed`, `Witnesses.WriteFails`), and it expects eight bytes where the server echoes a whole
  multiple write (`ServerAnswers.EchoWholeIff`, `Witnesses.MultipleEchoIsNoResponse`).
* A register read of 128 to 253 completes with success, but without 128 of its registers, because the byte count wraps; a
  coil read of more than 1024 completes as a failure (`EndToEnd.ReadCompletesBeyond`, `Payload.RegisterRoundTrip`).
* A whole request of more than 260 bytes is never taken out of a ring that holds it (`ServerTheorems.LongestFrame`).
* `commit` admits one byte more than is free when the read index is 0, and then forgets everything received
  (`Server.ModbusServer.Commit`, `Witnesses.CommitForgets`).
* The persistence loop reads until the end of the file inside one transaction, so nothing after the initial dump is
  durable before the pipe is closed (`Persist.DurableOnlyAfterStop`, `Witnesses.PutIsNotDurable`).

## Model

| member | source | states |
|---|---|---|
| Crc.CalcCrc | src/core/egw_crc.c:55-69 | The nested loops leave the register that starts with all bits set and takes in the bytes by bit steps, for every array prefix. |
| Crc.TableCrc | src/core/egw_crc.c:43-51 | The table loop computes the same CRC as the bitwise loop: the fast form refines the simple one. |
| Crc.Crc16Extends | src/core/egw_crc.c:55-69 | The CRC of nothing is 0xFFFF, and one byte more is taken in by eight bit steps. |
| Crc.CheckValue | src/core/egw_crc.c:55-69 | The CRC of the nine characters 1 to 9 is 0x4B37. |
| Crc.SealedRequest | src/protocol/egw_modbus_core.c:301-305 | The request 01 03 00 00 00 01 goes out with the trailer 84 0A. |
| Crc.TableEntry | src/core/egw_crc.c:6-39 | Every one of the 256 table entries is what eight bit steps make of its index. |
| Crc.TableStep | src/core/egw_crc.c:47-48 | One table look-up and shift equals taking in the byte by eight bit steps, for every register and byte. |
| Crc.ValidIffSealed | src/protocol/egw_modbus_server.c:29-35 | A frame validates exactly when its last two bytes are the CRC of the rest, low byte first. |
| CrcDetection.ValidIffResidueZero | src/protocol/egw_modbus_client.c:27-33 | A frame validates iff the CRC over the whole frame, trailer included, is 0. |
| CrcDetection.ErrorResidue | src/core/egw_crc.c:55-69 | A corrupted valid frame validates iff the register over the error pattern alone, started at 0, ends at 0: detection does not depend on the data. |
| CrcDetection.BurstDetected | src/protocol/egw_modbus_server.c:29-35 | Any error confined to sixteen consecutive bits, at any bit offset and reaching into the trailer or not, makes a valid frame of any length invalid. |
| CrcDetection.AdjacentBytesDetected | src/protocol/egw_modbus_client.c:27-33 | Two frames of one length that differ only within two adjacent bytes are not both valid. |
| CrcDetection.ValidFrameIsEven | src/core/egw_crc.c:55-69 | Every valid frame has an even number of set bits. |
| CrcDetection.OddErrorDetected | src/protocol/egw_modbus_server.c:29-35 | Any corruption of a valid frame that flips an odd number of bits is rejected. |
| CrcDistance.TwoBitErrorDetected | src/core/egw_crc.c:55-69 | Any two flipped bits, however far apart in a frame of up to 264 bytes, trailer included, are rejected. |
| CrcDistance.FewBitErrorDetected | src/protocol/egw_modbus_server.c:29-35 | So is every error of one to three bits: two valid frames of one length differ in at least four. |
| Framing.RequestPrefixCorrect | src/protocol/egw_modbus_server.c:11-50 | For every whole request frame: each proper prefix asks for more, and the frame followed by anything is delimited at exactly its own length. |
| Framing.ResponsePrefixCorrect | src/protocol/egw_modbus_client.c:11-46 | The same for response frames at the client. |
| Framing.RequestVerdict | src/protocol/egw_modbus_server.c:11-50 | For every buffer: less than four bytes ask for more; an unknown function is an error; otherwise the function code, and for FC 0x0F and 0x10 byte 6, fix the length, and the frame is awaited, ready, or an error by its CRC. |
| Framing.ResponseVerdict | src/protocol/egw_modbus_client.c:11-46 | The same for responses, where the byte count of a read fixes the length. |
| Framing.RequestRejected | src/protocol/egw_modbus_server.c:38-50 | Bytes of the right length with a wrong CRC: every proper prefix asks for more, and with the last byte, whatever follows, all is an error. |
| Framing.ResponseRejected | src/protocol/egw_modbus_client.c:36-46 | The same at the client. |
| Codec.WritePdu | src/protocol/egw_modbus_core.c:199-288 | Allocates or borrows the buffer, refuses one that is too small without touching it, and leaves the PDU bytes in their place, for all three encode modes, both transports and every function; a TCP write-multiple must be given a place for the byte that is stored behind its ADU. |
| Codec.Encode | src/protocol/egw_modbus_core.c:292-317 | The buffer holds the ADU: unit, PDU and CRC trailer, or the MBAP header with its length and the PDU. |
| Codec.DecodeFrame | src/protocol/egw_modbus_core.c:146-180 | Succeeds exactly on the frames that decode and whose PDU fits the array, yields unit and PDU, and touches nothing beyond the PDU; an overrun is reported exactly for a PDU that does not fit. |
| Codec.RtuRoundTrip | src/protocol/egw_modbus_core.c:156-166 | Decoding an encoded RTU ADU gives back unit and PDU iff the PDU is not empty. |
| Codec.TcpRoundTrip | src/protocol/egw_modbus_core.c:167-177 | Decoding an encoded TCP ADU, followed by any bytes, gives back unit and PDU iff the PDU fits the 16-bit length field (and the frame has eight bytes). |
| Codec.TcpHeaderFields | src/protocol/egw_modbus_core.c:306-314 | The MBAP header carries the transaction id, protocol 0 and the unit, and its length field is the number of bytes that follow it iff that fits sixteen bits. |
| Codec.RtuDecodeInjective | src/protocol/egw_modbus_core.c:146-166 | Encoding undoes decoding: an RTU frame is determined by the unit and PDU it carries. |
| Codec.RequestRoundTrip | src/protocol/egw_modbus_core.c:90-142 | An FC 01-06 request encoded by the client is a whole frame, and the server reads the same function, address, and count, or the two bytes of data, out of it, in any larger buffer. |
| Codec.ParsedIff | src/protocol/egw_modbus_core.c:90-142 | A PDU is a request iff its function is known and it has at least five bytes, or six for a multiple write. |
| Codec.EncodedIff | src/protocol/egw_modbus_core.c:207-269 | Parameters are encoded iff their function is known. |
| Codec.WriteMultipleFields | src/protocol/egw_modbus_core.c:240-268 | A multiple write from parameters carries function, address, count, wrapped byte count, and all but the last byte of its data. |
| Codec.ExceptionAdu | src/protocol/egw_modbus_core.c:279-317 | An exception is unit, function with the exception bit, and code, inside either framing. |
| Codec.RequestArrivesIff | src/protocol/egw_modbus_core.c:240-268 | A request encoded from parameters is delimited by the server iff its function is 01-06; otherwise the server waits for more. |
| Payload.PackReadData | src/protocol/egw_modbus_server.c:142-154 | The packing loops, from and into arrays of any size that suffices, produce big-endian registers, or the low bytes of the registers that the coil count covers. |
| Payload.ReadDataBytes | src/protocol/egw_modbus_server.c:145-154 | Byte for byte, these are the low byte of each register for coils, and both bytes, high byte first, for registers. |
| Payload.BuildReadPdu | src/protocol/egw_modbus_core.c:8-20 | The response array holds function, wrapped byte count and that many data bytes. |
| Payload.ParseRead | src/protocol/egw_modbus_core.c:24-73 | The result code and the registers filled in are those of the response, in every case of error and success. |
| Payload.ParseReadResponse | src/protocol/egw_modbus_core.c:8-20 | What the client reads from a response built over any data: the byte count wraps at 256, and the register limit is checked after. |
| Payload.RegisterRoundTrip | src/protocol/egw_modbus_server.c:148-156 | Packing, building and parsing is the identity on registers iff there are at most 127, that is iff the byte count does not wrap. |
| Payload.CoilRoundTrip | src/protocol/egw_modbus_core.c:43-55 | For coils the client gets (count + 7) / 8 registers, each the low byte of the one stored, iff the count is at most 1024. |
| Payload.ExceptionIsFailure | src/protocol/egw_modbus_core.c:32-34 | An exception response to the request is a failure, whatever code it carries. |
| Payload.PackCoils | src/protocol/egw_modbus_server.c:174-183 | The coil loop stores exactly the coils below the count and below 2000 into zeroed words, from any buffer that holds them. |
| Payload.CoilWordsBits | src/protocol/egw_modbus_server.c:177-183 | Bit b % 16 of word b / 16 is coil b of the data for every coil stored, and every other bit is 0. |
| Payload.BitsFromBelow | src/protocol/egw_modbus_server.c:178-181 | Bit 0 of a byte or word is the lowest, and a shift to the right brings each bit one down. |
| Units.SetUnit | src/protocol/egw_modbus_server.c:77-80 | Setting a unit's bit adds exactly that address to the set that the activity test sees. |
| Units.AddUnitsExact | src/protocol/egw_modbus_server.c:251-261 | After a call, a unit is active iff it was before or is in the accepted prefix of the list; the call fails iff that prefix ends at an address above 247. |
| Units.RegisteredExactly | src/protocol/egw_modbus_server.c:251-261 | After any sequence of calls a unit is active iff some call accepted it; never 0 and never above 247. |
| Units.BroadcastOrderExact | src/protocol/egw_modbus_server.c:210-213 | The broadcast loop visits each registered unit once, in ascending order. |
| Ring.Append | src/protocol/egw_modbus_server.c:351-358 | Bytes written behind the write index, across the wrap or not, are appended to the queue. |
| Ring.Drop | src/protocol/egw_modbus_server.c:334 | Advancing the read index modulo the capacity drops exactly the front of the queue. |
| Ring.Copy | src/protocol/egw_modbus_server.c:287-297 | The two copies yield the front of the queue, across the wrap. |
| Ring.TwoReservationsFill | src/protocol/egw_modbus_server.c:362-379 | Reservations are never larger than the free space, are empty only if it is, and two of them fill it, across the wrap. |
| Server.ModbusServer.constructor | src/protocol/egw_modbus_server.c:223-249 | An empty queue, no response, the accepted units, and default capacities for 0. |
| Server.ModbusServer.AddUnit | src/protocol/egw_modbus_server.c:251-261 | The bitmap becomes the specified set, with the error result; nothing else changes. |
| Server.ModbusServer.BufFree | src/protocol/egw_modbus_server.c:274-284 | Used plus free plus one is the capacity, and used is the length of the queue, in every valid state. |
| Server.ModbusServer.HandleWriteRequest | src/protocol/egw_modbus_server.c:161-201 | One write callback with the specified quantity and registers, and its result; or no callback and an overrun, exactly if the data read does not lie within the request array. |
| Server.ModbusServer.HandleBroadcastWrite | src/protocol/egw_modbus_server.c:205-214 | The specified list of write callbacks, one per registered unit, and no response; an overrun only if there is a unit to write to. |
| Server.ModbusServer.HandleFrame | src/protocol/egw_modbus_server.c:416-506 | With arrays of the source's sizes, the response buffer, the gate, the callbacks and the overrun are the specified outcome of the frame, which ServerAnswers describes. |
| Server.ModbusServer.TryProcess | src/protocol/egw_modbus_server.c:304-336 | Refines the abstract step: nothing while a response waits; otherwise one frame taken, all bytes dropped on an error, or nothing. |
| Server.ModbusServer.Feed | src/protocol/egw_modbus_server.c:340-360 | Refines the abstract step, including the reset when the bytes do not fit. |
| Server.ModbusServer.Reserve | src/protocol/egw_modbus_server.c:362-379 | The contiguous space at the write index, none while sending, some whenever any is free. |
| Server.ModbusServer.Commit | src/protocol/egw_modbus_server.c:381-395 | Up to the free space the bytes join the queue; one byte more is accepted exactly when the read index is 0 and empties it; what runs past the contiguous space is ignored. |
| Server.ModbusServer.PollRead | src/app/egw_modbus_slave.c:133-145 | Reserve, transport read and commit together are the abstract commit of the bytes read. |
| Server.ModbusServer.ResponseSent | src/protocol/egw_modbus_server.c:406-412 | Lowers the gate and takes the next frame at once if it is there. |
| ServerSpec.CommitIsFeed | src/protocol/egw_modbus_server.c:340-395 | Zero-copy equals copy: committing bytes has the same state and callbacks as feeding them. |
| ServerBounds.OverrunIff | src/protocol/egw_modbus_server.c:416-506 | Handling a whole frame accesses some array out of range - listed access by access - iff the frame is longer than 256 bytes or, if it gets to a callback's registers or to write data, its count is outside the exact ranges; and the model reports exactly these. |
| ServerBounds.FrameInRangeIff | src/app/egw_modbus_slave.c:52-84 | For a callback that stores what it is asked for, the condition is one on the frame alone. |
| ServerAnswers.AnsweredIff | src/protocol/egw_modbus_server.c:439-506 | A whole request that stays within the arrays is answered iff it is for a registered unit or its function code has the exception bit, and in that case by an exception and without a callback. |
| ServerAnswers.CallsMadeIff | src/protocol/egw_modbus_server.c:446-490 | A whole frame makes a callback iff there is one for its function and it reaches a registered unit, directly or as a broadcast write; every call is for a registered unit, the one asked unless it is a broadcast. |
| ServerAnswers.OthersIgnored | src/protocol/egw_modbus_server.c:446-454 | A request for a unit that is not registered, or a broadcast read, makes no callback and gets no response. |
| ServerAnswers.ReadWithoutCallback | src/protocol/egw_modbus_server.c:460-465 | Without a read callback a read is answered by an exception. |
| ServerAnswers.ExceptionCodeIsLost | src/protocol/egw_modbus_server.c:103-121 | The exception response is the one that was meant iff the code meant is 0. |
| ServerAnswers.BroadcastWrite | src/protocol/egw_modbus_server.c:446-452 | A broadcast write is not answered and calls back once per registered unit, in ascending order, each time with the value, registers or coils that the frame carries. |
| ServerAnswers.CoilWriteDelivered | src/protocol/egw_modbus_server.c:174-183 | An FC 0x0F frame with enough data makes one callback whose bits are the frame's bits, with zero padding. |
| ServerAnswers.RegisterWriteDelivered | src/protocol/egw_modbus_server.c:184-190 | An FC 0x10 frame with enough data makes one callback with the frame's registers in order. |
| ServerAnswers.WriteEchoed | src/protocol/egw_modbus_server.c:474-506 | A write for a registered unit makes one callback with what the frame carries and is answered by the request itself, byte for byte, iff the callback succeeds, and by an exception if not; either if it fits the response buffer. |
| ServerAnswers.WriteWithoutCallback | src/protocol/egw_modbus_server.c:193-193 | Without a write callback a write is echoed and nobody is called; a broadcast is not even echoed. |
| ServerAnswers.EchoWholeIff | src/protocol/egw_modbus_client.c:21-23 | The client delimits that echo as one response iff the request wrote a single value. |
| ServerTheorems.GateStep | src/protocol/egw_modbus_server.c:340-395 | While a response waits, fed bytes are queued or, if they do not fit, empty the queue; committed bytes are ignored; nothing else changes. |
| ServerTheorems.GateHolds | src/protocol/egw_modbus_server.c:306-307 | Over every run without a response being sent, a waiting response is unchanged and no callback runs. |
| ServerTheorems.PipelineExact | src/protocol/egw_modbus_server.c:304-412 | Any whole requests within the arrays, answered or not, back to back, in any admissible chunks and ways, interleaved with sendings: at every moment the frames handled, the callbacks, the responses sent or waiting and the bytes queued are exactly those that the chunk sizes determine. |
| ServerTheorems.CompleteIff | src/protocol/egw_modbus_server.c:304-412 | With all bytes in, the queue is empty and nothing waits iff the server's place is the end of the list, and then all responses have been sent and all callbacks made. |
| ServerTheorems.PipelineCompletes | src/protocol/egw_modbus_server.c:406-412 | Enough sendings after the last byte serve any such list completely; one per frame suffices if all are answered. |
| ServerTheorems.StallsBehindUnanswered | src/protocol/egw_modbus_server.c:304-336 | What follows an unanswered frame in the same chunk stays queued, whole or not, with nothing waiting; the next event takes it. |
| ServerTheorems.LongestFrame | src/protocol/egw_modbus_server.c:311-318 | A whole request of up to 260 bytes is taken and handled; a longer one stays in the queue. |
| ServerTheorems.PipelinedRequests | src/protocol/egw_modbus_server.c:304-360 | Any answered requests within the arrays, back to back, in any chunks that do not overflow the ring, by either way in, interleaved with responses being sent, yield exactly their responses in order and their callbacks, and leave nothing. |
| ServerTheorems.PipelineDrains | src/protocol/egw_modbus_server.c:406-412 | Once all bytes are in, each further sending moves the server on by exactly one frame until all are handled, answered or not. |
| Client.NextAndPrevInvert | src/protocol/egw_modbus_client.c:50-57 | On a linked ring next and prev are each other's inverses. |
| Client.LinkLast | src/protocol/egw_modbus_client.c:135-138 | The four pointer updates extend the cycle at its end. |
| Client.Unlink | src/protocol/egw_modbus_client.c:151-152 | The two pointer updates close the cycle around the removed slot. |
| Client.ModbusClient.Register | src/protocol/egw_modbus_client.c:117-141 | A new slot with the encoded frame, in its own or the caller's buffer, goes to the end of the ring, and none if the request cannot be encoded there. |
| Client.ModbusClient.Remove | src/protocol/egw_modbus_client.c:143-162 | The slot leaves the ring, the order of the others is kept, and it is no longer the current one. |
| Client.ModbusClient.Destroy | src/protocol/egw_modbus_client.c:98-113 | The do-while loop frees each slot exactly once, in ring order, and terminates. |
| Client.ModbusClient.Request | src/protocol/egw_modbus_client.c:183-201 | The slot becomes current, the accumulator is emptied, the counters advance, and the frame is handed out. |
| Client.ModbusClient.Interpret | src/protocol/egw_modbus_client.c:205-249 | The registers of the completion, or the failure, are those specified for the frame, unless its PDU does not fit the 253-byte array, which is reported. |
| Client.ModbusClient.Feed | src/protocol/egw_modbus_client.c:251-275 | Refines the abstract step, including the reset when the bytes do not fit. |
| Client.ModbusClient.Commit | src/protocol/egw_modbus_client.c:284-299 | The same step as feeding the bytes that lie in the reserved space. |
| ClientSpec.ResponseInChunks | src/protocol/egw_modbus_client.c:251-275 | In whatever chunks a response arrives, nothing happens before its last byte, and then exactly one completion. |
| ClientSpec.OverrunIff | src/protocol/egw_modbus_client.c:205-223 | A whole response makes the client access its PDU array out of range iff it is a read response with more than 251 data bytes. |
| ClientSpec.CompletionsExactly | src/protocol/egw_modbus_client.c:264-268 | Over any chunks that fit and begin with a response, the request completes once for the chunk that brings the last byte, whatever else is in it, and once more for each non-empty chunk after it. |
| ClientSpec.OnlyReadsSucceed | src/protocol/egw_modbus_client.c:216-248 | A completion with registers implies a valid frame from the unit asked, with the function asked, and that the request was a read. |
| ClientSpec.WholeResponseCompletes | src/protocol/egw_modbus_client.c:205-249 | For every whole response: the completion names the unit and address asked, succeeds iff it is a read response of that unit and function whose data the registers hold, and then has the bytes, or words, of the data. |
| EndToEnd.RequestInChunks | src/protocol/egw_modbus_server.c:304-360 | In whatever chunks and by whichever way a request arrives, nothing happens before its last byte, and then it is answered. |
| EndToEnd.ReadAnswered | src/protocol/egw_modbus_server.c:459-502 | A read request for a registered unit, with a count that the arrays hold, makes one read callback and is answered with its registers, or with an exception if it fails. |
| EndToEnd.EndToEndRead | src/protocol/egw_modbus_client.c:183-299 | For up to 125 registers or 1024 coils, any callback that stores at most 256 registers, and every chunking both ways, the client completes exactly once, with the last byte: with one register for each asked, as stored, or for each eight coils, the low byte of the one stored, or with a failure if the callback failed. |
| EndToEnd.ReadCompletesBeyond | src/protocol/egw_modbus_client.c:234-248 | Beyond these counts: coils complete as a failure, and 128 to 253 registers with success and 128 registers too few. |
| EndToEnd.ReadResultBytes | src/protocol/egw_modbus_server.c:142-156 | The response to a read, byte for byte: unit, function, byte count, and the registers or low bytes stored, or the exception. |
| EndToEnd.PipelinedReads | src/protocol/egw_modbus_server.c:304-360 | Any number of read requests that the arrays hold, back to back, in any admissible chunks: each is read once, in order, and exactly their responses are sent, in order. |
| Rejection.ServerRecovers | src/protocol/egw_modbus_server.c:304-328 | A whole request with an odd error, a burst, or up to three flipped bits in its data or trailer, in any pieces, makes no callback, gets no response and leaves nothing; the next whole request is handled as if it had come first. |
| Rejection.UnknownFunctionDropped | src/protocol/egw_modbus_server.c:26-28 | Bytes that name no function are dropped. |
| Rejection.OverflowDropped | src/protocol/egw_modbus_server.c:345-349 | A chunk larger than the free space empties the queue and leaves response and callbacks alone; the next whole request is handled as if it had come first. |
| Rejection.ClientRecovers | src/protocol/egw_modbus_client.c:251-275 | A corrupted response, in any pieces, completes nothing and leaves nothing; the next whole response completes the request once. |
| Rejection.UnknownResponseDropped | src/protocol/egw_modbus_client.c:269-271 | At the client too, bytes that name no function are dropped. |
| Rejection.ClientOverflow | src/protocol/egw_modbus_client.c:254-257 | A chunk that does not fit empties the accumulator and completes nothing; without a request awaited nothing is taken in. |
| LoopbackSpec.RunInvariant | src/app/egw_modbus_slave.c:125-164 | In every reachable state the client's buffer and the bytes in flight are a prefix of the response, what is missing is its second half, and the bytes still to deliver shrink with every poll. |
| LoopbackSpec.HandshakeCompletes | src/app/egw_modbus_master.c:122-159 | Every run, for any read sizes, is bounded, can go on until it stops, and stops exactly with one completion that delivers what the callback stored, in phase Done iff it succeeded. |
| Loopback.LoopbackContext.constructor | src/app/egw_app.c:54-91 | Server, client and request are set up and the request is in flight: the start of the handshake. |
| Loopback.LoopbackContext.SlaveOnPoll | src/app/egw_modbus_slave.c:125-164 | The callback on the real server and client is the server's step of the handshake. |
| Loopback.LoopbackContext.MasterOnPoll | src/app/egw_modbus_master.c:122-159 | The callback on the real server and client is the client's step of the handshake, the second half of the response included. |
| Loopback.SlaveHandshake | src/app/egw_modbus_slave.c:52-84 | With the slave's callback a loopback that stops has stopped in phase Done, with registers counting up from 0x000A plus the address if there is a row for it and 0 if not, or their low bytes for a coil read. |
| Persist.ItemsRoundTrip | src/app/egw_persist_thread.c:11-17 | Reading back the bytes of any list of items gives the items. |
| Persist.KeyKeepsName | src/app/egw_persist_thread.c:115-121 | An item is stored with its value under the first fifteen characters of its table name, and so under that name iff it has at most fifteen. |
| Persist.EnqueuedIsAccepted | src/app/egw_persist_thread.c:107-124 | The items written into the pipe are, for every run, exactly those of the enqueue events before the first request to stop. |
| Persist.DumpedExactly | src/ptable/egw_persist.c:23-27 | The initial dump stores 0 for every row of the two point tables and changes nothing else. |
| Persist.NothingIsLost | src/app/egw_persist_thread.c:44-124 | Under every interleaving the items put and the items in the pipe are those handed over before the stop, in order; a consumer that finishes without a failing read in its final drain leaves the initial dump overwritten by all of them. |
| Persist.LastValueStored | src/app/egw_persist_thread.c:44-131 | After a clean finish the disk has, for every key, the last value handed over before the stop. |
| Persist.LastWriteWins | src/ptable/egw_persist.c:18-27 | For every key the last item with that key decides, and no other key is stored or forgotten. |
| Persist.DurableOnlyAfterStop | src/app/egw_persist_thread.c:62-83 | In every run in which the write end is not closed and no read fails, nothing but the initial dump has been committed. |
| Persist.ShutdownTerminates | src/app/egw_persist_thread.c:85-131 | After the write end is closed the number of consumer steps is bounded, and one is possible until the consumer has finished. |
| Persist.Store.PutBatch | src/app/egw_persist_thread.c:73-78 | The loop over a read puts exactly the whole items in it, in order. |
| Persist.Store.Drain | src/app/egw_persist_thread.c:88-99 | The final read loop, for any read sizes and up to a failing read, puts exactly the items read, which are all if the reads suffice. |
| Witnesses.ExceptionsForever | src/protocol/egw_modbus_server.c:439-444 | For every unit and function, an idle server answers the exception response with itself and is then as before. |
| Witnesses.DeviceFailureIsLost | src/protocol/egw_modbus_server.c:462-463 | The code of a failing device is not the one on the wire. |
| Witnesses.ReadOverruns | src/protocol/egw_modbus_server.c:131-154 | A read of 65535 registers whose callback succeeds leaves the arrays. |
| Witnesses.CoilReadOverruns | src/app/egw_modbus_slave.c:71-73 | So does a read of 257 coils whose callback stores 257 registers. |
| Witnesses.WriteOverruns | src/protocol/egw_modbus_server.c:174-190 | So does a multiple write of 65535 items that brings no data. |
| Witnesses.LongFrameOverruns | src/protocol/egw_modbus_server.c:419-428 | So does any FC 0x10 frame of 257 bytes, whatever its unit. |
| Witnesses.BroadcastStalls | src/protocol/egw_modbus_server.c:446-452 | Of two broadcasts in one chunk the second waits although it is whole. |
| Witnesses.CommitForgets | src/protocol/egw_modbus_server.c:381-395 | A server with eight bytes of buffer that has received three has none after a commit of five. |
| Witnesses.WriteNeverArrives | src/protocol/egw_modbus_core.c:254-267 | A write of one register encoded from parameters is not delimited. |
| Witnesses.CompletesTwice | src/protocol/egw_modbus_client.c:264-268 | A response and one byte more complete a request twice. |
| Witnesses.WriteFails | src/protocol/egw_modbus_core.c:56-72 | The echo of a successful single write completes it as a failure. |
| Witnesses.MultipleEchoIsNoResponse | src/protocol/egw_modbus_client.c:21-23 | The echo of a multiple write is a whole request and not a whole response. |
| Witnesses.ResponseOverruns | src/protocol/egw_modbus_client.c:212-218 | A response with 255 data bytes leaves the client's PDU array. |
| Witnesses.PutIsNotDurable | src/app/egw_persist_thread.c:66-82 | After dump, enqueue, poll and read the item has been put, the pipe is open, and the disk does not have it. |

## Left out

- Codec.Encode: does not model a TCP write-multiple from parameters into a buffer without a place behind the ADU, which the
  source overruns by one byte; every other buffer, and RTU, are modelled as they are.
- Server.ModbusServer.HandleFrame: what happens after an access out of range is not modelled, only that it happens; nor are
  registers that a read callback stores before it fails.
- Server.ModbusServer.Feed: callbacks that re-enter the server are not modelled.
- EndToEnd.EndToEndRead: counts above 125 registers or 1024 coils are excluded, because they do not survive the one-byte
  count or the client's 128 registers; `EndToEnd.ReadCompletesBeyond` says what becomes of them.
- Rejection.ServerRecovers: errors in the function code or in the byte count change the length that the receiver waits for;
  what becomes of them depends on the bytes that follow, or on a part of the frame, and is not described.
- Client.ModbusClient.Request: does not model the transaction id that a TCP client stamps into the frame; the client's
  framing of responses is RTU only, so the model's client is RTU.
- Client.ModbusClient.Destroy: does not model the release of the buffers, which for a borrowed one is not the client's to do.
- Persist.Store.Put: the time stamp column and SQLite's own failures are not modelled; the store is a map.
- Stream framing over TCP, which neither server nor client does; TCP is modelled at the level of encoding and decoding.
- Serial and TCP transport, libuv, the loopback time-out: the loopback moves bytes through two channels, with complete
  writes and reads of any size.
- Exhausted memory, and the branch for an unknown function code in the server, which no parsed request reaches.
- The enqueueing of what the slave's callback read: the loopback and the persistence pipe are proved separately.
- Point tables, manifest, configuration, error strings, hex logging, bus and state-machine helpers, and
  `egw_modbus_parse_write_pdu`: no property of the kind proved here.
- What the client does with the first eight bytes of the longer echo of a multiple write, which depends on the CRC that
  they happen to carry.
