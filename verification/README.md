# EtherBone protocol engine: a verified model

This project models the C implementation of the EtherBone V1 protocol in `api/` of the repository, and a
few programs around it, and proves what they are for. It is plain Dafny; `dafny verify dfyconfig.toml`
checks all of it.

## How the model is laid out

**The wire.** `Words` has big-endian words and byte strings, `Lanes` the alignment rules and the select byte
with the slave's bit tricks, `Widths` the width masks, `Records` records, their encoding and the parser.

**A cycle from end to end.** `Operations` is the master's validation of queued operations. `Bus` says what a
list of validated operations does when it is simply executed in order: device state, a 64-bit error shift
register, one outcome (value and fault) per operation. The device is arbitrary: three functions of a state
of any type, given the address a big-endian and the address a little-endian device would see. `Packer` is
the packing loop: which operations go into the next record, as writes, reads or a status read. `Meaning`
shows that the slave, executing such a record, executes those operations. `Interpreter` is the slave on
records and byte strings, `Slave` (module `SlaveDevice`) the same slave as it runs, reading its request from
and writing its reply into one array. `Responses` is the master's matching of reply words against waiting
responses, `Delivery` proves that each value and each error bit lands at its own operation, `EndToEnd` and
`Wire` put both sides together on records and on bytes.

**Flushing.** `Flush` specifies what a flush of a device sends and which callbacks it runs, for streams and
for datagrams of a given MTU; `Packets` proves what that amounts to; `Master` (module `MasterDevice`) is the
flush as it runs, with its byte buffer and pointers, proved to do what `Flush` says.

**Streams.** `Stream` and `Chunks` cut the byte stream anywhere: what the slave's session state, which is
reset between calls, can and cannot change. `History` says which bits of the error register a cycle can see
of the cycles before it, and `Cuts` shows that the cutting can change those. `Connection` (module
`StreamDevice`) is the buffer that carries an unfinished record over.

**The whole way.** `RoundTrip` joins everything on a stream: flush, request stream, slave, reply stream,
callbacks. `Datagrams` (module `DatagramDelivery`) does the same over datagrams, each of which is a session
of its own, and `InRuns` puts both at any point of the life of the library. `Replying` shows that what a
connection or a datagram brings back is a sequence of reply calls of the library. `Losses` lets the network lose,
double and reorder datagrams in both directions.

**The library over time.** `Socket` (module `SocketDevice`) has the two-list response queue, killing a
device's responses and expiry by deadline. `Lifecycle` is a state machine of the whole library (open, fill,
close, abort, flush, answer, ask for the next deadline, clock, close device) and proves what holds in every
run; `Order` proves the order of callbacks, and `Ages` how old the waiting responses are, which keeps their
return addresses apart and their deadlines sorted. `Expiry` says when a due response leaves the queue; `Fates`
that a cycle holds what was queued into it, in order, up to its callback, and what the callback tells about
whether it was sent; and `Cases` has runs that show what fails.
`Memory` is the pool of 16-bit indices with the free list and the operation lists that live in it, and
`Holdings` what the library takes from it and gives back in every run.

**Around it.** `Sdb` and `Handlers` are the self-describing bus table and the local devices behind a slave;
`Identity` the asynchronous search for a device; `Flash` the flash programmer; `Tiling` the copy tools;
`Baud` the baud rate of the USB bridge.

Where the source works in place (buffers, lists, counters), the model is a class or a method with loops,
proved equal to a function; the properties are proved about the function. Linked lists are sequences, except
in `Memory`, where they are chains of cells. `eb_data_t` and `eb_address_t` are 64-bit; a shift is a product
or quotient, with the loss of high bits written out.

Quantities the library takes from outside are parameters: the device behind the slave, memory running out
(one flag or function per allocation), the clock, the way a stream is cut, the order of asynchronous
answers.

## Main results

- `InRuns.StreamInRun`, `InRuns.DatagramsInRun`: after any run of the library whose oldest waiting response
  is one of the last 16384, a flush goes the whole way. The device ends as direct in-order execution of the
  accepted cycles leaves it, and each awaited cycle gets one callback, in order, with exactly the values and
  error flags of direct execution; older responses stay where they were. The operations of the cycles are those
  that the calls of the run queued into them, in that order (`InRuns.AsQueued`, said of the list of calls alone). On a stream this holds for any
  cutting of the requests and of the replies that both connections survive. `RoundTrip.FlushedRoundTrip` and
  `DatagramDelivery.DatagramRoundTrip` are the same for any state of the sender.
- `Losses.AnyDeliveryInRun`: over datagrams that the network loses, doubles and reorders in both directions, the
  first answer to a datagram that reaches the master calls back its cycles, with the results of the execution
  that it answers; further ones change nothing, and all other cycles still wait.
- `Wire.EndToEndOnBytes`: the round trip of one cycle on bytes, from any session state of the slave and among any
  other waiting responses.
- `Lifecycle.ExactlyOnce`, `Lifecycle.AllAnswered`, `Order.ClosedInOrder`: over every run.
- `Fates.ReadyAsAsked`, `Fates.CallbackShows`: over every run, a cycle holds what was queued into it, in the order
  of the calls, and its callback shows just that, from the device on which it was opened.
- `Fates.SentIff`: over every run, what the status of a callback tells about whether the cycle was sent.
- `Expiry.PunctualStep`, `Expiry.ExpirePaced`: a caller that asks for the next deadline before it looks at the
  clock, and looks often enough, never loses track of a deadline.
- `Holdings.HeldInRun`, `Holdings.Perform`: over every run no cycle, operation or response is given back twice,
  and the pool holds exactly those to which the library refers.
- `Stream.SameBus`, `Chunks.BadCutIff`: cutting never changes what the bus sees, for any bytes at all; the
  cuts that end a connection are exactly those inside the first record header of a cycle.
- `Packets.PacketAtomicity`, `Packets.StreamPacking`: what a flush sends.
- `SlaveDevice.Slave.Serve`: the in-place slave equals the interpreter and its reply never overtakes what it
  still has to read.

## What is false of the code, and when it is true

- What a cycle reads back is not always independent of the way the stream is cut: a read of the error register
  can show faults of earlier cycles, and the slave forgets them where a piece of the stream ends with a cycle.
  Two cycles show it (`Cuts.CutsShow`). The bits that the cycle's own bus operations have pushed in are
  independent of the cuts (`History.HistoryBit`), and a cycle gives the same results whatever the register
  held before exactly if every read of it at address A comes after at least 8 * (8 - A) bus operations of its
  cycle (`History.SteadyIff`). For all other cycles the round trips say which results they get: those of
  direct execution with the register cleared behind the cycles with which a piece or a datagram ends.
- A configuration read does not always look where it was asked to: it uses the big-endian lanes and only the
  port's address bits. It looks at its own address exactly if that lies within the address width and the
  operation is not little-endian (`Bus.ConfigReadFaithfulIff`); `Bus.ConfigReadElsewhere` has one operation of
  each kind that looks elsewhere.
- A cycle that needs no reply can be answered all the same: once a cycle with reads has ended without one, the slave
  takes the line for open, and adds an end of cycle to every cycle until a record with reads ends one
  (`Chunks.RepliesOpen`).
- The 8-bit count of open cycles wraps. After any run, closing a device goes through exactly if the number of
  its open cycles is a multiple of 256 (`Lifecycle.BusyIff`); opening 256 cycles and closing the device closes
  it under all of them (`Lifecycle.CounterWraps`), and they can then never be closed or aborted. In every run
  each open cycle keeps its device exactly if no device was closed while it had open cycles
  (`Lifecycle.StrandedIff`), for which fewer than 256 open cycles per device are enough
  (`Lifecycle.FewIsCareful`).
- Return addresses repeat after 16384 responses, however few of them are still awaited
  (`Flush.SharedAddressIff`). After every run two waiting responses share one exactly if the number of responses
  set up between them is a multiple of 16384, so never while the oldest is one of the last 16384
  (`Ages.AddressesDiffer`); 16385 reads without an answer lead to a clash (`Cases.AddressesClash`).
- The interface (api/etherbone.h:467-469) says that a cycle was sent exactly if its status is OK. The code also
  reports SEGFAULT, TIMEOUT and FAIL for cycles that were sent (`Cases.SentNotOk`), and OK for a cycle without
  operations, of which nothing is sent (`Cases.OkNotSent`). After every run a cycle that had its callback was
  sent exactly if the status is SEGFAULT or FAIL, or OK and operations are shown, or TIMEOUT and its device was
  flushed after the cycle was closed (`Fates.SentIff`), and the sentence of the interface holds exactly in the
  remaining cases (`Fates.StatusTellsIff`).
- A cycle that ran out of memory can be shown its own index where an operation is expected
  (api/glue/device.c:312), because the mark shares the field (`Cases.OwnIndexShown`). After every run that is
  so exactly if memory ran out while the cycle was filled and its device was closed before it was flushed again
  (`Fates.OwnIndexIff`).
- The rebuilt deadline is the true one exactly within a signed 16-bit distance of the cached clock
  (`SocketDevice.RebuildIff`); over every run with a clock that does not go back this makes expiry exact while
  the first response of the front list is not overdue by more than that (`Ages.ExpireInRun`). A caller that asks
  for the next deadline right before each look at the clock, and looks at least every 32768 seconds, always
  meets that condition (`Expiry.ExpirePaced`).
- Expiry only looks at the front list of responses (api/glue/socket.c:375). A look at the clock leaves no due
  response behind exactly if the back list is empty or its oldest response is not due
  (`Expiry.AllDueLeaveIff`); otherwise a response waits past its deadline (`Cases.DueLeftBehind`). Asking and
  looking twice in a row leaves none (`Expiry.TwoLooks`).
- Marking and erasing flash sectors use the same numbers exactly if the image starts on a sector boundary
  (`Flash.MarkAgreesIff`).
- The erase bitmap has a bit for every sector exactly if the image is empty, or has a multiple of eight
  pages when sectors are pages, or at least eight pages when sectors are larger (`Flash.BitmapFitsIff`).
- The head loop of the copy tools stays inside the range exactly if the range reaches a bulk boundary
  (`Tiling.PlanStaysIff`). If it does not, eb-put ends when the file does; what it had queued by then was not
  flushed yet, so nothing is written (`Tiling.Memory.Put`).
- The 17 bits sent to the UART hold the scaled speed exactly up to 15624940 baud (`Baud.ReceivedIff`), and the
  first of them is lost if the clock line was left up (`Baud.Board.BangBaudRate`).
- A socket with no devices serves a table that the library's own scan reports as a failure
  (`Sdb.TableRoundTrip`).

## Model

| member | source | states |
|---|---|---|
| Words.WordRoundTrip | api/format/master.c:45-51 | a word that fits its bytes is read back from the bytes it was written as |
| Words.MostSignificantFirst | api/format/slave.c:43-50 | the first byte of a word is the most significant one |
| Words.BytesRoundTrip | api/format/slave.c:43-58 | writing what was read restores the bytes |
| Words.LaneShift | api/format/slave.c:331-332 | shifting a sub-word up to its lanes and down again under the mask gives it back, without overflow |
| Lanes.AlignmentIs | api/format/slave.c:192-199 | words take the fewest of 2, 4 or 8 bytes that hold an address and a data word; headers as many, but at least four |
| Lanes.Log2OfBit | api/format/slave.c:60-62 | the multiply-and-shift table yields the position of every single bit |
| Lanes.SelectRoundTrip | api/format/slave.c:238-261 | the select byte the master writes decodes to the size and shift it was made from, and is accepted |
| Lanes.SelectAcceptedIff | api/format/slave.c:251-257 | a select byte is accepted exactly if it is an aligned power-of-two run of lanes inside the port |
| Widths.HighestBitIsLargest | api/glue/widths.c:47-62 | refining a mask keeps its largest width |
| Widths.RefineCorrect | api/glue/widths.c:32-62 | a possible mask refines to a refined one made of the largest widths of the mask; an impossible one does not |
| Operations.SizeIsLargest | api/format/master.c:168-170 | the size chosen is the largest width that the format lists and the port carries; 0 exactly if there is none |
| Operations.AddressTestIff | api/format/master.c:190-202 | the mask test accepts exactly the aligned addresses inside the address width |
| Operations.CheckCorrect | api/format/master.c:164-213 | accepted exactly under the documented conditions, and each refusal has the documented status |
| Operations.LowAddressFits | api/format/master.c:437-443 | an accepted operation sits on aligned lanes of the port |
| Records.RecordRoundTrip | api/format/slave.c:222-236 | parsing an encoded record gives the record back, whatever follows it |
| Records.FlagBits | api/format/format.h:39-44 | which bit of the flag byte each flag is |
| Records.FlagsRoundTrip | api/format/format.h:39-44 | the six flags do not disturb each other |
| Bus.ConfigBytes | api/glue/readwrite.c:178-201 | a read of configuration space shows the error register byte by byte, most significant first, and zeros behind it |
| Bus.RunConcat | api/format/slave.c:327-349 | executing two lists one after the other is executing their concatenation |
| Bus.ConfigReadFaithfulIff | api/format/slave.c:385-395 | a configuration read looks at the address asked for exactly if it lies within the address width and is not little-endian |
| Bus.ConfigReadElsewhere | api/format/slave.c:385-395 | a read behind the address width, and a little-endian one, that look elsewhere |
| Packer.PlanRunsCorrect | api/format/master.c:261-364 | the writes of a record are one chain, FIFO or sequential, the reads are one group, and all share lanes and address space |
| Packer.PlanCountsCorrect | api/format/master.c:366-375 | the packing loop makes progress; a status read comes exactly when the limit is reached or the cycle ends with operations uncovered, and never covers more than the limit |
| Packer.WritesLongest | api/format/master.c:263-335 | no longer run of writes would fit the record, whichever way its addresses go on |
| Packer.ReadsLongest | api/format/master.c:337-364 | no longer group of reads would fit behind the writes |
| Packer.ExtendWritesChain | api/format/master.c:294-334 | the chain of writes is as long as it can be |
| Packer.ExtendReadsJoin | api/format/master.c:352-363 | the group of reads is as long as it can be |
| Meaning.OpLaneDecodes | api/format/master.c:437-452 | the slave recovers the lanes of every accepted operation |
| Meaning.WriteTargetRecovers | api/format/slave.c:316-325 | the slave rebuilds both byte addresses of a write, in either endian |
| Meaning.ReadTargetRecovers | api/format/slave.c:385-388 | and of a read |
| Meaning.AdvanceFollows | api/format/slave.c:344-348 | moving the address registers follows the chain of writes |
| Meaning.RecordWrites | api/format/slave.c:309-350 | the writes of a packed record do to the bus what the operations do directly |
| Meaning.RecordReads | api/format/slave.c:381-410 | the reads of a packed record return the outcomes of direct execution |
| Meaning.StatusRead | api/format/master.c:475-487 | reading the status register shows the newest error bits, at every port width |
| Interpreter.RefusedRecord | api/format/slave.c:327-350 | a refused select byte leaves the device alone: a fault for each bus operation, nothing in configuration space, zeros for reads |
| Interpreter.ReplyFits | api/format/slave.c:358-418 | the reply to a record is never longer than the record, added terminators included |
| Interpreter.ServeRecord | api/format/slave.c:222-418 | serving a record of the input answers with no more bytes than it reads |
| SlaveDevice.Slave.DoWrites | api/format/slave.c:309-350 | the write loop reads its words from the buffer and leaves it alone |
| SlaveDevice.Slave.DoReads | api/format/slave.c:381-410 | each value is written behind the addresses still to be read |
| SlaveDevice.Slave.DoReply | api/format/slave.c:352-410 | reply header, echoed return address and values, in place |
| SlaveDevice.Slave.DoAnswer | api/format/slave.c:352-418 | what a record sends back, with the end of a cycle an earlier reply left open |
| SlaveDevice.Slave.DoRecord | api/format/slave.c:222-418 | one turn of the loop equals serving one record, in the shared buffer |
| SlaveDevice.Slave.Serve | api/format/slave.c:207-419 | the in-place slave equals the interpreter; the reply stays at or behind the read pointer and nothing outside the message changes |
| Wire.CompileFits | api/format/master.c:71-71 | every packed record can be encoded: counts of at most 255 and words that fit the alignment |
| Wire.ServeEncoded | api/format/slave.c:218-424 | serving encoded records is executing the records, and the reply is the encoding of their replies |
| Wire.CycleExecuted | api/format/master.c:254-503 | a packed cycle means its operations to every slave, whatever its session state |
| Wire.RecordRequests | api/format/master.c:445-502 | the writes and reads decoded from one packed record are the operations it took |
| Wire.RequestRoundTrip | api/format/master.c:250-503 | decoding a request yields the same operations in order, reads of configuration space included: kind, space, size, addresses and values; and a slave does exactly these to its device |
| Wire.EndToEndOnBytes | api/glue/readwrite.c:38-132 | from any slave session and among any other responses, the reply to a cycle completes its own response with the values and faults of direct execution |
| EndToEnd.RecordMeaning | api/format/slave.c:222-418 | the effect and the reply of each packed record in terms of the operations it took |
| EndToEnd.RecordExecuted | api/format/master.c:433-435 | between records the slave has executed exactly the operations packed so far, with the count awaiting status |
| EndToEnd.RecordAnswered | api/glue/readwrite.c:66-111 | one record's reply carries the response exactly as far |
| EndToEnd.CycleServed | api/format/master.c:254-503 | from any point of a cycle, packing, serving and feeding back the rest completes it |
| Delivery.DeliverRead | api/glue/readwrite.c:67-83 | a read-back goes to the next read of the cycle and no other |
| Delivery.ErrorHistory | api/glue/readwrite.c:174-175 | after a run the register's low bits are the faults of its bus operations, newest lowest, however the register began |
| Delivery.GroupRecounted | api/glue/readwrite.c:88-97 | the group counted on the response side is the group the master's status read covers |
| Delivery.GroupAssigned | api/glue/readwrite.c:101-110 | bit ops-1-k of the word goes to the k-th bus operation of its group; configuration operations are skipped |
| Delivery.DeliverStatus | api/glue/readwrite.c:84-111 | a status word marks exactly the faulty operations of its group and moves the cursor behind it |
| Delivery.ReplyCalls | api/glue/readwrite.c:66-132 | which callback a reply word causes: FAIL exactly if its response does not wait for it, otherwise none, or OK or SEGFAULT when the response is complete |
| Delivery.StandsStatus | api/glue/readwrite.c:84-132 | a status word on the queue changes its own response only, and calls back once when nothing is missing |
| Delivery.StandsRead | api/glue/readwrite.c:66-132 | the same for a read-back |
| Responses.WriteConfigRefines | api/glue/readwrite.c:51-64 | the two lists answer as the one queue they represent, and only the first response at the address is touched |
| Responses.EnqueueIsLast | api/format/master.c:525-527 | a new response stands last |
| Responses.FindAppend | api/glue/readwrite.c:54-64 | the front list is searched before the back list |
| SocketDevice.Flip | api/glue/socket.c:157-170 | in-place reversal of a response list |
| SocketDevice.FilterInflight | api/glue/socket.c:218-247 | the partition pushes each response onto its own side |
| SocketDevice.Socket.FindResponse | api/glue/readwrite.c:51-64 | finds the first waiting response, turning the back list round only when the front has none |
| SocketDevice.Socket.WriteConfig | api/glue/readwrite.c:38-132 | the search, delivery and completion, on the two lists, equal the specification |
| SocketDevice.DoStatusBack | api/glue/readwrite.c:84-111 | the two counting loops equal the specification |
| SocketDevice.WorstStatus | api/glue/readwrite.c:120-125 | SEGFAULT exactly if some operation has its error flag |
| SocketDevice.NextRead | api/glue/operation.c:82-90 | the cursor search stops at the next read |
| SocketDevice.NextBus | api/glue/operation.c:72-80 | and at the next bus operation |
| SocketDevice.SelectConcat | api/glue/socket.c:228-243 | selecting a device's responses keeps their order on both sides |
| SocketDevice.Socket.Kill | api/glue/socket.c:249-285 | a stable partition: the others keep their order, the device's own are called back oldest first, once each |
| SocketDevice.RebuildIff | api/glue/socket.c:345-351 | the 16-bit deadline rebuilds the true one exactly within a signed 16-bit distance of the clock |
| SocketDevice.ExpireExact | api/glue/socket.c:374-392 | when due times are sorted and near the clock, exactly the expired responses of the front list leave |
| SocketDevice.TurnedSame | api/glue/socket.c:339-343 | turning the back list round leaves the queue as it is |
| SocketDevice.Socket.Timeout | api/glue/socket.c:329-355 | the queue stays the same, and the deadline reported is that of its oldest response, or 0 |
| SocketDevice.Socket.CheckExpired | api/glue/socket.c:374-399 | the expiry loop removes that prefix, calls each back once, and then advances the clock |
| Flush.RecordBound | api/format/master.c:71-71 | no record is longer than the fixed buffer |
| Flush.ValidateExact | api/format/master.c:162-221 | validation accepts each operation in its place, or stops at the first that is refused |
| Flush.ClaimIs | api/format/master.c:521-523 | return addresses go round in the upper half of 16 bits, always even |
| Flush.SharedAddressIff | api/format/master.c:521-523 | two responses share an address exactly if they are a multiple of 16384 apart |
| Packets.PackOnStream | api/format/master.c:389-392 | wherever the buffer spills, what a cycle puts on a stream is its records |
| Packets.PackInPackets | api/format/master.c:393-427 | on datagrams a cycle overflows exactly if it does not fit a datagram alone, and then leaves nothing behind |
| Packets.ReadbackIff | api/format/master.c:477-491 | a response is set up exactly if a reply will come |
| Packets.FlushCycleCorrect | api/format/master.c:132-533 | for every cycle: what it sends, and either one waiting response or one callback with the documented status |
| Packets.PackStops | api/format/master.c:393-427 | packing stops at the first operation of the first record for which there is no room |
| Packets.OverflowShows | api/format/master.c:415-421 | on OVERFLOW the callback is shown operation k exactly if the records in front of the one that begins with k fit together and that one does not, and none exactly if no operation is left |
| Packets.StreamPacking | api/format/master.c:540-543 | all sends of a flush concatenate to the accepted cycles' requests in queue order, each within the buffer |
| Packets.PacketAtomicity | api/format/master.c:393-427 | every datagram is at most MTU long and holds the header and whole cycles in queue order |
| MasterDevice.ScanWrites | api/format/master.c:263-335 | the write scan equals the specification |
| MasterDevice.ScanReads | api/format/master.c:337-364 | the read scan equals the specification |
| MasterDevice.ScanRecord | api/format/master.c:261-375 | both scans and the status decision together |
| MasterDevice.CheckCycle | api/format/master.c:162-213 | the validation loop stops at the first bad operation |
| MasterDevice.StoreRecord | api/format/master.c:445-502 | the record written into the buffer is the encoding of the plan's record |
| MasterDevice.Master.MakeRoom | api/format/master.c:383-427 | spilling, or sending whole cycles and moving the current one to the front |
| MasterDevice.Master.PackCycle | api/format/master.c:250-503 | the packing loop with its pointers equals the specification |
| MasterDevice.Master.FlushOne | api/format/master.c:132-533 | one cycle of a flush with its pointers equals the specification |
| MasterDevice.ReverseCycles | api/format/master.c:122-129 | the ready list is turned into queue order |
| MasterDevice.Master.Flush | api/format/master.c:57-558 | the whole flush with buffer, pointers and lists equals the specification |
| Stream.ServeSplit | api/format/slave.c:278-307 | serving a stream in two pieces is serving it in one |
| Stream.ServeBlind | api/format/slave.c:213-216 | error history and reply bookkeeping never reach the device, for any bytes |
| Stream.DeliverInStep | api/format/slave.c:426-444 | a connection survives a cutting exactly if no cut is bad, and then stands where the uncut stream would |
| Stream.SameBus | api/format/slave.c:213-444 | all surviving cuttings of the same bytes put the device through the same states |
| StreamDevice.Connection.Arrive | api/format/slave.c:286-307 | appending, serving in place and moving the rest to the front equal the specification |
| Chunks.PartOpen | api/format/slave.c:426-444 | the line never comes to rest inside a cycle |
| Chunks.BadCutIff | api/format/slave.c:443-444 | a cut ends the connection exactly if it leaves a non-empty part of a header behind a closed cycle |
| Chunks.StreamAnswered | api/format/slave.c:218-446 | a stream of cycles, cut anywhere it survives, is answered cycle by cycle, and ends at rest; sessions begin exactly behind the cycles with which a piece ends |
| Chunks.DirectSame | api/format/slave.c:213-214 | where the error register is cleared the device never notices, and the callbacks do not if all reads of it are settled |
| Chunks.RepliesClose | api/format/slave.c:413-418 | the reply to a cycle closes the master's line as the request closed the slave's |
| Chunks.RepliesOpen | api/format/slave.c:352-418 | the replies to a cycle are one cycle, whose line goes down with the last; none exactly if nothing is read |
| Chunks.CompileQuiet | api/format/master.c:507-513 | a cycle that needs no reply contains no reads at all |
| Chunks.StreamEndToEnd | api/glue/readwrite.c:114-132 | requests and replies cut anywhere: the bus of direct execution, and each awaited cycle called back once with its results |
| History.HistoryBit | api/glue/readwrite.c:174-175 | each bit a read of the error register shows: the newest are the faults of the cycle's own earlier bus operations, the others what the register held before |
| History.RunAlike | api/format/slave.c:213-214 | device state, faults and everything read from elsewhere do not depend on what the register held before |
| History.SteadyIff | api/format/slave.c:213-214 | a cycle's outcomes do not depend on what the register held before exactly if each read of it at address A comes after at least 8 * (8 - A) of its own bus operations |
| Cuts.CutsShow | api/format/slave.c:213-216 | one stream cut in two ways that both survive is answered with different bytes |
| RoundTrip.FlushSends | api/format/master.c:505-533 | what a flush sends, and the responses it leaves waiting, belong to the same cycles in the same order |
| RoundTrip.FlushedRoundTrip | api/format/master.c:57-558 | flush, request stream, slave, reply stream and callbacks together equal direct execution of the accepted cycles |
| RoundTrip.SocketTakesReplies | api/format/slave.c:334-336 | a socket of the library, whatever devices are attached, takes writes to its configuration space as replies |
| DatagramDelivery.DatagramAnswered | api/format/slave.c:126-185 | any datagram: only one with the magic number, version 1, no probe and the right widths reaches the device; it is answered exactly if there is something to send back and no record is cut off; the header goes back with bit 2 set |
| DatagramDelivery.AnswerTaken | api/format/slave.c:421-424 | a datagram of whole cycles is answered by at most one datagram, and the other side takes from it what it would take from the bytes alone |
| DatagramDelivery.RestartsConcat | api/format/slave.c:213-216 | sessions over datagrams begin where the datagrams end |
| DatagramDelivery.DatagramRoundTrip | api/format/master.c:393-427 | the whole way over datagrams, in order and none lost, equals direct execution of the accepted cycles |
| Replying.StreamTaken | api/glue/readwrite.c:38-132 | what a stream brings back, cut anywhere, leads the library where taking its reply words one by one does |
| Replying.DatagramsTaken | api/glue/readwrite.c:38-132 | the same of datagrams, whichever arrive |
| Losses.StaleCycle | api/glue/readwrite.c:51-64 | the reply to a cycle that does not wait any more changes nothing |
| Losses.DatagramServed | api/format/slave.c:421-424 | a datagram of whole cycles does what the cycles do, and an answer to it that nobody waits for changes nothing |
| Losses.OneReturns | api/glue/readwrite.c:51-132 | the first answer to a datagram completes its cycles, wherever they stand in the queue; a further one changes nothing |
| Losses.FlushGroups | api/format/master.c:393-427 | the datagrams of a flush carry its cycles in groups, in queue order |
| Losses.AnyDelivery | api/format/master.c:393-427 | whatever datagrams and answers are lost, doubled or reordered: the device goes through direct executions of those that arrive, the first answers call back with the results of their own execution, and all other cycles still wait |
| Losses.TurnsSpread | api/format/master.c:521-523 | a flush that sets up fewer than 16384 responses uses each return address once |
| Losses.AnyDeliveryInRun | api/format/master.c:57-558 | the same at any point of the life of the library |
| Lifecycle.Next | api/glue/cycle.c:48-140 | every step the interface allows leads from one consistent library to another: responses, counters, return address and clock in their ranges (what cycles hold is said by `Fates`, what is sent by `InRuns`) |
| Lifecycle.InvariantKept | api/glue/cycle.c:48-140 | every step keeps: one place per cycle, exact counters modulo 256, no responses of closed devices |
| Lifecycle.RunsKeep | api/glue/cycle.c:48-140 | so does every run |
| Lifecycle.ExactlyOnce | api/etherbone.h:458-465 | in every run each closed cycle is ready, in flight or called back, exactly one of them and once |
| Lifecycle.AllAnswered | api/glue/device.c:283-317 | once all devices are closed every closed cycle has had its one callback, and no cycle is left open exactly if no device was closed under one |
| Lifecycle.StrandedIff | api/glue/device.c:280-281 | after every run each open cycle still has its device exactly if no device was closed while it had open cycles |
| Lifecycle.FewIsCareful | api/glue/device.c:280-281 | with fewer than 256 open cycles per device at any time no device is closed under one |
| Lifecycle.LogGrows | api/glue/socket.c:266-284 | no step takes a callback back or changes one |
| Lifecycle.BusyIff | api/glue/device.c:280-281 | after every run, closing goes through exactly if the number of open cycles is a multiple of 256 |
| Lifecycle.CounterWraps | api/glue/device.c:280-281 | the run that opens a device and 256 cycles and closes the device is possible and leaves all 256 open on a device that is gone |
| Order.StepOrder | api/glue/device.c:297-317 | no step lets a waiting cycle of a device overtake another |
| Order.ClosedInOrder | api/glue/device.c:297-317 | closing a device answers its waiting cycles in the order in which they were closed |
| Ages.AddressesInOrder | api/format/master.c:515-527 | after every run the waiting responses stand in the order in which they were set up, each at the return address of its turn |
| Ages.AddressesDiffer | api/format/master.c:521-523 | after every run two waiting responses share a return address exactly if a multiple of 16384 responses was set up between them, so never while the oldest is one of the last 16384 |
| Ages.DueInOrder | api/format/master.c:516-516 | with a clock that does not go back the waiting responses stand in the order of their due times |
| Ages.ExpireInRun | api/glue/socket.c:374-392 | over every such run, exactly the due responses of the front list leave unless its first is overdue by half of the 16-bit range |
| Expiry.PunctualStep | api/glue/socket.c:329-399 | a caller that asks before it looks, at least every 32768 seconds, keeps every deadline within what 16 bits can tell |
| Expiry.ExpirePaced | api/glue/socket.c:374-392 | after every such run the next look takes exactly the responses of the front list that are due |
| Expiry.AllDueLeaveIff | api/glue/socket.c:374-392 | a look leaves no due response behind exactly if the back list is empty or its oldest is not due |
| Expiry.TwoLooks | api/glue/socket.c:339-399 | asking and looking twice leaves no due response |
| Fates.ReadyAsAsked | api/glue/cycle.c:190-217 | after every run each ready cycle holds what was queued into it, in the order of the calls, on the device it was opened on |
| Fates.OpenAsAsked | api/glue/cycle.c:190-217 | and each open cycle, newest first |
| Fates.DeviceAsAsked | api/glue/device.c:236-252 | after every run each device is the one that was opened |
| Fates.CallbackShows | api/etherbone.h:467-475 | after every run each callback shows the operations of its own cycle in order, with an error flag exactly if the status says so, or the one that was refused |
| Fates.SentIff | api/etherbone.h:467-468 | after every run a cycle that was called back was sent exactly if its status, what it was shown and the flushes of its device say so |
| Fates.StatusTellsIff | api/etherbone.h:467-469 | the status is OK exactly if the cycle was sent, exactly in the cases in which the interface keeps its promise |
| Fates.OwnIndexIff | api/glue/device.c:306-317 | a callback is shown the cycle's own index exactly if memory ran out and the device was closed without a flush in between |
| Cases.SentNotOk | api/glue/readwrite.c:118-128 | a run in which a cycle that was sent is called back with SEGFAULT |
| Cases.OkNotSent | api/format/master.c:155-160 | a run in which a cycle that was not sent is called back with OK |
| Cases.OwnIndexShown | api/glue/device.c:306-317 | a run in which a callback is shown its own index |
| Cases.DueLeftBehind | api/glue/socket.c:374-377 | a run in which a due response stays in the back list |
| Cases.AddressesClash | api/format/master.c:521-523 | a run in which two waiting responses share a return address |
| InRuns.ApartInRun | api/format/master.c:521-523 | a flush whose oldest waiting response is young uses no return address that is waited at |
| InRuns.FlushedAsQueued | api/etherbone.h:453-456 | after every run a flush puts on the line cycles that carry what was queued into them, in the order of the calls, and stand in the order in which they were closed |
| InRuns.StreamInRun | api/format/master.c:57-558 | the round trip on a stream at any point of the life of the library |
| InRuns.DatagramsInRun | api/format/master.c:57-558 | the round trip over datagrams at any point of the life of the library |
| Memory.ChainAcyclic | api/memory/array.c:38-57 | a list that ends visits no cell twice |
| Memory.PoolSound | api/memory/dynamic.c:41-70 | the free list is acyclic and apart from live cells, EB_NULL is never handed out, free and live cells are the linked ones, the 16-bit count is exact |
| Memory.DeadMark | api/glue/cycle.c:190-217 | a cycle points to itself exactly if it ran out of memory |
| Memory.ClosedOrder | api/glue/cycle.c:113-140 | pushing operations and closing leaves them in the order they were queued |
| Memory.Pool.LinkCells | api/memory/dynamic.c:61-65 | the cells of a new stretch are chained, in 16-bit arithmetic |
| Memory.Pool.Expand | api/memory/dynamic.c:41-70 | growing by doubling, or linking the fixed array once, keeps all live cells; it fails exactly when full or out of memory |
| Memory.Pool.New | api/memory/array.c:38-51 | a cell nobody holds, or EB_NULL exactly if the free list is empty and cannot grow |
| Memory.Pool.Release | api/memory/array.c:53-57 | the cell goes to the front of the free list |
| Memory.Pool.OpenCycle | api/glue/cycle.c:48-83 | a fresh cycle, or nothing and nothing leaked |
| Memory.Pool.Doop | api/glue/cycle.c:190-217 | pushes the operation, or gives all of the cycle's operations back and marks it for good |
| Memory.Pool.ReverseList | api/glue/cycle.c:122-132 | in-place reversal of the linked operations |
| Memory.Pool.RawClose | api/glue/cycle.c:113-140 | the cycle's operations in queue order, no cell lost |
| Memory.Pool.Destroy | api/glue/cycle.c:85-99 | all operations of the cycle go back, nothing else does |
| Memory.Pool.Abort | api/glue/cycle.c:101-111 | the cycle and its operations go back |
| Holdings.MovesLead | api/format/master.c:148-232 | every call of the library takes only what is not held and gives back only what is, each once, and afterwards exactly that is held to which the library refers |
| Holdings.HeldInRun | api/glue/socket.c:386-391 | so does every run |
| Holdings.AllGivenBack | api/glue/device.c:306-317 | once all devices are closed everything was given back exactly if no device was closed under an open cycle |
| Holdings.UsedIs | api/memory/array.c:38-57 | the pool's 16-bit count is the number of cycles, operations and responses that are held |
| Holdings.Replay | api/memory/array.c:38-57 | such calls never break the pool: each piece has a cell of its own until it is given back, and only an exhausted pool stops them |
| Holdings.CoupledAtStart | api/memory/array.c:34-36 | a library that was just set up and a pool of which nothing was handed out are coupled |
| Holdings.Perform | api/memory/array.c:38-57 | every call of the library keeps library and pool coupled |
| Sdb.Extract | api/glue/sdb.c:41-54 | the big-endian word at an offset of a record |
| Sdb.Read | api/glue/sdb.c:104-132 | every aligned read of any width returns the bytes of the one table, and zero behind it |
| Sdb.FillBlock | api/glue/sdb.c:134-155 | the answers are laid out in order up to the first failure or the end of the buffer, with the right code |
| Sdb.FillIff | api/glue/sdb.c:126-156 | the code is 0 if all reads are fine and fit, -1 if there is room up to the first that failed, and 1 if the room ends in front of one that is fine |
| Sdb.FilledIs | api/glue/sdb.c:126-156 | the buffer holds the values in front of the read where filling stops |
| Sdb.FillAll | api/glue/sdb.c:134-155 | reads that fit are laid out completely; more data is reported as such |
| Sdb.DeviceRoundTrip | api/glue/sdb.c:164-228 | decoding a device record restores every field; its addresses are the sums with the bus base, in 64 bits |
| Sdb.BridgeRoundTrip | api/glue/sdb.c:208-212 | and a bridge record, with the table behind it |
| Sdb.OthersRoundTrip | api/glue/sdb.c:213-224 | of an integration record the product, of others the type |
| Sdb.InterconnectRoundTrip | api/glue/sdb.c:56-80 | the header comes back with magic, record count and the whole address range |
| Sdb.ScanIff | api/glue/sdb.c:251-346 | whatever the other side answers, a scan succeeds exactly if header and magic number are read, the table has 2 to 256 records, and all of it is read; larger tables are reported as lack of memory, everything else as a failure |
| Sdb.TableRoundTrip | api/glue/sdb.c:251-346 | 1 to 255 devices, read at any width, come back in list order with every field; none at all is a failure |
| Handlers.FindIff | api/glue/readwrite.c:150-155 | the device that covers an address is the one found, whatever the order of the list |
| Handlers.Local.Attach | api/glue/handler.c:36-96 | refused exactly if memory is short, the range reaches into the table or overlaps; otherwise the newest of the list |
| Handlers.Local.Detach | api/glue/handler.c:98-121 | takes exactly that device out |
| Handlers.Local.Write | api/glue/readwrite.c:135-176 | dispatch of a write and the bit shifted into the error register |
| Handlers.Local.Read | api/glue/readwrite.c:203-248 | dispatch of a read, the table included |
| Handlers.OverlapIff | api/glue/handler.c:60-70 | two ranges overlap exactly if some address is in both |
| Handlers.DeviceServes | api/glue/readwrite.c:147-175 | an operation is answered by the device whose range holds its big-endian address, which gets the operation's own address if it counts bytes the same way and the mirrored one otherwise |
| Handlers.TableServed | api/glue/readwrite.c:212-216 | what a slave serves as its table is the table that the scan reads back |
| Identity.MatchesAre | api/glue/sdb.c:540-556 | the matches are the records of that vendor and device in the whole tree, each as often as it is there |
| Identity.Search.Arrive | api/glue/sdb.c:533-567 | one bus answered: its matches counted, a scan started per bridge, and the number of unvisited buses shrinks |
| Identity.FindByIdentity | api/glue/sdb.c:569-585 | the search ends; without failures every match in the whole tree is counted, and those stored are matches |
| Flash.FlipMirrors | tools/eb-flash.c:107-124 | bit 8k+j of the result is bit 8k+7-j of the argument |
| Flash.FlipMeans | tools/eb-flash.c:107-109 | bits are mirrored exactly if the device asks for it |
| Flash.FlipTwice | tools/eb-flash.c:107-124 | flipping twice changes nothing |
| Flash.OnesAre | tools/eb-flash.c:1013-1016 | all ones in a word of each size |
| Flash.SkipSound | tools/eb-flash.c:501-513 | skipping all-ones words before the flip is sound |
| Flash.SetBitSets | tools/eb-flash.c:97-105 | setting one bit of the bitmap sets that bit only |
| Flash.MarkAgreesIff | tools/eb-flash.c:306-309 | marking agrees with the scan order exactly if the image starts on a sector boundary |
| Flash.BitmapFitsIff | tools/eb-flash.c:840-841 | the bitmap has a bit for every sector exactly under the stated condition on the number of pages |
| Flash.Flasher.Answer | tools/eb-flash.c:287-311 | a late answer marks the sector of its own address, and only if it is dirty |
| Flash.Flasher.QuickScanGap | tools/eb-flash.c:314-378 | one stripe of every unmarked sector, whenever the answers come in |
| Flash.Flasher.QuickScan | tools/eb-flash.c:380-397 | afterwards exactly the dirty sectors are marked, no word was read twice, and clean sectors were read completely |
| Flash.Flasher.EraseFlash | tools/eb-flash.c:399-429 | the flash is blank; the marked sectors were erased, each once and in order, and the others were left alone |
| Flash.Flasher.ProgramFlash | tools/eb-flash.c:452-548 | on a device that can only clear bits every word of the image gets its value, mirrored exactly if the device wants that; words of ones are left out only up to the first other word of their page, and the rest of the page is written |
| Flash.Flasher.Program | tools/eb-flash.c:1021-1028 | scan, erase and program together put the (flipped) image onto any previous contents, and erase exactly the sectors that were not blank |
| Tiling.WidthChoice | api/tools/eb-put.c:360-367 | bulk is the largest and edge the smallest common width |
| Tiling.Plan | api/tools/eb-put.c:418-450 | aligned transfers that cover the range once and in order, at most 32 per cycle |
| Tiling.PlanStaysIff | api/tools/eb-put.c:420-422 | the plan stays in the range exactly if the range reaches a bulk boundary |
| Tiling.LoadOrder | api/tools/eb-put.c:121-133 | which end of a word is at the lowest address, for either byte order |
| Tiling.StoreLoad | api/tools/eb-snoop.c:63-115 | storing a loaded word restores the bytes, in both byte orders |
| Tiling.Assemble | api/tools/eb-put.c:121-133 | the word of some bytes in the device's order |
| Tiling.Disassemble | api/tools/eb-get.c:103-113 | the bytes of a word in the device's order |
| Tiling.Memory.QueueHead | api/tools/eb-put.c:420-422 | the head loop queues the words of the file up to a bulk boundary, or all of them if the file ends first |
| Tiling.Memory.Put | api/tools/eb-put.c:418-450 | the range holds the file and nothing else changed; nothing changed at all if the range reaches no bulk boundary |
| Tiling.Memory.Get | api/tools/eb-get.c:430-464 | the file holds the range |
| Tiling.Memory.PutThenGet | api/tools/eb-get.c:85-127 | what was put comes back, in either byte order and with any widths |
| Baud.ScaledIsNearest | hdl/eb_usb_core/cdc_acm.c:302-318 | the two-step division yields the nearest whole number |
| Baud.ReceivedIff | hdl/eb_usb_core/cdc_acm.c:325-334 | the 17 bits received spell the scaled speed exactly up to 15624940 baud |
| Baud.Scale | hdl/eb_usb_core/cdc_acm.c:306-318 | no intermediate value exceeds 32 bits, and the result is that of one exact division |
| Baud.Board.BangBaudRate | hdl/eb_usb_core/cdc_acm.c:289-335 | the other end clocks in the low 17 bits, lowest first, all but the lowest if the clock was up; the other port pins keep their level |

## Left out

- Transports, sockets, `select` and blocking runs: sending and receiving are lists of byte strings.
- Width negotiation and probes: the port is given and its widths are refined; the packet header is written as fixed bytes.
- The "no reads" header flag: it depends on cycles that later overflow and is not interpreted by the receiver of requests; a flush is modelled without it, and replies set it.
- A flush of a device whose link is already gone returns FAIL and does nothing; devices of the model have their link until they are closed.
- Callbacks that call back into the library: a cycle queued from inside a flush is lost by the final clearing of the ready list, so callbacks are only recorded.
- Pool built on malloc: it has no indices; `Memory` covers the growing and the fixed array.
- Reads through a pointer store into the caller's word; the model keeps the value in the operation either way.
- Stale pointers after the pool moved, and the memory that `eb_socket_attach` does not free on its early returns.
- RoundTrip.FlushedRoundTrip: assumes that both connections survive the way they are cut, that nothing else is on the line, and that no older response shares a return address (see `InRuns.ApartInRun` for when that holds).
- Chunks.StreamEndToEnd: the same assumptions as the round trip of a flush.
- DatagramDelivery.DatagramRoundTrip: datagrams arrive in order and none is lost or doubled; `Losses.AnyDelivery` is about the others.
- Losses.AnyDelivery: datagrams arrive as they were sent, or not at all; and each return address is used once, for which fewer than 16384 responses in a flush are enough (`Losses.TurnsSpread`).
- Holdings.Perform: devices, sockets and handlers take cells of the pool too; the model follows those of cycles, operations and responses. How operations are linked is in `Memory`.
- Lifecycle.ExactlyOnce: callbacks do not call back into the library, and a cycle whose device was closed under it is not closed or aborted afterwards, which would use memory that was given back.
- Lifecycle.AllAnswered: the same assumptions.
- Order.ClosedInOrder: the same assumptions.
- SocketDevice.ExpireExact: speaks of the front list only, as the expiry loop does.
- Sdb.Read: the table is modelled for any number of devices, but only its first 256 records lie below the addresses of devices.
- Sdb.TableRoundTrip: decoding is a function on the filled buffer, not a loop that overwrites it; bytes behind the data are taken as zero where the source leaves them uninitialised.
- Identity.FindByIdentity: the tree of buses is finite and its tables are decoded; reading and decoding one table is in `Sdb`.
- Flash.Flasher.ProgramFlash: words behind the erase register may be written as if its page went on, as in the source.
- Flash.Flasher.Program: assumes that every sector has a bit, see `Flash.BitmapFitsIff`, and that the image starts on a sector boundary, see `Flash.MarkAgreesIff`; sector size detection, the erase register's protocol and verification are not modelled, and firmware words are given as numbers.
- Tiling.Plan: pacing by cycles per packet is not modelled; every transfer is complete before the next one matters.
- Baud.Board.BangBaudRate: pin timing is not modelled, only the sequence of levels.
- Search by address, floating-point timestamp tools, the ring buffer in top/gsi_scu/cb.c and `find_sdb_deep` in modules/lm32-include/mini_sdb.c.
