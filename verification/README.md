# Remote x86: a verified model

Remote x86 is a bare-metal debugger. A host peeks, pokes and runs code on a target PC over UDP or over RS-232. This
project models the parts of it that are hard to get right and proves what they promise, for every input and every
interleaving:

* **The UDP debug protocol, both ends.** `DebugServer` is the command server (text commands parsed out of a packet
  buffer, memory and `exec_last_seq` changed in place), `Network` the network between it and the client, `Client` the
  host library with its block splitting, sequence numbers and retransmission. The network keeps every datagram that was
  ever in flight deliverable, so a run may lose, duplicate and reorder at will; `Link.Idle` lets the environment deliver
  any schedule, `Link.Receive` returns any reply in flight or a timeout, and the link records what was sent and heard. `WriteProtocol`, `ReadProtocol` and
  `ExecProtocol` hold the invariants that every delivery keeps.
* **The small IPv4/UDP/ICMP stack.** `Checksum` (the one's-complement loop against sections 1 and 2 of RFC 1071) and
  `IpStack` (builders and parsers, ICMP echo).
* **DMA descriptor rings** shared with a NIC that runs at the same time: `RxRing` (PCnet32 and RTL8101), `TxRing`
  (PCnet32), on the bump allocator in `Allocator`. One step is one load or store of shared memory.
* **The serial debugger.** `SerialTarget` is the stub as a byte-consuming machine, `SerialStub` the same thing as the
  register program it is, `SerialHost` the host library with arbitrary short reads and writes, `Segments` the addressing
  of the three CPU modes.
* **Set-up loops.** `PageTables` (long mode), `PciBars` (BAR sizing), `FloppyLoader` (cylinder/head/sector loader),
  `AliasScan` (memory-alias scans).
* `Words`, `Numerals`, `Bits` and `RingSlots` hold machine words and flat memory, the number printers and parsers of
  both ends, masks, and cyclic indexing.

Packet buffers, the environment's choices and the clock are explicit: `tail` is whatever lies behind a datagram in the
packet buffer (the number parsers do not stop at the end of the datagram), `after` the memory that code run by EXEC
leaves behind, `now` the value of `time(NULL)`.

## What the proofs found

* A READ reply in flight during a WRITE is taken for the acknowledgement of a block exactly when it comes from the
  block's address and the memory it carries spells the block's sequence number, because `strtoul` skips its newline
  (`WriteProtocol.ReadReplyForgesIff`). Every call can be deceived so (`ForgedAck`). The WRITE theorem therefore asks
  that no READ is in flight.
* EXEC runs at most once exactly when everything that may lie behind the datagram in the packet buffer gives the same
  sequence number (`ExecProtocol.AtMostOnceIff`): the hex digits right behind the datagram become its last digits. Two
  EXEC calls in the same second carry the same sequence number: the second is answered "OK" and not run (`Job.Served`).
* `remote_eth_exec` takes any "OK " for its answer. Success means that the code was served exactly when nothing older in
  flight is or causes such a reply (`ExecProtocol.AnswerMeansServedIff`); after an upload, a late copy of a WRITE
  acknowledgement makes it return 1 with nothing run (`UploadAckTakenForExec`).
* A UDP segment whose computed checksum is 0, sent as 0xFFFF as RFC 768 asks, is dropped (`IpStack.UdpTestIsRfc1071`);
  for every pair of hosts, port and payload there is a source port for which this happens (`IpStack.SomePortIsDropped`).
* A WRITE or READ block at or above 4 GiB is stored or fetched modulo 4 GiB but never accepted by the client, since the
  server echoes only 32 bits of the address (`WriteProtocol.OwnAnswerAccepted`).
* The UDP length field is taken for the length of the payload, so up to eight bytes of padding are handed to the command
  server (`IpStack.PaddingIsHandedUp`).
* A complete received frame of fewer than 14 bytes blocks the receive ring for good, whatever the NIC does meanwhile
  (`RxRing.RuntBlocks`, `RxRing.DrainsIffNoRunt`).
* After a WRITEB both ends are in step exactly when the stub took the whole payload or what it did not take is line ends
  (`SerialTarget.WritebInStepIff`): the payload of a refused WRITEB, and in the 16-bit modes whatever exceeds the count
  modulo 65536, is read as commands.
* The boot loader never checks its cylinder byte: it reads the sectors that were meant exactly when the image ends within
  256 cylinders (`FloppyLoader.RightSectorsIffFits`).
* The floppy loader leaves BX holding the segment after 64 KiB, so sector 128 lands at 0x19800
  (`FloppyLoader.ContiguousIffFits`).
* PML2 entries keep only 32 bits of the page address, so 4 to 64 GiB alias the first 4 GiB; PROTOCOL.TXT says the first
  64 GB are directly accessible. The model follows the code.
* A failed `sendto` goes unnoticed, since its -1 is compared with an unsigned length; the client waits and retries as if
  the datagram had been lost (`Link.Send`).
* The downward alias scan reports "no aliasing" for a decoder of 21 bits or fewer (`AliasScan.ScanDown`).

## Model

| member | source | states |
|---|---|---|
| Client.Connection.Write | comm/e_lib.c:191-207 | In every run with any loss, duplication and reordering: on success the range holds the buffer, wrapping at 4 GiB, and with no older WRITE in flight nothing else changed; on success or failure every byte of the range is old or the buffer's, and a byte outside changes only through an older WRITE. It succeeds exactly when every block hears its own acknowledgement first, in at most three tries; what was sent and heard is accounted for in full |
| Client.Connection.WriteBlock | comm/e_lib.c:80-127 | One block: success, exactly when its own acknowledgement is the first reply heard, means this block and all earlier ones are in memory; over 1400 bytes is refused with nothing sent |
| Client.Connection.Retransmit | comm/e_lib.c:95-126 | The request goes out before each of at most three waits, the first reply heard decides: true exactly when it echoes the block's address and sequence number, and such an echo proves the block landed |
| Client.Connection.Attempt | comm/e_lib.c:95-108 | Sending, any schedule of deliveries and a timeout or reply keep the invariant of the call |
| Client.Connection.Read | comm/e_lib.c:173-189 | In every run, success means the buffer equals memory [addr, addr+len), wrapping, for every len; the rest of the buffer is untouched. It succeeds exactly when every block hears an answer for its address and of its length before another reply that ends its at most three tries |
| Client.Connection.ReadBlock | comm/e_lib.c:129-171 | One block is copied to its place in the buffer and nowhere else, exactly when a reply is taken within three tries; on success it is the memory of that block |
| Client.Connection.Exec | comm/e_lib.c:209-240 | Under the exact condition of AtMostOnceIff and with no older EXEC in flight the code runs at most once in every run; it answers true exactly when one of at most three waits brings a reply that starts with OK, and with nothing else in flight that answers so, the request was then served: exactly once unless the server saw this sequence number last |
| Client.Connection.WriteThenRead | comm/e_lib.c:173-207 | From an empty network, a WRITE and then READ of a range returns the bytes written, in every run, stale copies of the WRITE requests included, and succeeds exactly when all blocks of both hear their answers |
| ReadProtocol.QuietAfterWrite | comm/e_lib.c:173-207 | What a WRITE call leaves in flight cannot disturb a READ of the same range |
| WriteProtocol.ReplyNoNewline | eth/c-main.c:463-560 | Only READ replies contain a newline |
| WriteProtocol.WriteRequestParses | comm/e_lib.c:99-103 | The server reads from a WRITE exactly the address modulo 2^32, the sequence number and the bytes the client meant, whatever lies behind it in the buffer |
| WriteProtocol.BareWriteOverrunsIff | eth/c-main.c:495-508 | A WRITE without its newline stores nothing, and runs past the end of the datagram exactly when a hex digit lies behind it |
| WriteProtocol.WriteRequestFits | comm/e_lib.c:87-103 | No WRITE request exceeds 1500 bytes of IP |
| WriteProtocol.ReplyFits | eth/c-main.c:463-560 | No server reply exceeds 1500 bytes of IP |
| WriteProtocol.EchoOfWriteReply | comm/e_lib.c:111-122 | The client's strtoull and strtoul read a WRITE reply's address and sequence number back |
| WriteProtocol.OwnAnswerAccepted | comm/e_lib.c:111-124 | The server's answer to a block passes the client's test exactly when the address of the block is below 4 GiB |
| WriteProtocol.AnsweredCallSucceeds | comm/e_lib.c:80-207 | When every request, or its third copy at the latest, is answered, what a WRITE call hears is that of a successful call and of no failed one |
| WriteProtocol.LowIsReported | eth/c-main.c:520-526 | LOW answers with the end of the debugger's memory |
| WriteProtocol.EchoOfOtherReply | comm/e_lib.c:111-122 | No TEST, LOW, EXEC or error reply reads as a nonzero sequence number |
| WriteProtocol.EchoOfReadReply | comm/e_lib.c:116-122 | For every READ reply of any size, the client reads its address and, behind the newline that strtoul skips, the number its memory bytes spell |
| WriteProtocol.ReadReplyHarmlessIff | comm/e_lib.c:111-122 | A READ reply is harmless to a WRITE call exactly when the number it spells is outside the call's sequence numbers |
| WriteProtocol.ReadReplyForgesIff | comm/e_lib.c:114-122 | A READ reply passes the test for block j exactly when it comes from the block's address and spells the block's sequence number |
| WriteProtocol.ForgedAck | comm/e_lib.c:114-122 | For every call and block there is such a reply, and unless the block itself begins with those characters it is not in memory |
| WriteProtocol.BlockStore | eth/c-main.c:503-508 | Delivering a block changes exactly the bytes of that block, wrap-around included |
| WriteProtocol.DeliverOwnBlock | eth/c-main.c:495-518 | Delivering a block's request, at any time and any number of times, keeps the invariant and lands the block |
| WriteProtocol.DeliverOlder | eth/c-main.c:463-560 | Delivering any older compatible request keeps the invariant |
| WriteProtocol.RunKeepsInv | eth/c-main.c:495-518 | Every schedule of deliveries keeps the invariant of a WRITE call |
| WriteProtocol.LandedStays | eth/c-main.c:495-518 | A block in memory stays there under every later schedule of the call |
| WriteProtocol.AckMeansLanded | comm/e_lib.c:114-122 | A reply that matches a block's address and sequence number implies the block is in memory |
| ReadProtocol.ReadRequestParses | eth/c-main.c:471-478 | Whatever lies behind a READ, the server reads the address modulo 2^32 and the size that trailing hex digits extend |
| ReadProtocol.CleanReadAnswered | eth/c-main.c:471-491 | With nothing behind it that continues the number, the size is the client's, and for up to 1400 bytes the answer is taken and holds the memory asked for |
| ReadProtocol.OwnAnswerTaken | comm/e_lib.c:151-166 | The server's answer to a block is taken exactly when what lies behind the request did not make the size smaller |
| ReadProtocol.AnsweredReadSucceeds | comm/e_lib.c:129-189 | When every request, or its third copy at the latest, is answered, what a READ call hears is that of a successful call and of no failed one |
| ReadProtocol.ReadRequestFits | comm/e_lib.c:135-143 | No READ request exceeds 1500 bytes of IP |
| ReadProtocol.JudgeReadReply | comm/e_lib.c:151-166 | A READ reply of any size is accepted exactly when it holds enough bytes, and then yields its address and those bytes of memory |
| ReadProtocol.AcceptedShape | comm/e_lib.c:152-166 | Nothing but a line that begins with OK is accepted, and from it the bytes right behind its first newline |
| ReadProtocol.JudgeOther | comm/e_lib.c:151-153 | No other kind of reply contains a newline, so the client tries again |
| ReadProtocol.RunKeepsInv | eth/c-main.c:471-491 | Every schedule of deliveries keeps the invariant of a READ call: the range is unchanged and every READ reply tells the truth about it |
| ReadProtocol.AcceptedIsMemory | comm/e_lib.c:156-166 | Accepted bytes are the bytes memory holds in that block's place |
| ExecProtocol.LogIsCollapsed | eth/c-main.c:533-547 | Over every schedule the addresses executed are the EXEC requests with adjacent equal sequence numbers collapsed, starting from exec_last_seq |
| ExecProtocol.ExecRequestReads | eth/c-main.c:533-541 | For every sequence number and whatever lies behind the datagram, the server reads the address modulo 2^32 and the number that the hex digits behind it extend |
| ExecProtocol.ExecRequestParses | comm/e_lib.c:225 | With no hex digit behind it the request parses back |
| ExecProtocol.AtMostOnceIff | eth/c-main.c:533-554 | In every world: one request runs at most once over every schedule exactly when everything that may lie behind it gives the same number |
| ExecProtocol.ThreeCopies | eth/c-main.c:543-549 | Two tails that give different numbers run the code twice, whatever the server saw last |
| ExecProtocol.DirtyTailsDiffer | eth/c-main.c:364-378 | The digits 0 and 1 behind the datagram give every request two numbers |
| ExecProtocol.CleanTails | eth/c-main.c:364-378 | Packet buffers with no hex digit behind the datagram give one number, the client's own |
| ExecProtocol.ExecRequestFits | comm/e_lib.c:225 | No EXEC request exceeds 1500 bytes of IP |
| ExecProtocol.RunKeepsInv | eth/c-main.c:533-554 | Every schedule of deliveries keeps the at-most-once invariant, under the exact condition of AtMostOnceIff |
| ExecProtocol.AnswerMeansServedIff | comm/e_lib.c:234-235 | In every run an accepted answer means that the request was served, exactly when nothing older in flight is or causes a reply that starts with OK, or there was nothing to run |
| ExecProtocol.UploadAckTakenForExec | comm/e_lib.c:234-235 | After a WRITE was delivered its acknowledgement passes the test of remote_eth_exec with nothing run |
| ExecProtocol.OwnAnswerTaken | eth/c-main.c:549-553 | The server's answer to an EXEC, run or not, is one the client takes, and carries the number the server read |
| DebugServer.Target.OnUdp | eth/c-main.c:462-562 | One datagram changes memory, exec_last_seq and the execution log as the parsed command says, nothing else, and is answered accordingly |
| DebugServer.Target.constructor | eth/c-main.c:395 | exec_last_seq starts at 0xFFFFFFFF with nothing executed |
| DebugServer.Target.Memcpy | eth/c-main.c:508 | The byte loop is one wrapping store |
| DebugServer.Target.Fetch | eth/c-main.c:489 | The byte loop is one wrapping load |
| DebugServer.Target.Fields | eth/c-main.c:472-476 | Two numbers parsed out of the packet buffer |
| DebugServer.Target.SkipLine | eth/c-main.c:503-506 | The data begins after the first newline before the fence |
| DebugServer.AfterNewlineIs | eth/c-main.c:503-506 | What stands between the numbers and the newline is skipped; without a newline there is no data |
| DebugServer.ShortCommands | eth/c-main.c:463-526 | TEST and LOW are known by their first letters, whatever follows |
| DebugServer.ParseFits | eth/c-main.c:497-508 | The data of a parsed WRITE never exceeds the datagram |
| Words.LoadStore | eth/c-main.c:489 | A load returns what a store at the same address put there, across the 4 GiB wrap too |
| Words.StoreIsSplice | eth/c-main.c:508 | Without wrap-around a store is a splice of flat memory |
| Numerals.CharToHexIsPlace | eth/c-main.c:353-362 | Exactly 0-9, A-F and a-f are digits, and each has its place in the alphabet as its value |
| Numerals.StrtoulHex | eth/c-main.c:364-378 | The 32-bit shift loop gives the unbounded value of the digits modulo 2^32 and the position behind them |
| Numerals.StrtoulDec | eth/c-main.c:380-393 | The same for decimal digits |
| Numerals.SkipWhitespace | eth/c-main.c:348-351 | Skips exactly the leading spaces |
| Numerals.SkipSpacesIs | eth/c-main.c:348-351 | All leading spaces are skipped and nothing else |
| Numerals.HexToStr | eth/c-main.c:399-407 | Eight digits, most significant first, of a 32-bit number |
| Numerals.WriteDec | eth/c-main.c:765-776 | The decimal digits of any 32-bit number; the 12-byte stack never runs out |
| Numerals.Strtohex32 | stage2-8086.asm:564-602 | DX:AX is the value of the digits modulo 2^32, AX alone (all that strtohex keeps) modulo 2^16, and SI ends one past the first non-digit |
| Numerals.HexFieldOfPrinted | eth/c-main.c:364-378 | s_strtoul_hex reads any number printed with %X or %llX back modulo 2^32 |
| Numerals.FieldSeenIsRead | eth/c-main.c:364-378 | What s_strtoul_hex makes of a printed number with anything at all behind it |
| Numerals.HexFieldOfPrefixed | eth/c-main.c:368 | A 0x in front of a number is skipped |
| Numerals.HexFieldOfHex8 | eth/c-main.c:399-407 | s_strtoul_hex reads hex_to_str back unchanged |
| Numerals.DecFieldOfPrinted | eth/c-main.c:380-393 | s_strtoul_dec reads vga_write_dec back for every 32-bit number |
| Numerals.ReadIpv4 | eth/c-main.c:820-837 | The typed address, or None when a dot is missing |
| Numerals.Ipv4RoundTrip | eth/c-main.c:778-783 | A printed IPv4 address typed back in is unchanged |
| Numerals.Ipv4Typed | eth/c-main.c:820-837 | Four typed numbers are taken modulo 256 |
| Numerals.Ipv4NeedsDots | eth/c-main.c:820-837 | With a dot missing behind the first, second or third number the old address stays |
| Numerals.StrtoullOfHex8 | comm/e_lib.c:116-119 | The host's strtoull reads an 8-digit field back |
| Checksum.Accumulate | eth/c-main.c:673-682 | The loop over any number of words, one skipped, yields 0 for an all-zero sum and otherwise the total reduced modulo 65535 into 1..65535 |
| Checksum.RoundReduces | eth/c-main.c:677-680 | One round of add, carry and mask is addition modulo 65535 |
| Checksum.OrderDoesNotMatter | eth/c-main.c:673-682 | Any rearrangement of the words gives the same checksum |
| Checksum.TestsAgree | eth/c-main.c:683-687 | Skip-and-compare agrees with summing the field in except exactly when the computed checksum is 0 and the field 0xFFFF |
| Checksum.HeaderTestIsRfc1071 | eth/c-main.c:673-687 | A header passes the code's test exactly when all its words add up to all ones, save for that exception |
| IpStack.OnIpv4 | eth/c-main.c:666-713 | net_on_ipv4 with its loop computes ParseIpv4 |
| IpStack.AcceptedIpv4Iff | eth/c-main.c:666-713 | A datagram is accepted exactly when, in the terms of RFC 791, it has a version 4 header whose words add up to all ones (save where the computed checksum is 0), is addressed to us, is no fragment, and has a total length that holds the header and was received |
| IpStack.Ipv4RoundTrip | eth/c-main.c:666-713 | A packet one end builds is accepted at its destination and yields protocol, source and body; its total length is right, it may not be fragmented and lives 64 hops |
| IpStack.OnUdp | eth/c-main.c:409-460 | net_on_ipv4_udp computes ParseUdp |
| IpStack.UdpChecksum | eth/c-main.c:420-450 | The three loops reduce the sum over pseudo header, segment without its field, and an odd last byte |
| IpStack.UdpSumIsCovered | eth/c-main.c:420-450 | That sum is the sum of all words of the buffer RFC 768 describes, odd lengths padded with a zero byte |
| IpStack.SenderAcceptedIff | eth/c-main.c:420-454 | Every segment checksummed as RFC 768 asks, of odd or even length, is accepted exactly when its computed checksum is not 0 |
| IpStack.UdpTestIsRfc1071 | eth/c-main.c:420-454 | For checksummed UDP of any length the test is that of RFC 1071, except that a computed checksum of 0 sent as 0xFFFF is dropped |
| IpStack.SomePortIsDropped | eth/c-main.c:420-454 | For every pair of hosts, destination port and payload there is a source port whose correctly checksummed segment is dropped |
| IpStack.MakeUdpResponse | eth/c-main.c:286-340 | The stores build exactly the response packet; refused exactly above 1586 bytes |
| IpStack.FillHeader | eth/c-main.c:303-325 | The 20 header bytes with their checksum, nothing behind them touched |
| IpStack.UdpRoundTrip | eth/c-main.c:456-460 | Any response is accepted at the requester and yields the same payload with the ports swapped |
| IpStack.UdpSegment | eth/c-main.c:327-334 | The length field counts the whole segment, the ports are swapped and the checksum field is 0 |
| IpStack.PaddingIsHandedUp | eth/c-main.c:456-458 | The length field is taken for the length of the payload, so up to eight bytes behind a segment are handed up with it |
| IpStack.OnIcmp | eth/c-main.c:581-664 | Replies exactly to accepted echo requests the driver can send, with the echo reply |
| IpStack.IcmpTestIsRfc1071 | eth/c-main.c:581-598 | A message of even length is accepted exactly when all its words add up to all ones, save where the computed checksum is 0 |
| IpStack.EchoReplyIsValid | eth/c-main.c:605-662 | The reply passes the receiver's IPv4 and ICMP tests, keeps code, id, sequence and payload, and its checksum is the request's plus 0x0800 modulo 65535 |
| RxRing.ReinitIsFresh | eth/net-rtl8101.c:173-180 | After its stores rx_reinit leaves length 1600, its own buffer and end-of-ring exactly on the last descriptor, whatever the NIC wrote |
| RxRing.PartialNotOwned | eth/net-pcnet32.c:189-194 | Before its last store rx_reinit never gives the descriptor away |
| RxRing.ClassifyIs | eth/net-pcnet32.c:229-258 | get_packet's tests pick out exactly the frames owed to the caller, read off the documented status bits of either chip, and exactly the complete ones that are too short |
| RxRing.DriverKeepsInv | eth/net-pcnet32.c:189-266 | Every load or store of the driver keeps the ring invariant |
| RxRing.NicKeepsInv | eth/net-pcnet32.c:225-266 | Every NIC step keeps it |
| RxRing.EveryRunKeepsInv | eth/c-main.c:721-763 | Every interleaving of driver and NIC keeps it |
| RxRing.HandedExactlyOnceInOrder | eth/net-pcnet32.c:225-266 | In every reachable state the packets handed up are the frames whose status bits show no error, start and end of packet and at least 14 bytes, once each and in order, and a held buffer still holds its frame |
| RxRing.OwnershipWindow | eth/net-pcnet32.c:196-266 | In every reachable state the driver owns one cyclic window from rx_offset, and every other descriptor is ready for the NIC |
| RxRing.RuntBlocks | eth/net-pcnet32.c:236-244 | In every interleaving of driver and NIC nothing behind a complete frame of fewer than 14 bytes is ever reached |
| RxRing.DrainsIffNoRunt | eth/net-pcnet32.c:225-260 | Everything received can be handed up or discarded, by polling alone or in any interleaving, exactly when no such frame is waiting |
| RxRing.Driver.constructor | eth/net-pcnet32.c:157-163 | The set-up loop gives every descriptor to the NIC |
| RxRing.Driver.RxReinit | eth/net-pcnet32.c:189-194 | The stores on the descriptor array follow the transition system and touch one descriptor |
| RxRing.Driver.AdvPacket | eth/net-pcnet32.c:196-199 | The offset moves one slot and wraps |
| RxRing.Driver.GetPacket | eth/net-rtl8101.c:235-272 | Returns the next good frame and its length less 14, drops a bad or partial one, leaves a runt, keeps the invariant |
| RxRing.Driver.PutPacket | eth/net-pcnet32.c:262-266 | The held descriptor goes back to the NIC, ready |
| TxRing.LengthDecodes | eth/net-pcnet32.c:201-208 | The stored length decodes in its low 12 bits to sz+14 for every accepted sz from -14 up, and for no other |
| TxRing.DriverKeepsInv | eth/net-pcnet32.c:201-212 | Every driver step keeps the ring invariant |
| TxRing.SendKeepsInv | eth/net-pcnet32.c:214-216 | Giving the descriptor away queues the frame and keeps the invariant |
| TxRing.NicKeepsInv | eth/net-pcnet32.c:201-223 | Every byte the NIC fetches, and its giving back, keep the invariant |
| TxRing.EveryRunKeepsInv | eth/net-pcnet32.c:201-223 | Every interleaving of driver, payload stores and NIC keeps it |
| TxRing.WireIsWhatWasSent | eth/net-pcnet32.c:201-223 | In every reachable state the wire carries exactly the frames completed by prepare and send, whole and in order |
| TxRing.OwnershipWindow | eth/net-pcnet32.c:214-223 | In every reachable state the NIC owns one cyclic window that ends at tx_offset, each descriptor in it marked as one whole packet |
| TxRing.SendQueuesPreparedFrame | eth/net-pcnet32.c:204-216 | A sent frame is the prepared header and then sz payload bytes, or sz+14 bytes of the header when sz is negative |
| TxRing.PrepareRun | eth/net-pcnet32.c:201-212 | prepare_send_packet is the call, the look at OWN and three stores |
| TxRing.Driver.constructor | eth/net-pcnet32.c:165-171 | The set-up loop leaves every descriptor with the driver |
| TxRing.Driver.PrepareSendPacket | eth/net-pcnet32.c:201-212 | For every int sz: refuses exactly what does not fit a 1600-byte buffer with its header, waits exactly while the NIC owns the descriptor, otherwise stores the header and a length that decodes to sz+14 exactly when that is not negative, and touches nothing else |
| TxRing.Driver.SendPacket | eth/net-pcnet32.c:214-223 | Queues the buffer's first sz+14 bytes and moves on |
| Allocator.RoundUpIsLeastMultiple | eth/alloc.c:27-30 | For a power of two the mask form is the least multiple at or above the pointer |
| Allocator.Heap.DoAlloc | eth/alloc.c:17-21 | The block starts at the old pointer, the pointer advances modulo 2^32, and the block lies apart from all earlier ones exactly when it does not wrap |
| Allocator.Heap.AlignAlloc | eth/alloc.c:27-30 | The pointer becomes that multiple and no block is disturbed |
| Allocator.BlocksAreDisjoint | eth/alloc.c:17-30 | Over any run no byte lies in two blocks, and none at or above the pointer lies in any |
| Allocator.Pcnet32Layout | eth/net-pcnet32.c:112-155 | Both rings are 16-byte aligned, there are 32 packet buffers of 1600 bytes, and LOW is at or above the end of every block |
| SerialTarget.LineIsTransaction | stage2-8086.asm:126-168 | A command line is answered after its newline and not before |
| SerialTarget.FeedPayload | stage2-8086.asm:367-382 | Every payload byte goes to memory whatever its value, and the answer follows the last one |
| SerialTarget.ArgumentsOfPrinted | stage2-8086.asm:446-460 | The stub reads back the address modulo 2^32 and the count modulo what its register holds |
| SerialTarget.TestTransaction | stage2-8086.asm:487-511 | TEST is one transaction and changes nothing |
| SerialTarget.ReadbTransaction | stage2-8086.asm:439-484 | READB is one transaction in every mode, in step also when the address is refused |
| SerialTarget.WritebTransaction | stage2-8086.asm:340-384 | WRITEB with the payload its register counts, any bytes, LF, CR and ESC included, is one transaction that stores the payload |
| SerialTarget.WritebFeeds | stage2-8086.asm:340-384 | Every WRITEB is answered once, and then exactly the bytes the stub did not take for payload are read as command lines |
| SerialTarget.SilentIffLineEnds | stage2-8086.asm:126-165 | From the start of a line the stub comes back there without an answer exactly on bytes that are all LF or CR |
| SerialTarget.WritebInStepIff | stage2-8086.asm:340-384 | For every address, payload and count: both ends are in step after a WRITEB exactly when what the stub did not take for payload is line ends |
| SerialTarget.RefusedWritebLosesStep | stage2-8086.asm:352-355 | For counts the register holds: in step exactly when the address is accepted or the payload is all line ends |
| SerialTarget.PokedIsStore | stage2-386-32.asm:210-218 | Where addresses are addr+i, WRITEB is a flat store |
| SerialTarget.TransfersAgreeAcrossModes | stage2-8086.asm:439-484 | READB and WRITEB mean the same flat transfer in all three modes below 1 MiB, for 16-bit counts within a segment |
| SerialTarget.TransfersAreFlat | stage2-286.asm:306-349 | In each mode READB is a load and WRITEB a store over the whole range of the mode: 16 MiB on the 286, 4 GiB on the 386 |
| SerialTarget.RefusedIffOutOfReach | stage2-286.asm:315-319 | The stub refuses exactly the addresses that its mode cannot form |
| SerialTarget.FeedQuoted | stage2-8086.asm:132-142 | Behind ESC any byte, line ends and ESC included, goes into the line buffer, and what does not fit is dropped |
| SerialTarget.OnlyTestIsTest | stage2-8086.asm:487-497 | A longer word that begins with TEST is another command |
| Segments.ModeIndependence | stage2-286.asm:523-532 | The 286 and 386 loops touch addr, addr+1, ... in order, and the 8086 loop the same bytes exactly when (addr mod 16)+count <= 65536 |
| Segments.FlatIff | stage2-286.asm:523-532 | Over the whole range of each mode, the exact condition for a transfer to touch addr, addr+1, ... in order |
| Segments.RealIsFlat | stage2-8086.asm:613-622 | segment:offset denotes the physical address |
| SerialStub.Stub.CharIn | stage2-8086.asm:126-142 | One byte of the port moves the register program as the machine says |
| SerialStub.Stub.ClearRest | stage2-8086.asm:149-156 | The buffer is zero from the end of the text on |
| SerialStub.Stub.Process | stage2-8086.asm:158-184 | The handlers implement the command function |
| SerialStub.Stub.ParseArguments | stage2-8086.asm:448-460 | strtohex_32, whitespace, strtohex |
| SerialStub.Stub.ReadLoop | stage2-8086.asm:466-477 | The CX/BX loop sends the bytes in order |
| SerialHost.Wire.SendCommand | comm/s_lib.c:30-47 | Whatever the sizes of the writes, the command and its newline are on the wire |
| SerialHost.Wire.ReadForced | comm/s_lib.c:12-28 | Whatever the sizes of the reads, n bytes in order, fewer only when a read returned nothing |
| SerialHost.Wire.GetResponse | comm/s_lib.c:49-87 | Consumes exactly up to the newline and tells "OK" from anything else |
| SerialHost.PrintableText | comm/s_lib.c:72-76 | Of an answer the host keeps the text, without the line end |
| SerialHost.Wire.GotIsPrefix | comm/s_lib.c:135-189 | At any moment what the host has read is a prefix of what the stub has to say |
| SerialHost.Wire.Finished | comm/s_lib.c:178-188 | When the whole answer has been read both streams are empty and the stub is at a line boundary |
| SerialHost.Wire.Test | comm/s_lib.c:89-98 | Both ends in step again, nothing changed, unless the host gave up; the second read is never reached in step |
| SerialHost.Wire.ReadMemory | comm/s_lib.c:135-189 | Returns what READB fetched, which is the flat bytes of memory wherever the mode addresses them flat, or 0 exactly for a refused address; in step again unless the host gave up |
| SerialHost.Wire.WriteMemory | comm/s_lib.c:191-215 | For every address and payload, unless the host gave up: 1 when the stub took the address and 0 when it refused it, the counted payload is in memory, a flat store wherever the mode addresses it flat, and the bytes not taken for payload are under way as commands; in step when the whole payload was taken |
| SerialHost.Wire.InStepIff | comm/s_lib.c:191-215 | With such bytes under way both ends come back in step exactly when they are all line ends |
| SerialHost.Session | comm/s_lib.c:135-215 | Any list of TEST, READB and WRITEB calls: in step after every call, with the results of the calls run directly on memory, and of plain loads and stores when the calls stay flat in the stub's mode |
| SerialHost.ReplayIsFlat | stage2-8086.asm:340-484 | In each mode, over its whole range, a list of flat calls does the loads and stores of flat memory, so a session gives the same results in every mode that can address it |
| PageTables.FillPml4 | stage2-x64.asm:578-590 | One entry and 511 empty ones |
| PageTables.FillPml3 | stage2-x64.asm:593-611 | 64 directories, then empty entries |
| PageTables.FillPml2 | stage2-x64.asm:615-625 | 32768 entries of 2 MiB, page number modulo 2048 |
| PageTables.BuildPageTables | stage2-x64.asm:578-625 | The three loops build the tables and write nothing outside [PML4_LOCATION, FINAL_LOW) |
| PageTables.WalkIsIdentityMod4G | stage2-x64.asm:578-625 | The four-level walk maps every address below 64 GiB to itself modulo 4 GiB, so below 4 GiB to itself, and nothing above |
| PageTables.MappedIsWritable | stage2-x64.asm:578-625 | Below 64 GiB every entry of the walk is present, writable and open to user code |
| PageTables.TablesDoNotOverlap | stage2-x64.asm:8-16 | The tables lie one behind the other and end at FINAL_LOW |
| PciBars.WriteBackRestores | eth/pci.c:123-128 | For any register with fixed read-only bits the probe leaves it as it was |
| PciBars.ProbeMeasures | eth/pci.c:131-154 | For a BAR that decodes all 32 address bits, start is aligned to the size, end = start + size - 1, and the type is that of its read-only bits |
| PciBars.ProbeOne | eth/pci.c:123-128 | Three writes, three reads, configuration space unchanged |
| PciBars.ProbeBars | eth/pci.c:119-155 | The loop terminates, restores configuration space and fills the table; the first 64-bit window gets its start in two halves, its end in the low half, and takes the slot of the register behind it |
| PciBars.NarrowMeasured | eth/pci.c:131-146 | A register that is not there, or decodes a window that is not 64-bit, takes one slot |
| PciBars.UnusedIsAbsent | eth/pci.c:131-132 | A register that reads 0 whatever is written is no window |
| FloppyLoader.Load | stage1-floppy.asm:50-84 | Exactly stage2_size sectors; read n is the valid triple with (c*H+h)*S+(s-1) = n+1 modulo 256*H*S; for n < 128 it lands at 0x8000+512n, and read 128 at 0x19800 |
| FloppyLoader.NextTriple | stage1-floppy.asm:71-84 | The sector/head/cylinder counter advances the block number by one, modulo 256 cylinders |
| FloppyLoader.RightSectorsIffFits | stage1-floppy.asm:71-84 | Every read is block n+1 exactly when the image ends within 256 cylinders |
| FloppyLoader.ContiguousIffFits | stage1-floppy.asm:62-66 | The image is contiguous from 0x8000 exactly when it has at most 128 sectors |
| AliasScan.AliasIffIgnored | comm/tests/cpu_tests.c:1241-1260 | Either form of probe aliases address 0 exactly when the machine ignores that bit |
| AliasScan.ScanDown | comm/tests/cpu_tests.c:1238-1274 | Returns the decoder width b for 22 <= b <= 32, and 32 for any smaller b |
| AliasScan.ScanUp | comm/tests/cpu_tests.c:1286-1316 | Returns the decoder width b for 21 <= b <= 32, and 21 for any smaller b |

## Left out

- Sockets, `select`, `termios`, wall-clock timeouts and tracing: a message arrives, or a wait ends with nothing.
- The debugger's own memory: WRITE to the debugger's code, stack or packet buffers is outside the model, as is what code
  run by EXEC does; `after` stands for any memory it leaves.
- Client.Connection.Write: sequence numbers that wrap within one call, and older EXEC, READ or overlapping WRITE requests
  still in flight, are excluded by `Job.Valid` and `Job.Quiet`.
- Client.Connection.Read: older EXEC requests, WRITE requests that would change the range and READ replies still in
  flight are excluded by `Job.Quiet`.
- Client.Connection.Exec: older EXEC requests in flight are excluded by `Job.NoOlderExec`.
- `strtoul` is taken to be 64 bits wide, as on an LP64 host; a 32-bit host saturates junk earlier.
- `make_udp_response` returns no value at all when the driver refuses the packet; the model returns None there.
- remote_eth_test, mode switching, LOW, READ, WRITE and EXEC over serial: they would only add easy members; a line that
  is none of TEST, READB and WRITEB leaves the serial model.
- SerialHost.Wire.Test: the second read after a late "OK Function", which needs an EXEC under way when the call starts.
- SerialHost.Wire.SendCommand: a write that returns 0, after which s_lib.c sends a truncated command, is not modelled; one
  that returns -1 is retried and moves nothing.
- SerialHost.Wire.WriteMemory: payload writes that return 0 or -1 are not modelled; s_lib.c gives up or moves its pointer
  backwards.
- UDP to ports other than 777, which is only printed on the screen.
- Odd-length ICMP messages are checked as the code does, without the last byte, which is not what RFC 792 asks.
- RxRing.Driver.GetPacket: the Ethernet header copy is part of the frame and not split off.
- TxRing.Driver.PrepareSendPacket: one pass of the busy-wait; that the NIC ever gives the descriptor back is not proved.
- TxRing.Driver.SendPacket: sending a packet prepared with a size below -14, whose length decodes to something else, is
  excluded.
- The RTL8101 transmit path (forced to one descriptor, overwrites after a timeout), ne2000 and rtl8139 drivers.
- Allocator.Heap.AlignAlloc: a rounding that wraps past 4 GiB is excluded.
- PciBars.ProbeMeasures: the high half of a 64-bit BAR's end, which the code drops, is not measured.
- FloppyLoader.Load: disk errors are excluded.
- ARP replies, VGA, keyboard, PIC, PIT, IDT, menus, driver probing and CPUID printing: device plumbing and user interface.
