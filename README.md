# Twig, modelled in Dafny

Twig is a small packet responder. It opens a pcap capture file for
reading and appending. It checks the file's global header (magic
`0xa1b2c3d4` in either byte order, version 2.4) and then follows the file
record by record. Every IPv4 frame on an Ethernet link updates a bounded
cache of (MAC, IP) sightings. ICMP echo requests are answered with echo
replies. UDP datagrams to port 7 are echoed, and those to port 37 get the
current time. Each reply is appended to the same file as a new record.

This project models that core in Dafny and proves its contracts:

- `bytes.dfy` (module `Bytes`): machine integers, `byteswap16`/`byteswap32`,
  and host-order (little-endian) versus network-order access to byte
  buffers.
- `layout.dfy` (`Layout`): the packed header layouts, their field offsets
  and the pcap constants.
- `checksum.dfy` (`InternetChecksum`): the Internet checksum. It is one
  specification and one loop method, standing for the three identical
  `*_checksum_maker` functions. It proves that a buffer sealed with its
  checksum sums to zero. The makers add each word in host order; RFC 1071
  defines the sum over big-endian words. The module proves that a buffer
  checks to 0 in host order exactly when it does in network order, so a
  sealed buffer also verifies as a receiver checks it.
- `capture.dfy` (`Capture`): it covers:
  - the global-header check and its swap mode;
  - the record-header read and the five ways a read step can end;
  - the header of a reply record.
  Encode/decode round trips are proved for both headers.
- `arp_cache.dfy` (`AddressCache`): `ARP_Cache` as a class over a
  100-entry array, specified by a function on the live entries. Proved:
  the bound, de-duplication, refresh, append, saturation, and how a run
  of sightings fills the cache.
- `buffers.dfy` (`Buffers`): `memcpy` and field stores into a reply
  buffer, each with the bytes it writes and the bytes it leaves alone.
- `responders.dfy` (`Responders`): `do_ICMP` and `do_UDP` build their reply
  in an array, field by field, as the source does. Predicates state what an
  echo reply, a UDP echo and a time reply are:
  - addresses exchanged;
  - lengths consistent;
  - TTL 64 and fragment fields zero;
  - payload kept;
  - IPv4 (and ICMP) checksum sealed.
- `twig.dfy` (`Twig`): the frame dispatch, and `main` as a class holding
  the file, the read position, the swap flag, the link type and the cache.
  Its methods cover opening the file, the header check, one pass of the
  record loop, the reply writer and the loop itself.

The host is taken to be little-endian. The file is a byte sequence, and
the descriptor's position is an index into it. A `read` of `n` bytes
returns the next `min(n, available)` bytes. The three clock readings a
record can cause are one `Clock` value, passed in:
- `time(NULL)` in the cache;
- `system_clock` in the time reply;
- `gettimeofday` in the record header.

The contents of freshly `malloc`ed reply memory are a `heap` parameter.

Where the code does something other than the natural reading of its
comments, the model follows the code:
- **Non-echo ICMP.** An ICMP message that is not an echo request still
  produces a reply record. Its ICMP header is copied from the request;
  every other byte of that record's frame is uninitialised memory
  (`DoIcmp`, `Answers`).
- **Port 37 time.** The time is the Unix time in seconds, truncated to 32
  bits and stored in host byte order. It is not the big-endian seconds
  since 1900 that RFC 868 specifies (`TimeDatagram`, `TimeReadsBack`).
- **Reply record header.** It is written in host byte order even when the
  capture is byte-swapped. Readers of such a file misread the reply
  records (`ReplyReadBack`). Whenever the frame length's low byte is not 0,
  the reader takes a length of at least 2^24. Below 2^31 the record reads
  as a truncated packet. From 2^31 up, the cast to `int` makes the length
  negative, and the record reads as the frame together with everything
  after it in the file. Either way, when more than 100000 bytes follow,
  the read overruns the buffer.
- **Truncation test.** The test for a truncated record compares the
  bytes read with `caplen` cast to a signed `int`. A `caplen` of 2^31 or
  more is negative as an `int`, so such a record is never reported as
  truncated: the bytes that were read are dispatched as the record, and
  the sizes a responder uses are computed from `caplen` (`NextRecord`,
  `TruncatedRecord`, `Classify`).
- **O_APPEND position.** Writing a reply on the `O_APPEND` descriptor
  moves the read position to the end of the file. Records that were
  already in the file after the answered one are never read (`Step`,
  `Send`).
- **Short or oversized frames.** Some frames make the program read bytes
  the record does not hold, or copy past the end of a buffer:
  - frames shorter than the Ethernet type;
  - IPv4 frames shorter than the protocol and source address;
  - responder frames whose `caplen` is below 42 (the payload size wraps
    around as a `size_t`) or leaves more than 65535 payload bytes;
  - reads of more than the 100000 bytes of the stack buffer, which happen
    before any length test.
  These are read as `BufferOverrun` or classified `Indeterminate` or
  `Overrun`, and a step on them ends `Undefined`.

## Model

| member | source | states |
|---|---|---|
| `Bytes.ByteSwap16` | twig.cc:41-43 | the two bytes of the value in host memory exchange places |
| `Bytes.ByteSwap32` | twig.cc:45-47 | byte k of the value becomes byte 3 - k |
| `Bytes.ByteSwap16Involution` | twig.cc:41-43 | swapping a 16-bit value twice gives it back |
| `Bytes.ByteSwap32Involution` | twig.cc:45-47 | swapping a 32-bit value twice gives it back |
| `Bytes.NetLoad16` | twig.cc:271 | `byteswap16` of a host-order `u_short` load is the big-endian value of the two bytes |
| `Bytes.HostStoreOfSwap16` | twig.cc:489 | storing `byteswap16(v)` puts `v` in memory in network order |
| `Layout.LayoutIsPacked` | twig-utils.h:30-119 | the header sizes are 24, 16, 14, 20, 8 and 8 bytes, and every field offset used is the sum of the widths declared before it |
| `Layout.IcmpLength` | twig-utils.h:116-118 | `ICMP::length()` is 8, the size of the ICMP header |
| `InternetChecksum.Fold` | twig.cc:525-528 | the folded sum is below 2^16, congruent to the wide sum modulo 0xFFFF, and zero only for a zero sum |
| `InternetChecksum.ChecksumMaker` | twig.cc:511-531 | the word loop, the odd byte and the fold loop compute `0xFFFF - Fold(WordSum(buffer))` |
| `InternetChecksum.OddTrailingByte` | twig.cc:520-523 | a trailing odd byte counts as a word padded with a zero byte |
| `InternetChecksum.ChecksumVerifies` | twig.cc:473-478 | a checksum computed with its field zeroed and stored at an even offset makes the checksum of the span 0 |
| `InternetChecksum.WordSumNetCongruent` | twig.cc:514-523 | the host-order word sum times 0x100 is congruent modulo 0xFFFF to the network-order (RFC 1071) word sum, and either sum is 0 only when the other is |
| `InternetChecksum.ChecksumZero` | twig.cc:525-530 | the complemented fold is 0 exactly when the sum is a non-zero multiple of 0xFFFF |
| `InternetChecksum.ChecksumByteOrder` | twig.cc:511-531 | a buffer checks to 0 with host-order words exactly when it does with network-order words |
| `InternetChecksum.ChecksumVerifiesOnTheWire` | twig.cc:473-478 | a checksum stored as the makers compute it makes the span check to 0 in network order, as a receiver verifies it |
| `Capture.CheckFileHeader` | twig.cc:141-180 | a short read is fatal; the magic is accepted as is (no swap) or byte-reversed (all fields swapped, swap mode on), otherwise fatal; then anything but version 2.4 is fatal |
| `Capture.FileHeaderRoundTrip` | twig.cc:148-180 | a 2.4 header written in either byte order is accepted, with the swap flag saying which, and decodes to the same fields |
| `Capture.SwapFileHeaderInvolution` | twig.cc:154-162 | swapping every header field twice restores the header |
| `Capture.SwappedMagic` | twig.cc:150 | the reversed magic is `0xd4c3b2a1`, so the two byte orders are told apart |
| `Capture.RecordHeaderRoundTrip` | twig.cc:229-234 | a host-order record header reads back unchanged without swap mode, and with all four fields swapped in swap mode |
| `Capture.SwapRecordHeaderInvolution` | twig.cc:229-234 | swapping all four record-header fields twice restores the header |
| `Capture.SwappedRecordRoundTrip` | twig.cc:229-234 | a record header written in the opposite byte order reads back in swap mode as the header meant |
| `Capture.AsInt32` | twig.cc:253 | `static_cast<int>` keeps a `caplen` below 2^31 and makes any larger one negative |
| `Capture.DataRead` | twig.cc:240 | the data read is `caplen` bytes, or all that is left when fewer remain |
| `Capture.NextRecord` | twig.cc:205-256 | an empty read retries and a 1-15 byte header ends the loop; otherwise more than 100000 data bytes read overrun the buffer, fewer than `caplen` below 2^31 are fatal, and anything else is a record of the bytes read, which are exactly `caplen` bytes unless `caplen` is 2^31 or more |
| `Capture.ReadsBackRecord` | twig.cc:240-256 | a record whose header declares its data length reads back as that record, or as a buffer overrun when it is over 100000 bytes |
| `Capture.TruncatedRecord` | twig.cc:240-256 | data shorter than the header declares overruns the buffer past 100000 bytes, is a short packet when `caplen` is below 2^31, and is otherwise taken as the record |
| `Capture.ReplyRecordReadsBack` | twig.cc:565-571 | a reply record has caplen = len = frame length and reads back as its frame |
| `AddressCache.FindEntry` | twig-utils.h:151-157 | the scan finds the first entry holding the (MAC, IP) pair, or none holds it |
| `AddressCache.ArpCache.constructor` | twig-utils.h:147 | a new cache is empty |
| `AddressCache.ArpCache.AddEntry` | twig-utils.h:148-165 | the live entries become `Observe` of the old ones, and no pair is held twice |
| `AddressCache.ObserveBounded` | twig-utils.h:149-163 | the count never exceeds 100 and grows by one exactly for a new pair below capacity |
| `AddressCache.ObserveRefreshes` | twig-utils.h:151-156 | a pair already present only gets its time set to `now`; the count and all other entries are unchanged |
| `AddressCache.ObserveAppends` | twig-utils.h:159-163 | a new pair below capacity is appended with time `now` |
| `AddressCache.ObserveSaturated` | twig-utils.h:149 | a full cache is left completely unchanged, even for a pair it holds |
| `AddressCache.ObserveKeepsDistinct` | twig-utils.h:147-163 | no observation makes two entries share a pair |
| `AddressCache.FillsThenSaturates` | twig-utils.h:143-165 | distinct sightings fill an empty cache in order up to 100 entries and no further |
| `Buffers.Memcpy` | twig.cc:474 | `memcpy` writes the source bytes at the offset and leaves every other byte alone |
| `Buffers.Store16` | twig.cc:489-493 | a `u_short` field assignment writes the value's host-order bytes and nothing else |
| `Buffers.Store8` | twig.cc:492 | a `u_char` field assignment writes one byte and nothing else |
| `Responders.StoreChecksum` | twig.cc:493-497 | zero field, compute, store: the span is sealed and only the two checksum bytes change |
| `Responders.RepliesCheckOnTheWire` | twig.cc:476-497 | the IPv4 header of every reply, and the ICMP message of an echo reply, check to 0 in network order |
| `Responders.AnswerEthernet` | twig.cc:481-484 | the reply's MAC addresses are the request's exchanged, ether-type kept |
| `Responders.CopyIPv4Swapped` | twig.cc:486-488 | the IPv4 header is copied with source and destination addresses exchanged |
| `Responders.SetIPv4Fields` | twig.cc:489-493 | total length in network order, fragment fields zero, TTL 64, checksum zero |
| `Responders.AnswerHeaders` | twig.cc:481-493 | Ethernet and IPv4 headers of a reply, before sealing, leaving the message alone |
| `Responders.AnswerEchoFields` | twig.cc:469-474 | type 0, code 0, id, seq and payload copied, checksum zero |
| `Responders.AnswerEchoMessage` | twig.cc:469-478 | the ICMP message is an echo reply to the request's message, with its checksum sealed |
| `Responders.AnswerEcho` | twig.cc:466-499 | the buffer is an echo reply to the request: headers answered, length 20 + 8 + size, IPv4 and ICMP checksums sealed |
| `Responders.DoIcmp` | twig.cc:450-509 | an echo request gets an echo reply; any other ICMP type gets the request's ICMP header in uninitialised memory |
| `Responders.AnswerPorts` | twig.cc:657-658 | the reply's ports are the request's exchanged |
| `Responders.AnswerUdpEcho` | twig.cc:655-662 | ports exchanged, UDP length 8 + size, checksum 0, payload kept |
| `Responders.AnswerUdpTime` | twig.cc:663-677 | ports exchanged, checksum 0, UDP length 12, the payload the clock's seconds in host order |
| `Responders.AnswerUdpHeaders` | twig.cc:638-651 | Ethernet and IPv4 headers of a UDP reply with protocol 0x11 and length 20 + 8 + size |
| `Responders.FinishUdpEcho` | twig.cc:655-698 | the port 7 branch with the IPv4 checksum: the emitted frame is a UDP echo reply with a sealed IPv4 header |
| `Responders.FinishUdpTime` | twig.cc:663-698 | the port 37 branch with the IPv4 checksum: the emitted 46-byte frame is a time reply with IPv4 length 32 and a sealed IPv4 header |
| `Responders.DoUdp` | twig.cc:620-699 | port 7 gets a UDP echo, port 37 a 46-byte time reply with IPv4 length 32, and any other port nothing; every reply has a sealed IPv4 header |
| `Responders.TimeReadsBack` | twig.cc:671-678 | the time payload loads back as the clock's seconds modulo 2^32; the UDP length is 12 and the IPv4 length 32 |
| `Responders.Assembled` | twig.cc:696-698 | sealing the IPv4 header and emitting the frame's bytes gives a frame that answers the request |
| `Twig.Classify` | twig.cc:265-368 | a responder is reached only on link type 1, ether-type 0x0800 and protocol 1 or 0x11 with a `caplen` leaving 0 to 65535 payload bytes; every IPv4 frame names its source MAC and IP for the cache |
| `Twig.ReplyRecord` | twig.cc:561-608 | a reply record is a 16-byte header, counting `icmp.length()` or `sizeof(udp)` as the protocol header, followed by the frame |
| `Twig.Respond` | twig.cc:295-360 | ICMP frames go to `do_ICMP`, UDP frames to `do_UDP`, and no other frame gets a reply |
| `Twig.Program.constructor` | twig.cc:129-138 | the file is opened at position 0 with an empty cache and no swap mode |
| `Twig.Program.Available` | twig.cc:240 | a read returns the next `min(n, available)` bytes of the file |
| `Twig.Program.ReadFileHeader` | twig.cc:141-180 | the header bytes are consumed; the outcome of the header check sets the swap mode and link type, or is the fatal error |
| `Twig.Program.Send` | twig.cc:596-616 | the reply record is appended at the end of the file, and the position moves to the end |
| `Twig.Program.Handle` | twig.cc:265-368 | the cache observes every IPv4 frame, the responders' reply is appended, and nothing is written without a reply |
| `Twig.Program.Step` | twig.cc:201-368 | the new file, position and cache are `StepSpec` of the old ones: the read step decides between retry, stop, buffer overrun, fatal truncation and a record, and only a record changes the cache and the file |
| `Twig.Program.Advance` | twig.cc:218-368 | once the read step is known, the position moves past the bytes read and a record is handled, as `StepSpec` says |
| `Twig.Program.Pass` | twig.cc:201-368 | one more pass extends a run's trace of states by the state it leaves |
| `Twig.TraceExtend` | twig.cc:201-368 | a trace of passes extended by one pass from its last state is still a trace |
| `Twig.Program.Run` | twig.cc:201-370 | the outcomes and the states before and after each pass form a trace in which each pass is `StepSpec` of the state the previous one left, starting from the old state and ending in the new one; the loop goes round after a wait or a handled record and stops at anything else |
| `Twig.Serve` | twig.cc:141-370 | a rejected global header is the fatal error, with no pass of the loop; an accepted one starts the loop right after it, in its swap mode and link type, with an empty cache |
| `Twig.RepliesComeFromDestination` | twig.cc:481-488 | a reply frame is itself an IPv4 frame from the request's destination addresses to the same responder; an echo reply is not an echo request |
| `Twig.ReplyReadBack` | twig.cc:561-571 | a reply record reads back as its frame without swap mode; in swap mode its length is read byte-reversed; when the length's low byte is not 0, more than 100000 following bytes overrun the buffer, and otherwise the record reads as a truncated packet if that byte is below 0x80 and as the frame plus everything after it if not |

## Left out

- Command-line parsing and usage text (twig.cc:83-124): string handling, with no property to state.
- Reading from standard input when the file name is `-`: the model always appends to the file it reads.
- The failed `open` and its message (twig.cc:133-137): a file that cannot be opened has no contents to model.
- `usleep` between empty reads: a `Wait` outcome stands for it.
- All `print_*` and debug output (twig.cc:376-448), including the TCP and ARP decoders, which only print.
- Failed `malloc` (twig.cc:192-196, 302-306, 456-459, 629-632) and failed `writev` (twig.cc:611-616, 780-785): allocation and writes are taken to succeed.
- The request structs `main` fills before calling a responder (twig.cc:301-311, 334-344): the model hands the responders the record's data itself, which holds the same bytes at the same offsets.
- The timestamps copied into the reply struct's record header (twig.cc:462-463, 634-635): that header is never written; a fresh one is built.
- `UDP_checksum_maker` (twig.cc:701-722): its only call is commented out; its body is that of the two checksum makers modelled by `ChecksumMaker`.
- The 64-bit `unsigned long` checksum accumulator is unbounded in the model: it cannot overflow for any buffer the program handles.
- Three distinct clock readings per record are one reading in the model.
- Other processes appending to the capture file while it is followed.
- Responders.DoUdp: the reply buffer is a fresh array whose initial contents the proof does not rely on, so it covers the source's uninitialised buffer; every emitted byte is assigned before it is emitted. The IPv4 field assignments of `do_UDP` are made in `do_ICMP`'s order; they touch disjoint bytes.
- Twig.Program.Step: an `Undefined` outcome (a read or copy beyond a buffer) is undefined behaviour in the source; the model ends the run there with the file and the cache as they were, which the source does not promise.
- Twig.Program.Handle: likewise, for an `Undefined` outcome the model leaves the file, the position and the cache unchanged.
- The `read` of a record's data is limited to 0x7ffff000 bytes by the kernel; any read that large has already overrun the 100000-byte buffer, so the model does not need the limit.
