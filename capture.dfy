/**
 * Capture-file framing in twig.cc's `main` and `build_and_send_*`: the 24-byte
 * global header and its magic/version check (with the stream-wide byte-swap
 * mode), the 16-byte record header, the step that reads one record, and the
 * header of a reply record.
 *
 * Reads are modelled on the bytes still available in the file: a `read` of
 * `n` bytes returns the first `min(n, available)` of them.
 */
module Capture {
  import opened Bytes
  import opened Layout

  datatype FileHeader = FileHeader(
    magic: uint32, versionMajor: uint16, versionMinor: uint16,
    thiszone: uint32, sigfigs: uint32, snaplen: uint32, linktype: uint32)

  datatype RecordHeader = RecordHeader(tsSecs: uint32, tsUsecs: uint32, caplen: uint32, len: uint32)

  /** The fatal conditions of `main` and of the reply writer. */
  datatype Fatal =
    | TruncatedFileHeader(got: nat)
    | InvalidMagic(magic: uint32)
    | InvalidVersion(major: uint16, minor: uint16)
    | TruncatedPacket(got: nat)

  datatype Result<T> = Ok(value: T) | Err(error: Fatal)

  /** The validated global header and the stream-wide swap flag. */
  datatype Opened = Opened(header: FileHeader, byteswap: bool)

  /** `pcap_file_header` as it lies in host memory after the read. */
  function FileHeaderAt(raw: seq<uint8>): FileHeader
    requires |raw| == FILE_HEADER_SIZE
  {
    FileHeader(HostLoad32(raw, 0), HostLoad16(raw, 4), HostLoad16(raw, 6),
               HostLoad32(raw, 8), HostLoad32(raw, 12), HostLoad32(raw, 16), HostLoad32(raw, 20))
  }

  /** The in-place swaps of every header field done when the magic is reversed. */
  function SwapFileHeader(h: FileHeader): FileHeader
  {
    FileHeader(ByteSwap32(h.magic), ByteSwap16(h.versionMajor), ByteSwap16(h.versionMinor),
               ByteSwap32(h.thiszone), ByteSwap32(h.sigfigs), ByteSwap32(h.snaplen), ByteSwap32(h.linktype))
  }

  /** The global-header read and checks at the start of `main`: a short read
      is fatal; the magic is accepted as it is (no swapping) or byte-reversed
      (every field swapped, swap mode on) and is otherwise fatal; only version
      2.4 is then accepted. */
  function CheckFileHeader(raw: seq<uint8>): (r: Result<Opened>)
    ensures |raw| != FILE_HEADER_SIZE <==> r == Err(TruncatedFileHeader(|raw|))
    ensures r.Ok? ==>
      && r.value.header.magic == PCAP_MAGIC
      && r.value.header.versionMajor == PCAP_VERSION_MAJOR
      && r.value.header.versionMinor == PCAP_VERSION_MINOR
    ensures |raw| == FILE_HEADER_SIZE ==>
      var h := FileHeaderAt(raw);
      && (r.Err? && r.error.InvalidMagic? <==> h.magic != PCAP_MAGIC && ByteSwap32(h.magic) != PCAP_MAGIC)
      && (r.Ok? ==> r.value.byteswap == (h.magic != PCAP_MAGIC))
      && (r.Ok? ==> r.value.header == if r.value.byteswap then SwapFileHeader(h) else h)
    ensures |raw| == FILE_HEADER_SIZE ==>
      var h := FileHeaderAt(raw);
      var g := if h.magic == PCAP_MAGIC then h else SwapFileHeader(h);
      (h.magic == PCAP_MAGIC || ByteSwap32(h.magic) == PCAP_MAGIC) ==>
        && (r.Ok? <==> g.versionMajor == PCAP_VERSION_MAJOR && g.versionMinor == PCAP_VERSION_MINOR)
        && (r.Err? ==> r.error == InvalidVersion(g.versionMajor, g.versionMinor))
  {
    if |raw| != FILE_HEADER_SIZE then Err(TruncatedFileHeader(|raw|))
    else
      var h := FileHeaderAt(raw);
      var accepted :=
        if h.magic == PCAP_MAGIC then Ok(Opened(h, false))
        else if ByteSwap32(h.magic) == PCAP_MAGIC then Ok(Opened(SwapFileHeader(h), true))
        else Err(InvalidMagic(h.magic));
      if accepted.Err? then accepted
      else if accepted.value.header.versionMajor != PCAP_VERSION_MAJOR
           || accepted.value.header.versionMinor != PCAP_VERSION_MINOR
      then Err(InvalidVersion(accepted.value.header.versionMajor, accepted.value.header.versionMinor))
      else accepted
  }

  /** The bytes of a global header written by a host of the same byte order
      (`swapped` false) or of the opposite one (`swapped` true). */
  function EncodeFileHeader(h: FileHeader, swapped: bool): (raw: seq<uint8>)
    ensures |raw| == FILE_HEADER_SIZE
  {
    var g := if swapped then SwapFileHeader(h) else h;
    HostBytes32(g.magic) + HostBytes16(g.versionMajor) + HostBytes16(g.versionMinor)
      + HostBytes32(g.thiszone) + HostBytes32(g.sigfigs) + HostBytes32(g.snaplen) + HostBytes32(g.linktype)
  }

  /** A capture written in either byte order is accepted, with the swap flag
      telling which, and decodes to the same header fields. */
  lemma {:induction false} FileHeaderRoundTrip(h: FileHeader, swapped: bool)
    requires h.magic == PCAP_MAGIC
    requires h.versionMajor == PCAP_VERSION_MAJOR && h.versionMinor == PCAP_VERSION_MINOR
    ensures CheckFileHeader(EncodeFileHeader(h, swapped)) == Ok(Opened(h, swapped))
  {
    var g := if swapped then SwapFileHeader(h) else h;
    var raw := EncodeFileHeader(h, swapped);
    assert FileHeaderAt(raw) == g by { FileHeaderFields(g); }
    if swapped {
      SwapFileHeaderInvolution(h);
      SwappedMagic();
    }
  }

  /** Each field of an encoded header loads back from its offset. */
  lemma FileHeaderFields(g: FileHeader)
    ensures FileHeaderAt(EncodeFileHeader(g, false)) == g
  {
    var raw := EncodeFileHeader(g, false);
    HostLoadStore32(g.magic, [], raw[4..]);
    assert raw == [] + HostBytes32(g.magic) + raw[4..];
    HostLoadStore16(g.versionMajor, raw[..4], raw[6..]);
    assert raw == raw[..4] + HostBytes16(g.versionMajor) + raw[6..];
    HostLoadStore16(g.versionMinor, raw[..6], raw[8..]);
    assert raw == raw[..6] + HostBytes16(g.versionMinor) + raw[8..];
    HostLoadStore32(g.thiszone, raw[..8], raw[12..]);
    assert raw == raw[..8] + HostBytes32(g.thiszone) + raw[12..];
    HostLoadStore32(g.sigfigs, raw[..12], raw[16..]);
    assert raw == raw[..12] + HostBytes32(g.sigfigs) + raw[16..];
    HostLoadStore32(g.snaplen, raw[..16], raw[20..]);
    assert raw == raw[..16] + HostBytes32(g.snaplen) + raw[20..];
    HostLoadStore32(g.linktype, raw[..20], []);
    assert raw == raw[..20] + HostBytes32(g.linktype) + [];
  }

  lemma SwapFileHeaderInvolution(h: FileHeader)
    ensures SwapFileHeader(SwapFileHeader(h)) == h
  {
    ByteSwap32Involution(h.magic);
    ByteSwap16Involution(h.versionMajor);
    ByteSwap16Involution(h.versionMinor);
    ByteSwap32Involution(h.thiszone);
    ByteSwap32Involution(h.sigfigs);
    ByteSwap32Involution(h.snaplen);
    ByteSwap32Involution(h.linktype);
  }

  /** The reversed magic is not itself the magic, so the two orders are told apart. */
  lemma SwappedMagic()
    ensures ByteSwap32(PCAP_MAGIC) == 0xd4c3b2a1
  {
    var b := HostBytes32(PCAP_MAGIC);
    assert b == [0xd4, 0xc3, 0xb2, 0xa1];
    Join32(0xd4, 0xc3, 0xb2, 0xa1);
    HostBytesInjective32(ByteSwap32(PCAP_MAGIC), 0xd4c3b2a1);
  }

  /** `pcap_pkthdr` after the read, with the four fields swapped in swap mode. */
  function RecordHeaderAt(raw: seq<uint8>, byteswap: bool): RecordHeader
    requires |raw| == RECORD_HEADER_SIZE
  {
    var h := RecordHeader(HostLoad32(raw, 0), HostLoad32(raw, 4), HostLoad32(raw, 8), HostLoad32(raw, 12));
    if byteswap then SwapRecordHeader(h) else h
  }

  function SwapRecordHeader(h: RecordHeader): RecordHeader
  {
    RecordHeader(ByteSwap32(h.tsSecs), ByteSwap32(h.tsUsecs), ByteSwap32(h.caplen), ByteSwap32(h.len))
  }

  /** `pcap_pkthdr` as `writev` puts it in the file: host order, whatever the
      stream's swap mode. */
  function EncodeRecordHeader(h: RecordHeader): (raw: seq<uint8>)
    ensures |raw| == RECORD_HEADER_SIZE
  {
    HostBytes32(h.tsSecs) + HostBytes32(h.tsUsecs) + HostBytes32(h.caplen) + HostBytes32(h.len)
  }

  /** A record header written in host order reads back unchanged in a
      stream without swap mode, and with every field swapped in one with it. */
  lemma {:induction false} RecordHeaderRoundTrip(h: RecordHeader, byteswap: bool)
    ensures RecordHeaderAt(EncodeRecordHeader(h), byteswap)
      == if byteswap then SwapRecordHeader(h) else h
  {
    var raw := EncodeRecordHeader(h);
    HostLoadStore32(h.tsSecs, [], raw[4..]);
    assert raw == [] + HostBytes32(h.tsSecs) + raw[4..];
    HostLoadStore32(h.tsUsecs, raw[..4], raw[8..]);
    assert raw == raw[..4] + HostBytes32(h.tsUsecs) + raw[8..];
    HostLoadStore32(h.caplen, raw[..8], raw[12..]);
    assert raw == raw[..8] + HostBytes32(h.caplen) + raw[12..];
    HostLoadStore32(h.len, raw[..12], []);
    assert raw == raw[..12] + HostBytes32(h.len) + [];
  }

  lemma SwapRecordHeaderInvolution(h: RecordHeader)
    ensures SwapRecordHeader(SwapRecordHeader(h)) == h
  {
    ByteSwap32Involution(h.tsSecs);
    ByteSwap32Involution(h.tsUsecs);
    ByteSwap32Involution(h.caplen);
    ByteSwap32Involution(h.len);
  }

  /** A record header written by a host of the opposite byte order (every
      field swapped) is read in swap mode as the header that host meant. */
  lemma {:induction false} SwappedRecordRoundTrip(h: RecordHeader)
    ensures RecordHeaderAt(EncodeRecordHeader(SwapRecordHeader(h)), true) == h
  {
    RecordHeaderRoundTrip(SwapRecordHeader(h), true);
    SwapRecordHeaderInvolution(h);
  }

  /** The stack buffer `packet_buffer` each record's data is read into. */
  const PACKET_BUFFER_SIZE: nat := 100000

  /** `static_cast<int>` of a `u_int`: values from 2^31 up wrap to negative. */
  function AsInt32(x: uint32): (r: int)
    ensures x as int < 0x8000_0000 ==> r == x as int
    ensures x as int >= 0x8000_0000 ==> r < 0
  {
    if x as int < 0x8000_0000 then x as int else x as int - 0x1_0000_0000
  }

  /** What one pass of the record loop reads from the bytes `avail` still in
      the file: nothing (the loop sleeps and retries), a short header (the
      loop ends), more data than the stack buffer holds (written beyond it
      before any test), a read the signed truncation test rejects (fatal),
      or a record: the bytes read, which are `caplen` bytes unless a
      `caplen` of 2^31 or more disabled the test. */
  datatype ReadStep =
    | Retry
    | ShortHeader(got: nat)
    | BufferOverrun(header: RecordHeader, got: nat)
    | ShortPacket(header: RecordHeader, got: nat)
    | Record(header: RecordHeader, data: seq<uint8>)

  /** The number of data bytes `read(fd, packet_buffer, caplen)` returns. */
  function DataRead(avail: seq<uint8>, caplen: uint32): (n: nat)
    requires |avail| >= RECORD_HEADER_SIZE
    ensures n <= caplen as int && n <= |avail| - RECORD_HEADER_SIZE
    ensures n == caplen as int || n == |avail| - RECORD_HEADER_SIZE
  {
    if |avail| - RECORD_HEADER_SIZE < caplen as int then |avail| - RECORD_HEADER_SIZE else caplen as int
  }

  function NextRecord(avail: seq<uint8>, byteswap: bool): (r: ReadStep)
    ensures r.Retry? <==> avail == []
    ensures r.ShortHeader? <==> 0 < |avail| < RECORD_HEADER_SIZE
    ensures r.ShortHeader? ==> r.got == |avail|
    ensures |avail| >= RECORD_HEADER_SIZE ==>
      var h := RecordHeaderAt(avail[..RECORD_HEADER_SIZE], byteswap);
      var n := DataRead(avail, h.caplen);
      && (r.BufferOverrun? <==> n > PACKET_BUFFER_SIZE)
      && (r.ShortPacket? <==> n <= PACKET_BUFFER_SIZE && n < h.caplen as int < 0x8000_0000)
      && (r.BufferOverrun? || r.ShortPacket? ==> r.header == h && r.got == n)
      && (r.Record? ==> r.header == h && r.data == avail[RECORD_HEADER_SIZE..RECORD_HEADER_SIZE + n])
    ensures r.Record? ==>
      && |r.data| <= PACKET_BUFFER_SIZE
      && (|r.data| == r.header.caplen as int || r.header.caplen as int >= 0x8000_0000)
  {
    if avail == [] then Retry
    else if |avail| < RECORD_HEADER_SIZE then ShortHeader(|avail|)
    else
      var h := RecordHeaderAt(avail[..RECORD_HEADER_SIZE], byteswap);
      var n := DataRead(avail, h.caplen);
      if n > PACKET_BUFFER_SIZE then BufferOverrun(h, n)
      else if n < AsInt32(h.caplen) then ShortPacket(h, n)
      else Record(h, avail[RECORD_HEADER_SIZE..RECORD_HEADER_SIZE + n])
  }

  /** How many bytes a read step takes from the file. */
  function Consumed(r: ReadStep): nat
  {
    match r
    case Retry => 0
    case ShortHeader(got) => got
    case BufferOverrun(_, got) => RECORD_HEADER_SIZE + got
    case ShortPacket(_, got) => RECORD_HEADER_SIZE + got
    case Record(_, data) => RECORD_HEADER_SIZE + |data|
  }

  /** The reader recovers exactly what the writer framed: a record whose
      header declares the length of the data that follows reads back as
      that record, unless the data does not fit the stack buffer. */
  lemma {:induction false} ReadsBackRecord(h: RecordHeader, data: seq<uint8>, rest: seq<uint8>)
    requires h.caplen as int == |data|
    ensures NextRecord(EncodeRecordHeader(h) + data + rest, false)
      == if |data| <= PACKET_BUFFER_SIZE then Record(h, data) else BufferOverrun(h, |data|)
  {
    var avail := EncodeRecordHeader(h) + data + rest;
    assert avail[..RECORD_HEADER_SIZE] == EncodeRecordHeader(h);
    RecordHeaderRoundTrip(h, false);
    assert avail[RECORD_HEADER_SIZE..RECORD_HEADER_SIZE + |data|] == data;
  }

  /** A truncated record, with fewer data bytes than its header declares, is
      a short packet only when the declared length is below 2^31 and the
      data fits the stack buffer: with a larger length the signed test never
      fires, and the bytes that are there are taken as the record. */
  lemma {:induction false} TruncatedRecord(h: RecordHeader, data: seq<uint8>, byteswap: bool)
    requires |data| < (RecordHeaderAt(EncodeRecordHeader(h), byteswap)).caplen as int
    ensures var c := RecordHeaderAt(EncodeRecordHeader(h), byteswap);
      NextRecord(EncodeRecordHeader(h) + data, byteswap)
        == if |data| > PACKET_BUFFER_SIZE then BufferOverrun(c, |data|)
           else if c.caplen as int < 0x8000_0000 then ShortPacket(c, |data|)
           else Record(c, data)
  {
    var avail := EncodeRecordHeader(h) + data;
    assert avail[..RECORD_HEADER_SIZE] == EncodeRecordHeader(h);
    assert avail[RECORD_HEADER_SIZE..RECORD_HEADER_SIZE + |data|] == data;
  }

  /** The wall clock as `gettimeofday` gives it. */
  datatype Clock = Clock(secs: nat, usecs: nat)

  /** The record header `build_and_send_ICMP` and `build_and_send_UDP` write:
      the current time, and caplen = len = Ethernet + IPv4 + the 8-byte
      protocol header + payload. */
  function ReplyRecordHeader(now: Clock, protoHeaderLength: nat, size: nat): (h: RecordHeader)
    requires ETH_SIZE + IPV4_SIZE + protoHeaderLength + size < 0x1_0000_0000
  {
    var caplen := (ETH_SIZE + IPV4_SIZE + protoHeaderLength + size) as uint32;
    RecordHeader((now.secs % 0x1_0000_0000) as uint32, (now.usecs % 0x1_0000_0000) as uint32, caplen, caplen)
  }

  /** A reply record's length fields are consistent with its frame, so in a
      stream without swap mode it reads back as exactly that frame. */
  lemma {:induction false} ReplyRecordReadsBack(now: Clock, protoHeaderLength: nat, frame: seq<uint8>, rest: seq<uint8>)
    requires ETH_SIZE + IPV4_SIZE + protoHeaderLength <= |frame| <= PACKET_BUFFER_SIZE
    ensures var h := ReplyRecordHeader(now, protoHeaderLength, |frame| - (ETH_SIZE + IPV4_SIZE + protoHeaderLength));
      h.caplen == h.len && h.caplen as int == |frame|
      && NextRecord(EncodeRecordHeader(h) + frame + rest, false) == Record(h, frame)
  {
    var h := ReplyRecordHeader(now, protoHeaderLength, |frame| - (ETH_SIZE + IPV4_SIZE + protoHeaderLength));
    ReadsBackRecord(h, frame, rest);
  }
}
