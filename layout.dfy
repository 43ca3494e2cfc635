/**
 * The fixed wire layouts and pcap constants of twig-utils.h.
 *
 * The capture and protocol header structs there (the pcap file and record
 * headers, Ethernet, IPv4, ICMP and UDP) are laid out without padding: the
 * reply structs are declared packed, and the others have naturally aligned
 * fields. So a header's size is the sum of its field widths and a field's
 * offset is the sum of the widths before it. The ARP cache entry is padded
 * before its `time_t`, but it is never read from or written as bytes, and
 * it is modelled as a value elsewhere.
 */
module Layout {
  import opened Bytes

  const PCAP_MAGIC: uint32 := 0xa1b2c3d4
  const PCAP_VERSION_MAJOR: uint16 := 2
  const PCAP_VERSION_MINOR: uint16 := 4

  /** Field widths, in declaration order. */
  const FILE_HEADER_FIELDS: seq<nat> := [4, 2, 2, 4, 4, 4, 4]  // magic, version_major, version_minor, thiszone, sigfigs, snaplen, linktype
  const RECORD_HEADER_FIELDS: seq<nat> := [4, 4, 4, 4]         // ts_secs, ts_usecs, caplen, len
  const ETH_FIELDS: seq<nat> := [6, 6, 2]                      // dest, src, type
  const IPV4_FIELDS: seq<nat> := [1, 1, 2, 2, 2, 1, 1, 2, 4, 4] // hlen, vers, len, frag_ident, frag_offset, ttl, type, csum, src, dest
  const UDP_FIELDS: seq<nat> := [2, 2, 2, 2]                   // sport, dport, len, checksum
  const ICMP_FIELDS: seq<nat> := [1, 1, 2, 2, 2]               // type, code, checksum, id, seq

  function SizeOf(fields: seq<nat>): nat
  {
    if fields == [] then 0 else fields[0] + SizeOf(fields[1..])
  }

  /** Offset of field number `k` inside its struct. */
  function OffsetOf(fields: seq<nat>, k: nat): nat
    requires k <= |fields|
  {
    SizeOf(fields[..k])
  }

  const FILE_HEADER_SIZE: nat := 24
  const RECORD_HEADER_SIZE: nat := 16
  const ETH_SIZE: nat := 14
  const IPV4_SIZE: nat := 20
  const UDP_SIZE: nat := 8
  const ICMP_SIZE: nat := 8

  /** Where each header begins inside a captured frame (the record's data):
      the Ethernet header, then the IPv4 header, then the ICMP or UDP
      message, whose payload follows its 8-byte header. */
  const IP_BASE: nat := ETH_SIZE
  const L4_BASE: nat := ETH_SIZE + IPV4_SIZE
  const PAYLOAD: nat := L4_BASE + L4_HEADER_SIZE
  const L4_HEADER_SIZE: nat := 8

  /** Field offsets inside the Ethernet header. */
  const ETH_DEST: nat := 0
  const ETH_SRC: nat := 6
  const ETH_TYPE: nat := 12

  /** Field offsets inside the IPv4 header. */
  const IP_LEN: nat := 2
  const IP_FRAG_IDENT: nat := 4
  const IP_FRAG_OFFSET: nat := 6
  const IP_TTL: nat := 8
  const IP_PROTO: nat := 9
  const IP_CSUM: nat := 10
  const IP_SRC: nat := 12
  const IP_DEST: nat := 16

  /** Field offsets inside an ICMP message. */
  const ICMP_TYPE: nat := 0
  const ICMP_CODE: nat := 1
  const ICMP_CSUM: nat := 2
  const ICMP_ID: nat := 4
  const ICMP_SEQ: nat := 6

  /** Field offsets inside a UDP datagram. */
  const UDP_SPORT: nat := 0
  const UDP_DPORT: nat := 2
  const UDP_LEN: nat := 4
  const UDP_CSUM: nat := 6

  /** The sizes and field offsets above are those of the declared structs. */
  lemma LayoutIsPacked()
    ensures SizeOf(FILE_HEADER_FIELDS) == FILE_HEADER_SIZE
    ensures SizeOf(RECORD_HEADER_FIELDS) == RECORD_HEADER_SIZE
    ensures SizeOf(ETH_FIELDS) == ETH_SIZE && OffsetOf(ETH_FIELDS, 1) == ETH_SRC
      && OffsetOf(ETH_FIELDS, 2) == ETH_TYPE
    ensures SizeOf(IPV4_FIELDS) == IPV4_SIZE
    ensures OffsetOf(IPV4_FIELDS, 2) == IP_LEN && OffsetOf(IPV4_FIELDS, 3) == IP_FRAG_IDENT
    ensures OffsetOf(IPV4_FIELDS, 4) == IP_FRAG_OFFSET && OffsetOf(IPV4_FIELDS, 5) == IP_TTL
    ensures OffsetOf(IPV4_FIELDS, 6) == IP_PROTO && OffsetOf(IPV4_FIELDS, 7) == IP_CSUM
    ensures OffsetOf(IPV4_FIELDS, 8) == IP_SRC && OffsetOf(IPV4_FIELDS, 9) == IP_DEST
    ensures SizeOf(UDP_FIELDS) == UDP_SIZE && SizeOf(ICMP_FIELDS) == ICMP_SIZE
    ensures UDP_SIZE == L4_HEADER_SIZE && ICMP_SIZE == L4_HEADER_SIZE
    ensures OffsetOf(ICMP_FIELDS, 2) == ICMP_CSUM && OffsetOf(ICMP_FIELDS, 3) == ICMP_ID
      && OffsetOf(ICMP_FIELDS, 4) == ICMP_SEQ
    ensures OffsetOf(UDP_FIELDS, 1) == UDP_DPORT && OffsetOf(UDP_FIELDS, 2) == UDP_LEN
      && OffsetOf(UDP_FIELDS, 3) == UDP_CSUM
  {
    CaptureHeadersPacked();
    EthernetPacked();
    IPv4Packed();
    MessagesPacked();
  }

  lemma {:induction false} CaptureHeadersPacked()
    ensures SizeOf(FILE_HEADER_FIELDS) == FILE_HEADER_SIZE
    ensures SizeOf(RECORD_HEADER_FIELDS) == RECORD_HEADER_SIZE
  {
    SizeOfPrefixes(FILE_HEADER_FIELDS);
    SizeOfPrefixes(RECORD_HEADER_FIELDS);
  }

  lemma {:induction false} EthernetPacked()
    ensures SizeOf(ETH_FIELDS) == ETH_SIZE && OffsetOf(ETH_FIELDS, 1) == ETH_SRC
      && OffsetOf(ETH_FIELDS, 2) == ETH_TYPE
  {
    SizeOfPrefixes(ETH_FIELDS);
  }

  lemma {:induction false} IPv4Packed()
    ensures SizeOf(IPV4_FIELDS) == IPV4_SIZE
    ensures OffsetOf(IPV4_FIELDS, 2) == IP_LEN && OffsetOf(IPV4_FIELDS, 3) == IP_FRAG_IDENT
    ensures OffsetOf(IPV4_FIELDS, 4) == IP_FRAG_OFFSET && OffsetOf(IPV4_FIELDS, 5) == IP_TTL
    ensures OffsetOf(IPV4_FIELDS, 6) == IP_PROTO && OffsetOf(IPV4_FIELDS, 7) == IP_CSUM
    ensures OffsetOf(IPV4_FIELDS, 8) == IP_SRC && OffsetOf(IPV4_FIELDS, 9) == IP_DEST
  {
    SizeOfPrefixes(IPV4_FIELDS);
  }

  lemma {:induction false} MessagesPacked()
    ensures SizeOf(UDP_FIELDS) == UDP_SIZE && SizeOf(ICMP_FIELDS) == ICMP_SIZE
    ensures OffsetOf(ICMP_FIELDS, 2) == ICMP_CSUM && OffsetOf(ICMP_FIELDS, 3) == ICMP_ID
      && OffsetOf(ICMP_FIELDS, 4) == ICMP_SEQ
    ensures OffsetOf(UDP_FIELDS, 1) == UDP_DPORT && OffsetOf(UDP_FIELDS, 2) == UDP_LEN
      && OffsetOf(UDP_FIELDS, 3) == UDP_CSUM
  {
    SizeOfPrefixes(UDP_FIELDS);
    SizeOfPrefixes(ICMP_FIELDS);
  }

  /** Each prefix's size is the previous prefix's size plus one more field. */
  lemma {:induction false} SizeOfPrefixes(fields: seq<nat>)
    ensures forall k :: 0 < k <= |fields| ==> SizeOf(fields[..k]) == SizeOf(fields[..k - 1]) + fields[k - 1]
    ensures SizeOf(fields[..|fields|]) == SizeOf(fields) && SizeOf(fields[..0]) == 0
  {
    assert fields[..|fields|] == fields;
    forall k | 0 < k <= |fields|
      ensures SizeOf(fields[..k]) == SizeOf(fields[..k - 1]) + fields[k - 1]
    {
      SizeOfSnoc(fields[..k - 1], fields[k - 1]);
      assert fields[..k - 1] + [fields[k - 1]] == fields[..k];
    }
  }

  lemma {:induction false} SizeOfSnoc(fields: seq<nat>, w: nat)
    ensures SizeOf(fields + [w]) == SizeOf(fields) + w
  {
    if fields != [] {
      assert (fields + [w])[1..] == fields[1..] + [w];
      SizeOfSnoc(fields[1..], w);
    }
  }

  /** `ICMP::length()`: two one-byte fields and three `u_short`s, which is
      the size of the ICMP header struct. */
  function IcmpLength(): (n: nat)
    ensures n == SizeOf(ICMP_FIELDS) && n == ICMP_SIZE
  {
    LayoutIsPacked();
    1 * 2 + 2 * 3
  }
}
