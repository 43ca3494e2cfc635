/**
 * The two responders of twig.cc, `do_ICMP` and `do_UDP`. Each builds a reply
 * frame (Ethernet header, IPv4 header, 8-byte ICMP or UDP header, payload)
 * in a freshly allocated buffer by copying parts of the request and then
 * assigning fields one at a time; the frame is what `build_and_send_ICMP`
 * and `build_and_send_UDP` write after a record header.
 *
 * A frame is a byte sequence: the Ethernet header at `ETH_DEST..IP_BASE`,
 * the IPv4 header at `IP_BASE..L4_BASE` and the ICMP or UDP message (header
 * and payload) from `L4_BASE` on. `request` is the captured record's data,
 * of length caplen, so its payload has `|request| - PAYLOAD` bytes.
 */
module Responders {
  import opened Bytes
  import opened Layout
  import opened InternetChecksum
  import opened Buffers
  import opened Wrappers

  const ICMP_ECHO_REQUEST: uint8 := 8
  const ICMP_ECHO_REPLY: uint8 := 0
  const UDP_ECHO_PORT: uint16 := 7
  const UDP_TIME_PORT: uint16 := 37
  const PROTO_UDP: uint8 := 0x11
  const REPLY_TTL: uint8 := 64

  // ---------------------------------------------------------------------
  // What a reply is

  /** Ethernet source and destination exchanged, ether-type kept. */
  ghost predicate SwapsEthernet(request: seq<uint8>, reply: seq<uint8>)
    requires |request| >= L4_BASE && |reply| >= L4_BASE
  {
    && reply[ETH_DEST..ETH_SRC] == request[ETH_SRC..ETH_TYPE]
    && reply[ETH_SRC..ETH_TYPE] == request[ETH_DEST..ETH_SRC]
    && reply[ETH_TYPE..IP_BASE] == request[ETH_TYPE..IP_BASE]
  }

  /** The IPv4 header of a reply apart from its checksum: copied from the
      request with the addresses exchanged, total length `totalLength` (as a
      16-bit field in network order), fragment fields zero, TTL 64 and
      protocol `proto`. */
  ghost predicate IPv4Fields(request: seq<uint8>, reply: seq<uint8>, totalLength: nat, proto: uint8)
    requires |request| >= L4_BASE && |reply| >= L4_BASE
  {
    && reply[IP_BASE..IP_BASE + IP_LEN] == request[IP_BASE..IP_BASE + IP_LEN]
    && NetLoad16(reply, IP_BASE + IP_LEN) as int == totalLength % 0x1_0000
    && reply[IP_BASE + IP_FRAG_IDENT..IP_BASE + IP_TTL] == [0, 0, 0, 0]
    && reply[IP_BASE + IP_TTL] == REPLY_TTL
    && reply[IP_BASE + IP_PROTO] == proto
    && reply[IP_BASE + IP_SRC..IP_BASE + IP_DEST] == request[IP_BASE + IP_DEST..L4_BASE]
    && reply[IP_BASE + IP_DEST..L4_BASE] == request[IP_BASE + IP_SRC..IP_BASE + IP_DEST]
  }

  /** The checksum field at `off` holds the checksum of `m` computed with
      that field zero, so that the checksum of `m` as sent is zero. */
  ghost predicate Sealed(m: seq<uint8>, off: nat)
    requires off + 2 <= |m|
  {
    && HostLoad16(m, off) == Checksum(m[..off] + [0, 0] + m[off + 2..])
    && Checksum(m) == 0
  }

  /** The headers of a reply frame: Ethernet swapped, IPv4 header answered
      with total length `|reply| - 14` and protocol `proto`, and sealed. */
  ghost predicate RepliesTo(request: seq<uint8>, reply: seq<uint8>, proto: uint8)
    requires |request| >= L4_BASE && |reply| >= L4_BASE
  {
    && SwapsEthernet(request, reply)
    && IPv4Fields(request, reply, |reply| - IP_BASE, proto)
    && Sealed(reply[IP_BASE..L4_BASE], IP_CSUM)
  }

  /** The ICMP echo reply message to an echo request message: type 0, code
      0, identifier, sequence number and payload kept, checksum sealed. */
  ghost predicate EchoMessage(req: seq<uint8>, msg: seq<uint8>)
    requires |req| >= ICMP_SIZE
  {
    && |msg| == |req|
    && msg[ICMP_TYPE] == ICMP_ECHO_REPLY && msg[ICMP_CODE] == 0
    && msg[ICMP_ID..] == req[ICMP_ID..]
    && Sealed(msg, ICMP_CSUM)
  }

  /** Ports exchanged and the UDP checksum left zero. */
  ghost predicate AnswersPorts(req: seq<uint8>, dgram: seq<uint8>)
    requires |req| >= UDP_SIZE && |dgram| >= UDP_SIZE
  {
    && dgram[UDP_SPORT..UDP_DPORT] == req[UDP_DPORT..UDP_LEN]
    && dgram[UDP_DPORT..UDP_LEN] == req[UDP_SPORT..UDP_DPORT]
    && dgram[UDP_CSUM..UDP_SIZE] == [0, 0]
  }

  /** The port 7 reply datagram: same payload, UDP length that of the whole
      datagram. */
  ghost predicate EchoDatagram(req: seq<uint8>, dgram: seq<uint8>)
    requires |req| >= UDP_SIZE
  {
    && |dgram| == |req|
    && AnswersPorts(req, dgram)
    && NetLoad16(dgram, UDP_LEN) as int == |dgram| % 0x1_0000
    && dgram[UDP_SIZE..] == req[UDP_SIZE..]
  }

  /** The port 37 reply datagram: a 4-byte payload holding the clock's
      seconds as a `u_int32_t` in host order, UDP length 12. */
  ghost predicate TimeDatagram(req: seq<uint8>, now: nat, dgram: seq<uint8>)
    requires |req| >= UDP_SIZE
  {
    && |dgram| == UDP_SIZE + 4
    && AnswersPorts(req, dgram)
    && NetLoad16(dgram, UDP_LEN) as int == |dgram|
    && dgram[UDP_SIZE..] == HostBytes32((now % 0x1_0000_0000) as uint32)
  }

  ghost predicate IcmpEchoReply(request: seq<uint8>, reply: seq<uint8>)
    requires |request| >= PAYLOAD
  {
    && |reply| == |request|
    && RepliesTo(request, reply, request[IP_BASE + IP_PROTO])
    && EchoMessage(request[L4_BASE..], reply[L4_BASE..])
  }

  ghost predicate UdpEchoReply(request: seq<uint8>, reply: seq<uint8>)
    requires |request| >= PAYLOAD
  {
    && |reply| == |request|
    && RepliesTo(request, reply, PROTO_UDP)
    && EchoDatagram(request[L4_BASE..], reply[L4_BASE..])
  }

  ghost predicate UdpTimeReply(request: seq<uint8>, now: nat, reply: seq<uint8>)
    requires |request| >= PAYLOAD
  {
    && |reply| == PAYLOAD + 4
    && RepliesTo(request, reply, PROTO_UDP)
    && TimeDatagram(request[L4_BASE..], now, reply[L4_BASE..])
  }

  /** The checksums of every reply also check to 0 in network order, as a
      receiver verifies them: the IPv4 header of any reply, and the ICMP
      message of an echo reply. */
  lemma {:induction false} RepliesCheckOnTheWire(request: seq<uint8>, reply: seq<uint8>, proto: uint8)
    requires |request| >= PAYLOAD && |reply| >= L4_BASE
    ensures RepliesTo(request, reply, proto) ==> ChecksumNet(reply[IP_BASE..L4_BASE]) == 0
    ensures IcmpEchoReply(request, reply) ==> ChecksumNet(reply[L4_BASE..]) == 0
  {
    ChecksumByteOrder(reply[IP_BASE..L4_BASE]);
    ChecksumByteOrder(reply[L4_BASE..]);
  }

  // ---------------------------------------------------------------------
  // Checksums

  /** A checksum maker applied to `r[lo..hi]`, whose checksum field at `off`
      is zero, and the result stored in that field. */
  method StoreChecksum(r: array<uint8>, lo: nat, off: nat, hi: nat)
    requires lo <= off && off + 2 <= hi <= r.Length && (off - lo) % 2 == 0
    requires r[off..off + 2] == [0, 0]
    modifies r
    ensures Agree(old(r[..]), r[..], 0, off) && Agree(old(r[..]), r[..], off + 2, r.Length)
    ensures Sealed(r[lo..hi], off - lo)
  {
    ghost var before := r[..];
    ghost var zeroed := r[lo..hi];
    ghost var k := off - lo;
    assert zeroed == zeroed[..k] + [0, 0] + zeroed[k + 2..];
    var csum := ChecksumMaker(r[lo..hi]);
    Store16(r, off, csum);
    ghost var after := r[..];
    ghost var sealed := after[lo..hi];
    Keep(before, after, 0, off, lo, off);
    Keep(before, after, off + 2, r.Length, off + 2, hi);
    SliceOfSlice(after, lo, hi, 0, k);
    SliceOfSlice(after, lo, hi, k, k + 2);
    SliceOfSlice(after, lo, hi, k + 2, hi - lo);
    SliceOfSlice(before, lo, hi, 0, k);
    SliceOfSlice(before, lo, hi, k + 2, hi - lo);
    assert zeroed[k + 2..] == zeroed[k + 2..hi - lo] && sealed[k + 2..] == sealed[k + 2..hi - lo];
    Splice(sealed, zeroed[..k], HostBytes16(csum), zeroed[k + 2..]);
    assert r[lo..hi] == sealed;
    ChecksumVerifies(zeroed[..k], zeroed[k + 2..]);
    HostBytesInjective16(HostLoad16(sealed, k), csum);
  }

  // ---------------------------------------------------------------------
  // The headers of a reply, shared by both responders

  /** `reply->ehead = packet->ehead` followed by the two address copies. */
  method AnswerEthernet(r: array<uint8>, request: seq<uint8>)
    requires r.Length >= L4_BASE && |request| >= L4_BASE
    modifies r
    ensures SwapsEthernet(request, r[..])
    ensures Agree(old(r[..]), r[..], IP_BASE, r.Length)
  {
    ghost var s0 := r[..];
    Memcpy(r, ETH_DEST, request[ETH_DEST..IP_BASE]);
    ghost var s1 := r[..];
    Memcpy(r, ETH_DEST, request[ETH_SRC..ETH_TYPE]);
    ghost var s2 := r[..];
    Memcpy(r, ETH_SRC, request[ETH_DEST..ETH_SRC]);
    ghost var s3 := r[..];
    Keep(s2, s3, 0, ETH_SRC, ETH_DEST, ETH_SRC);
    AgreeOfSlices(s1, request, ETH_DEST, IP_BASE);
    Keep(s1, request, ETH_DEST, IP_BASE, ETH_TYPE, IP_BASE);
    Chain(s1, s2, s3, ETH_TYPE, r.Length);
    Keep(s1, s3, ETH_TYPE, r.Length, ETH_TYPE, IP_BASE);
    Chain(s0, s1, s2, IP_BASE, r.Length);
    Chain(s0, s2, s3, IP_BASE, r.Length);
  }

  /** `reply->ip = packet->ip` followed by the exchange of the addresses. */
  method CopyIPv4Swapped(r: array<uint8>, request: seq<uint8>)
    requires r.Length >= L4_BASE && |request| >= L4_BASE
    modifies r
    ensures r[IP_BASE..IP_BASE + IP_SRC] == request[IP_BASE..IP_BASE + IP_SRC]
    ensures r[IP_BASE + IP_SRC..IP_BASE + IP_DEST] == request[IP_BASE + IP_DEST..L4_BASE]
    ensures r[IP_BASE + IP_DEST..L4_BASE] == request[IP_BASE + IP_SRC..IP_BASE + IP_DEST]
    ensures Agree(old(r[..]), r[..], 0, IP_BASE) && Agree(old(r[..]), r[..], L4_BASE, r.Length)
  {
    ghost var s0 := r[..];
    Memcpy(r, IP_BASE, request[IP_BASE..L4_BASE]);
    ghost var s1 := r[..];
    Memcpy(r, IP_BASE + IP_DEST, request[IP_BASE + IP_SRC..IP_BASE + IP_DEST]);
    ghost var s2 := r[..];
    Memcpy(r, IP_BASE + IP_SRC, request[IP_BASE + IP_DEST..L4_BASE]);
    ghost var s3 := r[..];
    AgreeOfSlices(s1, request, IP_BASE, L4_BASE);
    Chain(s1, s2, s3, 0, IP_BASE + IP_SRC);
    Keep(s1, s3, 0, IP_BASE + IP_SRC, IP_BASE, IP_BASE + IP_SRC);
    Keep(s1, request, IP_BASE, L4_BASE, IP_BASE, IP_BASE + IP_SRC);
    Keep(s2, s3, IP_BASE + IP_DEST, r.Length, IP_BASE + IP_DEST, L4_BASE);
    Chain(s0, s1, s2, 0, IP_BASE);
    Chain(s0, s2, s3, 0, IP_BASE);
    Chain(s0, s1, s2, L4_BASE, r.Length);
    Chain(s0, s2, s3, L4_BASE, r.Length);
  }

  /** The field assignments after the copy: the total length (`byteswap16`),
      zero fragment fields, TTL 64 and a zero checksum. */
  method SetIPv4Fields(r: array<uint8>, totalLength: nat)
    requires r.Length >= L4_BASE
    modifies r
    ensures r[IP_BASE + IP_LEN..IP_BASE + IP_FRAG_IDENT] == NetBytes16((totalLength % 0x1_0000) as uint16)
    ensures r[IP_BASE + IP_FRAG_IDENT..IP_BASE + IP_TTL] == [0, 0, 0, 0]
    ensures r[IP_BASE + IP_TTL] == REPLY_TTL
    ensures r[IP_BASE + IP_CSUM..IP_BASE + IP_SRC] == [0, 0]
    ensures Agree(old(r[..]), r[..], 0, IP_BASE + IP_LEN)
    ensures Agree(old(r[..]), r[..], IP_BASE + IP_PROTO, IP_BASE + IP_CSUM)
    ensures Agree(old(r[..]), r[..], IP_BASE + IP_SRC, r.Length)
  {
    ghost var s0 := r[..];
    var len := (totalLength % 0x1_0000) as uint16;
    HostStoreOfSwap16(len);
    Store16(r, IP_BASE + IP_LEN, ByteSwap16(len));
    ghost var s1 := r[..];
    HostStoreOfSwap16(0);
    Store16(r, IP_BASE + IP_FRAG_IDENT, ByteSwap16(0));
    ghost var s2 := r[..];
    Store16(r, IP_BASE + IP_FRAG_OFFSET, ByteSwap16(0));
    ghost var s3 := r[..];
    Store8(r, IP_BASE + IP_TTL, REPLY_TTL);
    ghost var s4 := r[..];
    Store16(r, IP_BASE + IP_CSUM, 0);
    ghost var s5 := r[..];
    assert s5[IP_BASE + IP_LEN] == s1[IP_BASE + IP_LEN] && s5[IP_BASE + IP_LEN + 1] == s1[IP_BASE + IP_LEN + 1];
    assert s5[IP_BASE + IP_FRAG_IDENT] == 0 && s5[IP_BASE + IP_FRAG_IDENT + 1] == 0;
    assert s5[IP_BASE + IP_FRAG_OFFSET] == 0 && s5[IP_BASE + IP_FRAG_OFFSET + 1] == 0;
    assert s5[IP_BASE + IP_FRAG_IDENT..IP_BASE + IP_TTL] == [0, 0, 0, 0];
  }

  /** `AnswerEthernet`, `CopyIPv4Swapped` and `SetIPv4Fields` in turn: the
      headers of a reply, with the IPv4 checksum still zero. */
  method AnswerHeaders(r: array<uint8>, request: seq<uint8>, totalLength: nat)
    requires r.Length >= L4_BASE && |request| >= L4_BASE
    modifies r
    ensures SwapsEthernet(request, r[..])
    ensures IPv4Fields(request, r[..], totalLength, request[IP_BASE + IP_PROTO])
    ensures r[IP_BASE + IP_CSUM..IP_BASE + IP_SRC] == [0, 0]
    ensures Agree(old(r[..]), r[..], L4_BASE, r.Length)
  {
    ghost var s0 := r[..];
    AnswerEthernet(r, request);
    ghost var s1 := r[..];
    CopyIPv4Swapped(r, request);
    ghost var s2 := r[..];
    SetIPv4Fields(r, totalLength);
    ghost var s3 := r[..];
    Narrow(s2, s3, 0, IP_BASE + IP_LEN, 0, IP_BASE);
    Chain(s1, s2, s3, 0, IP_BASE);
    EthernetKept(request, s1, s3);
    CopiedPrefix(request, s2);
    Keep(s2, s3, 0, IP_BASE + IP_LEN, IP_BASE, IP_BASE + IP_LEN);
    Keep(s2, s3, IP_BASE + IP_SRC, r.Length, IP_BASE + IP_SRC, IP_BASE + IP_DEST);
    Keep(s2, s3, IP_BASE + IP_SRC, r.Length, IP_BASE + IP_DEST, L4_BASE);
    NetLoadOfBytes(s3, IP_BASE + IP_LEN, (totalLength % 0x1_0000) as uint16);
    Chain(s0, s1, s2, L4_BASE, r.Length);
    Narrow(s2, s3, IP_BASE + IP_SRC, r.Length, L4_BASE, r.Length);
    Chain(s0, s2, s3, L4_BASE, r.Length);
  }

  /** The Ethernet predicate looks only at the first 14 bytes. */
  lemma EthernetKept(request: seq<uint8>, a: seq<uint8>, b: seq<uint8>)
    requires |request| >= L4_BASE && |a| >= L4_BASE && |b| >= L4_BASE
    requires SwapsEthernet(request, a) && Agree(a, b, 0, IP_BASE)
    ensures SwapsEthernet(request, b)
  {
    Keep(a, b, 0, IP_BASE, ETH_DEST, ETH_SRC);
    Keep(a, b, 0, IP_BASE, ETH_SRC, ETH_TYPE);
    Keep(a, b, 0, IP_BASE, ETH_TYPE, IP_BASE);
  }

  /** The header-length bytes and the protocol byte of a copied header. */
  lemma CopiedPrefix(request: seq<uint8>, s: seq<uint8>)
    requires |request| >= L4_BASE && |s| >= L4_BASE
    requires s[IP_BASE..IP_BASE + IP_SRC] == request[IP_BASE..IP_BASE + IP_SRC]
    ensures s[IP_BASE..IP_BASE + IP_LEN] == request[IP_BASE..IP_BASE + IP_LEN]
    ensures s[IP_BASE + IP_PROTO] == request[IP_BASE + IP_PROTO]
  {
    AgreeOfSlices(s, request, IP_BASE, IP_BASE + IP_SRC);
    Keep(s, request, IP_BASE, IP_BASE + IP_SRC, IP_BASE, IP_BASE + IP_LEN);
  }

  /** Rewriting only the total length and the protocol of unsealed headers
      gives the headers with the new length and protocol. */
  lemma {:induction false} Reanswered(request: seq<uint8>, a: seq<uint8>, b: seq<uint8>,
                                      len1: nat, p1: uint8, len2: nat, p2: uint8)
    requires |request| >= L4_BASE && |a| >= L4_BASE && |b| >= L4_BASE
    requires SwapsEthernet(request, a) && IPv4Fields(request, a, len1, p1)
    requires a[IP_BASE + IP_CSUM..IP_BASE + IP_SRC] == [0, 0]
    requires Agree(a, b, 0, IP_BASE + IP_LEN)
    requires Agree(a, b, IP_BASE + IP_FRAG_IDENT, IP_BASE + IP_PROTO)
    requires Agree(a, b, IP_BASE + IP_CSUM, L4_BASE)
    requires NetLoad16(b, IP_BASE + IP_LEN) as int == len2 % 0x1_0000 && b[IP_BASE + IP_PROTO] == p2
    ensures SwapsEthernet(request, b) && IPv4Fields(request, b, len2, p2)
    ensures b[IP_BASE + IP_CSUM..IP_BASE + IP_SRC] == [0, 0]
  {
    Narrow(a, b, 0, IP_BASE + IP_LEN, 0, IP_BASE);
    EthernetKept(request, a, b);
    Keep(a, b, 0, IP_BASE + IP_LEN, IP_BASE, IP_BASE + IP_LEN);
    Keep(a, b, IP_BASE + IP_FRAG_IDENT, IP_BASE + IP_PROTO, IP_BASE + IP_FRAG_IDENT, IP_BASE + IP_TTL);
    Keep(a, b, IP_BASE + IP_CSUM, L4_BASE, IP_BASE + IP_CSUM, IP_BASE + IP_SRC);
    Keep(a, b, IP_BASE + IP_CSUM, L4_BASE, IP_BASE + IP_SRC, IP_BASE + IP_DEST);
    Keep(a, b, IP_BASE + IP_CSUM, L4_BASE, IP_BASE + IP_DEST, L4_BASE);
  }

  /** Storing the IPv4 checksum keeps every other header field. */
  lemma {:induction false} SealKeeps(request: seq<uint8>, a: seq<uint8>, b: seq<uint8>, len: nat, proto: uint8)
    requires |request| >= L4_BASE && |a| >= L4_BASE && |b| >= L4_BASE
    requires SwapsEthernet(request, a) && IPv4Fields(request, a, len, proto)
    requires Agree(a, b, 0, IP_BASE + IP_CSUM) && Agree(a, b, IP_BASE + IP_SRC, L4_BASE)
    ensures SwapsEthernet(request, b) && IPv4Fields(request, b, len, proto)
  {
    Narrow(a, b, 0, IP_BASE + IP_CSUM, 0, IP_BASE);
    EthernetKept(request, a, b);
    Keep(a, b, 0, IP_BASE + IP_CSUM, IP_BASE, IP_BASE + IP_LEN);
    Keep(a, b, 0, IP_BASE + IP_CSUM, IP_BASE + IP_FRAG_IDENT, IP_BASE + IP_TTL);
    Keep(a, b, IP_BASE + IP_SRC, L4_BASE, IP_BASE + IP_SRC, IP_BASE + IP_DEST);
    Keep(a, b, IP_BASE + IP_SRC, L4_BASE, IP_BASE + IP_DEST, L4_BASE);
  }

  // ---------------------------------------------------------------------
  // do_ICMP

  /** The echo branch of `do_ICMP` up to its checksum: type 0, code 0, the
      identifier and sequence number copied, checksum zero, payload copied. */
  method AnswerEchoFields(r: array<uint8>, request: seq<uint8>)
    requires r.Length == |request| >= PAYLOAD
    modifies r
    ensures r[L4_BASE + ICMP_TYPE] == ICMP_ECHO_REPLY && r[L4_BASE + ICMP_CODE] == 0
    ensures r[L4_BASE + ICMP_CSUM..L4_BASE + ICMP_ID] == [0, 0]
    ensures r[L4_BASE + ICMP_ID..] == request[L4_BASE + ICMP_ID..]
    ensures Agree(old(r[..]), r[..], 0, L4_BASE)
  {
    ghost var s0 := r[..];
    Store8(r, L4_BASE + ICMP_TYPE, ICMP_ECHO_REPLY);
    Store8(r, L4_BASE + ICMP_CODE, 0);
    ghost var s2 := r[..];
    Store16(r, L4_BASE + ICMP_ID, HostLoad16(request, L4_BASE + ICMP_ID));
    ghost var s3 := r[..];
    Store16(r, L4_BASE + ICMP_SEQ, HostLoad16(request, L4_BASE + ICMP_SEQ));
    ghost var s4 := r[..];
    Store16(r, L4_BASE + ICMP_CSUM, 0);
    ghost var s5 := r[..];
    Memcpy(r, PAYLOAD, request[PAYLOAD..]);
    ghost var s6 := r[..];
    AgreeOfSlices(s3, request, L4_BASE + ICMP_ID, L4_BASE + ICMP_SEQ);
    AgreeOfSlices(s4, request, L4_BASE + ICMP_SEQ, PAYLOAD);
    AgreeOfSlices(s6, request, PAYLOAD, |request|);
    Chain(s3, s4, s5, L4_BASE + ICMP_ID, L4_BASE + ICMP_SEQ);
    Chain(s3, s5, s6, L4_BASE + ICMP_ID, L4_BASE + ICMP_SEQ);
    Chain(s4, s5, s6, L4_BASE + ICMP_SEQ, PAYLOAD);
    Join(s6, request, L4_BASE + ICMP_ID, L4_BASE + ICMP_SEQ, PAYLOAD);
    Join(s6, request, L4_BASE + ICMP_ID, PAYLOAD, |request|);
    Keep(s6, request, L4_BASE + ICMP_ID, |request|, L4_BASE + ICMP_ID, |request|);
    assert s6[L4_BASE + ICMP_ID..] == s6[L4_BASE + ICMP_ID..|request|];
  }

  /** `AnswerEchoFields` and the ICMP checksum: the echo reply message. */
  method AnswerEchoMessage(r: array<uint8>, request: seq<uint8>)
    requires r.Length == |request| >= PAYLOAD
    modifies r
    ensures EchoMessage(request[L4_BASE..], r[L4_BASE..])
    ensures Agree(old(r[..]), r[..], 0, L4_BASE)
  {
    ghost var s0 := r[..];
    AnswerEchoFields(r, request);
    ghost var s1 := r[..];
    StoreChecksum(r, L4_BASE, L4_BASE + ICMP_CSUM, r.Length);
    ghost var s2 := r[..];
    ghost var msg := s2[L4_BASE..|request|];
    assert msg[ICMP_TYPE] == s1[L4_BASE + ICMP_TYPE] && msg[ICMP_CODE] == s1[L4_BASE + ICMP_CODE];
    Keep(s1, s2, L4_BASE + ICMP_CSUM + 2, |request|, L4_BASE + ICMP_ID, |request|);
    SliceOfSlice(s2, L4_BASE, |request|, ICMP_ID, |request| - L4_BASE);
    SliceOfSuffix(request, L4_BASE, ICMP_ID, ICMP_ID);
    assert s1[L4_BASE + ICMP_ID..] == s1[L4_BASE + ICMP_ID..|request|];
    assert msg[ICMP_ID..] == msg[ICMP_ID..|request| - L4_BASE];
    assert s2[L4_BASE..] == msg;
    Narrow(s1, s2, 0, L4_BASE + ICMP_CSUM, 0, L4_BASE);
    Chain(s0, s1, s2, 0, L4_BASE);
  }

  /** A buffer that agrees with another from `L4_BASE` on holds the same
      message. */
  lemma MessageKept(a: seq<uint8>, b: seq<uint8>)
    requires |a| == |b| >= L4_BASE && Agree(a, b, L4_BASE, |a|)
    ensures a[L4_BASE..] == b[L4_BASE..]
  {
    Keep(a, b, L4_BASE, |a|, L4_BASE, |a|);
    assert a[L4_BASE..] == a[L4_BASE..|a|] && b[L4_BASE..] == b[L4_BASE..|b|];
  }

  /** The echo branch of `do_ICMP`: the message, then the headers around it. */
  method AnswerEcho(r: array<uint8>, request: seq<uint8>)
    requires r.Length == |request| >= PAYLOAD
    modifies r
    ensures IcmpEchoReply(request, r[..])
  {
    var size := |request| - PAYLOAD;
    AnswerEchoMessage(r, request);
    ghost var s1 := r[..];
    AnswerHeaders(r, request, IPV4_SIZE + ICMP_SIZE + size);
    ghost var s2 := r[..];
    StoreChecksum(r, IP_BASE, IP_BASE + IP_CSUM, L4_BASE);
    ghost var s3 := r[..];
    Narrow(s2, s3, IP_BASE + IP_CSUM + 2, |request|, L4_BASE, |request|);
    Chain(s1, s2, s3, L4_BASE, |request|);
    MessageKept(s1, s3);
    SealKeeps(request, s2, s3, IPV4_SIZE + ICMP_SIZE + size, request[IP_BASE + IP_PROTO]);
  }

  /** `do_ICMP` followed by the frame `build_and_send_ICMP` writes, for a
      request with `|request| - 42` payload bytes. The reply buffer comes
      from `malloc` and is filled in only for an echo request (type 8); its
      initial contents are `heap`, and for any other type only the copied
      ICMP header is defined. */
  method DoIcmp(request: seq<uint8>, heap: seq<uint8>) returns (reply: seq<uint8>)
    requires |request| >= PAYLOAD && |heap| == |request|
    ensures |reply| == |request|
    ensures request[L4_BASE + ICMP_TYPE] == ICMP_ECHO_REQUEST ==> IcmpEchoReply(request, reply)
    ensures request[L4_BASE + ICMP_TYPE] != ICMP_ECHO_REQUEST ==>
      reply == heap[..L4_BASE] + request[L4_BASE..PAYLOAD] + heap[PAYLOAD..]
  {
    var r := new uint8[|request|](i requires 0 <= i < |request| => heap[i]);
    ghost var s0 := r[..];
    assert s0 == heap;
    Memcpy(r, L4_BASE, request[L4_BASE..PAYLOAD]);
    if request[L4_BASE + ICMP_TYPE] == ICMP_ECHO_REQUEST {
      AnswerEcho(r, request);
      reply := r[..];
    } else {
      reply := r[..];
      Keep(s0, reply, 0, L4_BASE, 0, L4_BASE);
      Keep(s0, reply, PAYLOAD, |request|, PAYLOAD, |request|);
      assert reply == reply[..L4_BASE] + reply[L4_BASE..PAYLOAD] + reply[PAYLOAD..];
    }
  }

  // ---------------------------------------------------------------------
  // do_UDP

  /** `reply->udp.sport = packet->udp.dport; reply->udp.dport = packet->udp.sport`. */
  method AnswerPorts(r: array<uint8>, request: seq<uint8>)
    requires r.Length >= PAYLOAD && |request| >= PAYLOAD
    modifies r
    ensures r[L4_BASE + UDP_SPORT..L4_BASE + UDP_DPORT] == request[L4_BASE + UDP_DPORT..L4_BASE + UDP_LEN]
    ensures r[L4_BASE + UDP_DPORT..L4_BASE + UDP_LEN] == request[L4_BASE + UDP_SPORT..L4_BASE + UDP_DPORT]
    ensures Agree(old(r[..]), r[..], 0, L4_BASE) && Agree(old(r[..]), r[..], L4_BASE + UDP_LEN, r.Length)
  {
    ghost var s0 := r[..];
    Store16(r, L4_BASE + UDP_SPORT, HostLoad16(request, L4_BASE + UDP_DPORT));
    ghost var s1 := r[..];
    Store16(r, L4_BASE + UDP_DPORT, HostLoad16(request, L4_BASE + UDP_SPORT));
    ghost var s2 := r[..];
    Keep(s1, s2, 0, L4_BASE + UDP_DPORT, L4_BASE + UDP_SPORT, L4_BASE + UDP_DPORT);
    Narrow(s0, s1, 0, L4_BASE + UDP_SPORT, 0, L4_BASE);
    Narrow(s1, s2, 0, L4_BASE + UDP_DPORT, 0, L4_BASE);
    Chain(s0, s1, s2, 0, L4_BASE);
    Narrow(s0, s1, L4_BASE + UDP_DPORT, r.Length, L4_BASE + UDP_LEN, r.Length);
    Chain(s0, s1, s2, L4_BASE + UDP_LEN, r.Length);
  }

  /** The frame facts that make `r[L4_BASE..n]` answer the request's ports. */
  lemma {:induction false} PortsOf(request: seq<uint8>, f: seq<uint8>, n: nat)
    requires PAYLOAD <= n <= |f| && |request| >= PAYLOAD
    requires f[L4_BASE + UDP_SPORT..L4_BASE + UDP_DPORT] == request[L4_BASE + UDP_DPORT..L4_BASE + UDP_LEN]
    requires f[L4_BASE + UDP_DPORT..L4_BASE + UDP_LEN] == request[L4_BASE + UDP_SPORT..L4_BASE + UDP_DPORT]
    requires f[L4_BASE + UDP_CSUM..PAYLOAD] == [0, 0]
    ensures AnswersPorts(request[L4_BASE..], f[L4_BASE..n])
  {
    SliceOfSlice(f, L4_BASE, n, UDP_SPORT, UDP_DPORT);
    SliceOfSlice(f, L4_BASE, n, UDP_DPORT, UDP_LEN);
    SliceOfSlice(f, L4_BASE, n, UDP_CSUM, UDP_SIZE);
    SliceOfSuffix(request, L4_BASE, UDP_SPORT, UDP_DPORT);
    SliceOfSuffix(request, L4_BASE, UDP_DPORT, UDP_LEN);
  }

  /** The port 7 branch of `do_UDP`: ports exchanged, UDP length
      `byteswap16(8 + size)`, zero checksum, payload copied. */
  method AnswerUdpEcho(r: array<uint8>, request: seq<uint8>)
    requires r.Length >= |request| >= PAYLOAD
    modifies r
    ensures EchoDatagram(request[L4_BASE..], r[L4_BASE..|request|])
    ensures Agree(old(r[..]), r[..], 0, L4_BASE) && Agree(old(r[..]), r[..], |request|, r.Length)
  {
    var size := |request| - PAYLOAD;
    ghost var s0 := r[..];
    AnswerPorts(r, request);
    ghost var s1 := r[..];
    var len := ((UDP_SIZE + size) % 0x1_0000) as uint16;
    HostStoreOfSwap16(len);
    Store16(r, L4_BASE + UDP_LEN, ByteSwap16(len));
    ghost var s2 := r[..];
    Store16(r, L4_BASE + UDP_CSUM, 0);
    ghost var s3 := r[..];
    Memcpy(r, PAYLOAD, request[PAYLOAD..]);
    ghost var s4 := r[..];
    Chain(s1, s2, s3, 0, L4_BASE + UDP_LEN);
    Chain(s1, s3, s4, 0, L4_BASE + UDP_LEN);
    Keep(s1, s4, 0, L4_BASE + UDP_LEN, L4_BASE + UDP_SPORT, L4_BASE + UDP_DPORT);
    Keep(s1, s4, 0, L4_BASE + UDP_LEN, L4_BASE + UDP_DPORT, L4_BASE + UDP_LEN);
    Keep(s3, s4, 0, PAYLOAD, L4_BASE + UDP_CSUM, PAYLOAD);
    PortsOf(request, s4, |request|);
    Keep(s2, s4, 0, L4_BASE + UDP_CSUM, L4_BASE + UDP_LEN, L4_BASE + UDP_CSUM);
    SliceOfSlice(s4, L4_BASE, |request|, UDP_LEN, UDP_CSUM);
    NetLoadOfBytes(s4[L4_BASE..|request|], UDP_LEN, len);
    SliceOfSlice(s4, L4_BASE, |request|, UDP_SIZE, |request| - L4_BASE);
    SliceOfSuffix(request, L4_BASE, UDP_SIZE, UDP_SIZE);
    assert request[PAYLOAD..] == request[PAYLOAD..|request|];
    assert s4[L4_BASE..|request|][UDP_SIZE..] == s4[L4_BASE..|request|][UDP_SIZE..|request| - L4_BASE];
    Chain(s0, s1, s2, 0, L4_BASE);
    Chain(s0, s2, s3, 0, L4_BASE);
    Chain(s0, s3, s4, 0, L4_BASE);
    Chain(s0, s1, s2, |request|, r.Length);
    Chain(s0, s2, s3, |request|, r.Length);
    Chain(s0, s3, s4, |request|, r.Length);
  }

  /** The port 37 branch of `do_UDP`: ports exchanged, zero checksum, the
      clock's seconds as a `u_int32_t` copied into the payload, UDP length
      `byteswap16(8 + 4)`. */
  method AnswerUdpTime(r: array<uint8>, request: seq<uint8>, now: nat)
    requires r.Length >= PAYLOAD + 4 && |request| >= PAYLOAD
    modifies r
    ensures TimeDatagram(request[L4_BASE..], now, r[L4_BASE..PAYLOAD + 4])
    ensures Agree(old(r[..]), r[..], 0, L4_BASE) && Agree(old(r[..]), r[..], PAYLOAD + 4, r.Length)
  {
    ghost var s0 := r[..];
    AnswerPorts(r, request);
    ghost var s1 := r[..];
    Store16(r, L4_BASE + UDP_CSUM, 0);
    ghost var s2 := r[..];
    var seconds := (now % 0x1_0000_0000) as uint32;
    Memcpy(r, PAYLOAD, HostBytes32(seconds));
    ghost var s3 := r[..];
    HostStoreOfSwap16(12);
    Store16(r, L4_BASE + UDP_LEN, ByteSwap16(UDP_SIZE as uint16 + 4));
    ghost var s4 := r[..];
    Chain(s1, s2, s3, 0, L4_BASE + UDP_LEN);
    Chain(s1, s3, s4, 0, L4_BASE + UDP_LEN);
    Keep(s1, s4, 0, L4_BASE + UDP_LEN, L4_BASE + UDP_SPORT, L4_BASE + UDP_DPORT);
    Keep(s1, s4, 0, L4_BASE + UDP_LEN, L4_BASE + UDP_DPORT, L4_BASE + UDP_LEN);
    Keep(s2, s3, 0, PAYLOAD, L4_BASE + UDP_CSUM, PAYLOAD);
    Keep(s3, s4, L4_BASE + UDP_CSUM, r.Length, L4_BASE + UDP_CSUM, PAYLOAD);
    Keep(s3, s4, L4_BASE + UDP_CSUM, r.Length, PAYLOAD, PAYLOAD + 4);
    PortsOf(request, s4, PAYLOAD + 4);
    SliceOfSlice(s4, L4_BASE, PAYLOAD + 4, UDP_LEN, UDP_CSUM);
    NetLoadOfBytes(s4[L4_BASE..PAYLOAD + 4], UDP_LEN, 12);
    SliceOfSlice(s4, L4_BASE, PAYLOAD + 4, UDP_SIZE, UDP_SIZE + 4);
    assert s4[L4_BASE..PAYLOAD + 4][UDP_SIZE..] == s4[L4_BASE..PAYLOAD + 4][UDP_SIZE..UDP_SIZE + 4];
    Chain(s0, s1, s2, 0, L4_BASE);
    Chain(s0, s2, s3, 0, L4_BASE);
    Chain(s0, s3, s4, 0, L4_BASE);
    Chain(s0, s1, s2, PAYLOAD + 4, r.Length);
    Chain(s0, s2, s3, PAYLOAD + 4, r.Length);
    Chain(s0, s3, s4, PAYLOAD + 4, r.Length);
  }

  /** `do_UDP`'s header assignments: those shared with `do_ICMP`, then the
      protocol set to UDP. */
  method AnswerUdpHeaders(r: array<uint8>, request: seq<uint8>, totalLength: nat)
    requires r.Length >= L4_BASE && |request| >= L4_BASE
    modifies r
    ensures SwapsEthernet(request, r[..]) && IPv4Fields(request, r[..], totalLength, PROTO_UDP)
    ensures r[IP_BASE + IP_CSUM..IP_BASE + IP_SRC] == [0, 0]
    ensures Agree(old(r[..]), r[..], L4_BASE, r.Length)
  {
    ghost var s0 := r[..];
    AnswerHeaders(r, request, totalLength);
    ghost var s1 := r[..];
    Store8(r, IP_BASE + IP_PROTO, PROTO_UDP);
    ghost var s2 := r[..];
    assert s2[IP_BASE + IP_LEN] == s1[IP_BASE + IP_LEN] && s2[IP_BASE + IP_LEN + 1] == s1[IP_BASE + IP_LEN + 1];
    Narrow(s1, s2, 0, IP_BASE + IP_PROTO, 0, IP_BASE + IP_LEN);
    Narrow(s1, s2, 0, IP_BASE + IP_PROTO, IP_BASE + IP_FRAG_IDENT, IP_BASE + IP_PROTO);
    Reanswered(request, s1, s2, totalLength, request[IP_BASE + IP_PROTO], totalLength, PROTO_UDP);
    Narrow(s1, s2, IP_BASE + IP_CSUM, r.Length, L4_BASE, r.Length);
    Chain(s0, s1, s2, L4_BASE, r.Length);
  }

  /** Unsealed headers survive writes that leave the first `L4_BASE` bytes alone. */
  lemma {:induction false} UnsealedKept(request: seq<uint8>, a: seq<uint8>, b: seq<uint8>, len: nat, proto: uint8)
    requires |request| >= L4_BASE && |a| >= L4_BASE && |b| >= L4_BASE
    requires SwapsEthernet(request, a) && IPv4Fields(request, a, len, proto)
    requires a[IP_BASE + IP_CSUM..IP_BASE + IP_SRC] == [0, 0]
    requires Agree(a, b, 0, L4_BASE)
    ensures SwapsEthernet(request, b) && IPv4Fields(request, b, len, proto)
    ensures b[IP_BASE + IP_CSUM..IP_BASE + IP_SRC] == [0, 0]
  {
    Narrow(a, b, 0, L4_BASE, 0, IP_BASE + IP_CSUM);
    Narrow(a, b, 0, L4_BASE, IP_BASE + IP_SRC, L4_BASE);
    SealKeeps(request, a, b, len, proto);
    Keep(a, b, 0, L4_BASE, IP_BASE + IP_CSUM, IP_BASE + IP_SRC);
  }

  /** Sealing the headers of `a` gives `b`; the frame sent is the first `n`
      bytes of `b`, whose message is that of `a`. */
  lemma {:induction false} Assembled(request: seq<uint8>, a: seq<uint8>, b: seq<uint8>, n: nat, proto: uint8)
    requires |request| >= L4_BASE && L4_BASE <= n <= |a| == |b|
    requires SwapsEthernet(request, a) && IPv4Fields(request, a, n - IP_BASE, proto)
    requires Agree(a, b, 0, IP_BASE + IP_CSUM) && Agree(a, b, IP_BASE + IP_SRC, |b|)
    requires Sealed(b[IP_BASE..L4_BASE], IP_CSUM)
    ensures RepliesTo(request, b[..n], proto)
    ensures b[..n][L4_BASE..] == a[L4_BASE..n]
  {
    Narrow(a, b, IP_BASE + IP_SRC, |b|, IP_BASE + IP_SRC, L4_BASE);
    SealKeeps(request, a, b, n - IP_BASE, proto);
    var reply := b[..n];
    assert Agree(b, reply, 0, n);
    Narrow(b, reply, 0, n, 0, IP_BASE + IP_CSUM);
    Narrow(b, reply, 0, n, IP_BASE + IP_SRC, L4_BASE);
    SealKeeps(request, b, reply, n - IP_BASE, proto);
    Keep(b, reply, 0, n, IP_BASE, L4_BASE);
    Narrow(a, b, IP_BASE + IP_SRC, |b|, L4_BASE, n);
    Keep(a, b, L4_BASE, n, L4_BASE, n);
    assert reply[L4_BASE..] == b[L4_BASE..n];
  }

  /** The port 7 branch of `do_UDP` and the IPv4 checksum, on a buffer
      whose headers are answered but not sealed; the frame sent is the
      first `|request|` bytes. */
  method FinishUdpEcho(r: array<uint8>, request: seq<uint8>) returns (reply: seq<uint8>)
    requires r.Length >= |request| >= PAYLOAD
    requires SwapsEthernet(request, r[..]) && IPv4Fields(request, r[..], |request| - IP_BASE, PROTO_UDP)
    requires r[IP_BASE + IP_CSUM..IP_BASE + IP_SRC] == [0, 0]
    modifies r
    ensures UdpEchoReply(request, reply)
  {
    ghost var s0 := r[..];
    AnswerUdpEcho(r, request);
    ghost var s1 := r[..];
    UnsealedKept(request, s0, s1, |request| - IP_BASE, PROTO_UDP);
    StoreChecksum(r, IP_BASE, IP_BASE + IP_CSUM, L4_BASE);
    ghost var s2 := r[..];
    Assembled(request, s1, s2, |request|, PROTO_UDP);
    reply := r[..|request|];
  }

  /** The port 37 branch of `do_UDP` and the IPv4 checksum: the time payload,
      the lengths rewritten for a 4-byte payload, and the frame sent is the
      first 46 bytes. */
  method FinishUdpTime(r: array<uint8>, request: seq<uint8>, now: nat) returns (reply: seq<uint8>)
    requires r.Length >= PAYLOAD + 4 && |request| >= PAYLOAD
    requires SwapsEthernet(request, r[..]) && IPv4Fields(request, r[..], |request| - IP_BASE, PROTO_UDP)
    requires r[IP_BASE + IP_CSUM..IP_BASE + IP_SRC] == [0, 0]
    modifies r
    ensures UdpTimeReply(request, now, reply)
  {
    var len: uint16 := (IPV4_SIZE + UDP_SIZE + 4) as uint16;
    ghost var s0 := r[..];
    AnswerUdpTime(r, request, now);
    ghost var s1 := r[..];
    UnsealedKept(request, s0, s1, |request| - IP_BASE, PROTO_UDP);
    HostStoreOfSwap16(len);
    Store16(r, IP_BASE + IP_LEN, ByteSwap16(len));
    ghost var s2 := r[..];
    NetLoadOfBytes(s2, IP_BASE + IP_LEN, len);
    Reanswered(request, s1, s2, |request| - IP_BASE, PROTO_UDP, len as nat, PROTO_UDP);
    StoreChecksum(r, IP_BASE, IP_BASE + IP_CSUM, L4_BASE);
    ghost var s3 := r[..];
    Keep(s1, s2, IP_BASE + IP_FRAG_IDENT, r.Length, L4_BASE, PAYLOAD + 4);
    Assembled(request, s2, s3, PAYLOAD + 4, PROTO_UDP);
    reply := r[..PAYLOAD + 4];
  }

  /** `do_UDP` followed by the frame `build_and_send_UDP` writes: an echo of
      the datagram for destination port 7, the time for port 37, and no
      reply for any other port. */
  method DoUdp(request: seq<uint8>, now: nat) returns (reply: Option<seq<uint8>>)
    requires |request| >= PAYLOAD
    ensures NetLoad16(request, L4_BASE + UDP_DPORT) == UDP_ECHO_PORT ==>
      reply.Some? && UdpEchoReply(request, reply.value)
    ensures NetLoad16(request, L4_BASE + UDP_DPORT) == UDP_TIME_PORT ==>
      reply.Some? && UdpTimeReply(request, now, reply.value)
    ensures reply.None? <==>
      NetLoad16(request, L4_BASE + UDP_DPORT) !in {UDP_ECHO_PORT, UDP_TIME_PORT}
  {
    var r := new uint8[|request| + 4];
    Memcpy(r, PAYLOAD, request[PAYLOAD..]);
    AnswerUdpHeaders(r, request, |request| - IP_BASE);
    ghost var s1 := r[..];
    Memcpy(r, L4_BASE, request[L4_BASE..PAYLOAD]);
    ghost var s2 := r[..];
    UnsealedKept(request, s1, s2, |request| - IP_BASE, PROTO_UDP);
    var port := NetLoad16(request, L4_BASE + UDP_DPORT);
    if port == UDP_ECHO_PORT {
      var frame := FinishUdpEcho(r, request);
      reply := Some(frame);
    } else if port == UDP_TIME_PORT {
      var frame := FinishUdpTime(r, request, now);
      reply := Some(frame);
    } else {
      reply := None;
    }
  }

  /** The time reply carries the clock's seconds, truncated to 32 bits, where
      a host-order `u_int32_t` read of the payload finds them, and its UDP and
      IPv4 lengths are 12 and 32. */
  lemma {:induction false} TimeReadsBack(request: seq<uint8>, now: nat, reply: seq<uint8>)
    requires |request| >= PAYLOAD && UdpTimeReply(request, now, reply)
    ensures HostLoad32(reply, PAYLOAD) as int == now % 0x1_0000_0000
    ensures NetLoad16(reply, L4_BASE + UDP_LEN) == UDP_SIZE as uint16 + 4
    ensures NetLoad16(reply, IP_BASE + IP_LEN) == (IPV4_SIZE + UDP_SIZE + 4) as uint16
  {
    var dgram := reply[L4_BASE..];
    SliceOfSuffix(reply, L4_BASE, UDP_SIZE, |dgram|);
    assert reply[PAYLOAD..PAYLOAD + 4] == dgram[UDP_SIZE..];
    HostBytesInjective32(HostLoad32(reply, PAYLOAD), (now % 0x1_0000_0000) as uint32);
    SliceOfSuffix(reply, L4_BASE, UDP_LEN, UDP_LEN + 2);
    assert reply[L4_BASE + UDP_LEN] == dgram[UDP_LEN] && reply[L4_BASE + UDP_LEN + 1] == dgram[UDP_LEN + 1];
  }
}
