/**
 * `main` of twig.cc: the capture file opened for reading and appending, the
 * global-header check, then the record loop. Each record read is dispatched
 * on the link type, the ether-type and the IP protocol; every IPv4 frame
 * updates the address cache, ICMP frames go to `do_ICMP` and UDP frames to
 * `do_UDP`, and a reply is appended to the same file as a new record.
 *
 * The file is a byte sequence and the descriptor's position an index into
 * it. The file is opened with `O_APPEND`, so every write goes to the end of
 * the file and leaves the position there. The clocks (`time`,
 * `std::chrono::system_clock`, `gettimeofday`) are one reading `now`, given
 * to each pass; the bytes of the reply buffer a pass allocates are `heap`,
 * also one per pass.
 */
module Twig {
  import opened Bytes
  import opened Layout
  import opened Wrappers
  import opened Capture
  import opened AddressCache
  import opened Responders

  const LINKTYPE_ETHERNET: uint32 := 1
  const ETHERTYPE_IPV4: uint16 := 0x0800
  const PROTO_ICMP: uint8 := 1

  /** The payload array of `ICMP_packet` and `UDP_packet`. */
  const PAYLOAD_CAPACITY: nat := 65535

  // ---------------------------------------------------------------------
  // Dispatch

  /** Where an IPv4 frame goes after the address cache. `Overrun` is a
      frame for a responder whose payload size `caplen - 42`, computed from
      the record header's `caplen`, does not fit the request struct:
      negative (it wraps around as a `size_t`) or over the payload array. */
  datatype Service = NoService | ToIcmp | ToUdp | Overrun

  /** What `main` makes of a record's data. `Indeterminate` is a record the
      program reads beyond: data too short for the Ethernet type, or for the
      IPv4 protocol and source address of an IPv4 frame, whose missing bytes
      are whatever an earlier record left in the buffer. */
  datatype Frame =
    | NotEthernet
    | OtherEtherType(etherType: uint16)
    | IPv4Frame(mac: seq<uint8>, ip: seq<uint8>, service: Service)
    | Indeterminate

  /** The size checks a responder's request of `caplen` bytes must pass. */
  predicate FitsRequest(caplen: int)
  {
    PAYLOAD <= caplen <= PAYLOAD + PAYLOAD_CAPACITY
  }

  /** The `linktype == 1` test, the switch on `byteswap16(eh->type)` and the
      tests of `ip_head->type`, on the `data` read for a record whose header
      declares `caplen` bytes. */
  function Classify(linktype: uint32, caplen: int, data: seq<uint8>): (r: Frame)
    ensures r.NotEthernet? <==> linktype != LINKTYPE_ETHERNET
    ensures r.OtherEtherType? <==>
      && linktype == LINKTYPE_ETHERNET && |data| >= IP_BASE
      && NetLoad16(data, ETH_TYPE) != ETHERTYPE_IPV4
    ensures r.OtherEtherType? ==> r.etherType == NetLoad16(data, ETH_TYPE)
    ensures r.IPv4Frame? <==>
      && linktype == LINKTYPE_ETHERNET && |data| >= IP_BASE + IP_DEST
      && NetLoad16(data, ETH_TYPE) == ETHERTYPE_IPV4
    ensures r.IPv4Frame? ==>
      && r.mac == data[ETH_SRC..ETH_TYPE] && r.ip == data[IP_BASE + IP_SRC..IP_BASE + IP_DEST]
      && (r.service.ToIcmp? <==> data[IP_BASE + IP_PROTO] == PROTO_ICMP && FitsRequest(caplen))
      && (r.service.ToUdp? <==> data[IP_BASE + IP_PROTO] == PROTO_UDP && FitsRequest(caplen))
      && (r.service.NoService? <==> data[IP_BASE + IP_PROTO] !in {PROTO_ICMP, PROTO_UDP})
  {
    if linktype != LINKTYPE_ETHERNET then NotEthernet
    else if |data| < IP_BASE then Indeterminate
    else if NetLoad16(data, ETH_TYPE) != ETHERTYPE_IPV4 then OtherEtherType(NetLoad16(data, ETH_TYPE))
    else if |data| < IP_BASE + IP_DEST then Indeterminate
    else
      var proto := data[IP_BASE + IP_PROTO];
      var service :=
        if proto != PROTO_ICMP && proto != PROTO_UDP then NoService
        else if !FitsRequest(caplen) then Overrun
        else if proto == PROTO_ICMP then ToIcmp
        else ToUdp;
      IPv4Frame(data[ETH_SRC..ETH_TYPE], data[IP_BASE + IP_SRC..IP_BASE + IP_DEST], service)
  }

  /** Whether a frame gets a defined treatment. */
  predicate Defined(frame: Frame)
  {
    !frame.Indeterminate? && !(frame.IPv4Frame? && frame.service.Overrun?)
  }

  /** The reply the responders produce for a frame: for ICMP always a frame
      (an echo reply for an echo request, otherwise the request's ICMP
      header in an uninitialised buffer), for UDP an echo or the time on
      ports 7 and 37 and nothing on any other port, and nothing for every
      other frame. */
  ghost predicate Answers(frame: Frame, data: seq<uint8>, now: Clock, heap: seq<uint8>, reply: Option<seq<uint8>>)
  {
    match frame
    case IPv4Frame(_, _, ToIcmp) =>
      && PAYLOAD <= |data| <= |heap|
      && reply.Some?
      && if data[L4_BASE + ICMP_TYPE] == ICMP_ECHO_REQUEST then IcmpEchoReply(data, reply.value)
         else reply.value == heap[..L4_BASE] + data[L4_BASE..PAYLOAD] + heap[PAYLOAD..|data|]
    case IPv4Frame(_, _, ToUdp) =>
      && |data| >= PAYLOAD
      && var port := NetLoad16(data, L4_BASE + UDP_DPORT);
      if port == UDP_ECHO_PORT then reply.Some? && UdpEchoReply(data, reply.value)
      else if port == UDP_TIME_PORT then reply.Some? && UdpTimeReply(data, now.secs, reply.value)
      else reply.None?
    case _ => reply.None?
  }

  /** The protocol header length a responder counts in its record header:
      `icmp.length()` for ICMP, `sizeof(udp)` for UDP. */
  function ReplyHeaderLength(service: Service): nat
  {
    if service.ToIcmp? then IcmpLength() else UDP_SIZE
  }

  /** The record `build_and_send_ICMP` and `build_and_send_UDP` write for a
      reply frame: its header, then the frame. */
  function ReplyRecord(now: Clock, protoHeaderLength: nat, reply: seq<uint8>): (raw: seq<uint8>)
    requires ETH_SIZE + IPV4_SIZE + protoHeaderLength <= |reply| <= PACKET_BUFFER_SIZE
    ensures |raw| == RECORD_HEADER_SIZE + |reply|
  {
    var size := |reply| - (ETH_SIZE + IPV4_SIZE + protoHeaderLength);
    EncodeRecordHeader(ReplyRecordHeader(now, protoHeaderLength, size)) + reply
  }

  /** A record handled with a defined outcome: the outcome names its frame
      and the responders' reply, the cache observes the frame's addresses
      when it is an IPv4 frame, and the file grows by the reply record when
      there is a reply and not at all otherwise. */
  ghost predicate Effect(frame: Frame, data: seq<uint8>, now: Clock, heap: seq<uint8>, outcome: Outcome,
                         file0: seq<uint8>, file1: seq<uint8>, cache0: seq<Entry>, cache1: seq<Entry>)
  {
    && outcome.Handled? && outcome.frame == frame
    && Answers(frame, data, now, heap, outcome.reply)
    && cache1 == (if frame.IPv4Frame? then Observe(cache0, frame.mac, frame.ip, now.secs) else cache0)
    && (outcome.reply.None? ==> file1 == file0)
    && (outcome.reply.Some? ==>
          && frame.IPv4Frame? && PAYLOAD <= |outcome.reply.value| <= PACKET_BUFFER_SIZE
          && file1 == file0 + ReplyRecord(now, ReplyHeaderLength(frame.service), outcome.reply.value))
  }

  /** The state one pass of the record loop changes: the file, the read
      position and the live address-cache entries. */
  datatype State = State(file: seq<uint8>, offset: nat, cache: seq<Entry>)

  /** One pass of the record loop from state `s0` to `s1` in a stream with
      the given swap mode and link type: the read step decides the outcome;
      every read moves the position past the bytes it returned; only a
      record with a defined frame can change the cache and the file. */
  ghost predicate StepSpec(byteswap: bool, linktype: uint32, s0: State, now: Clock, heap: seq<uint8>,
                           outcome: Outcome, s1: State)
  {
    && s0.offset <= |s0.file|
    && StepFrom(linktype, NextRecord(s0.file[s0.offset..], byteswap), s0, now, heap, outcome, s1)
  }

  /** One pass of the record loop once its read step is known. */
  ghost predicate StepFrom(linktype: uint32, step: ReadStep, s0: State, now: Clock, heap: seq<uint8>,
                           outcome: Outcome, s1: State)
  {
    var read := s0.(offset := s0.offset + Consumed(step));
    match step
    case Retry => outcome == Wait && s1 == s0
    case ShortHeader(_) => outcome == Stop && s1 == read
    case BufferOverrun(_, _) => outcome == Undefined && s1 == read
    case ShortPacket(_, got) => outcome == Fail(TruncatedPacket(got)) && s1 == read
    case Record(h, data) => Handles(linktype, h.caplen, data, now, heap, outcome, read, s1)
  }

  /** The dispatch of a record's `data`, read for a header declaring
      `caplen` bytes, from state `s0` (the position already past the
      record) to `s1`. */
  ghost predicate Handles(linktype: uint32, caplen: uint32, data: seq<uint8>, now: Clock, heap: seq<uint8>,
                          outcome: Outcome, s0: State, s1: State)
  {
    var frame := Classify(linktype, caplen as int, data);
    if !Defined(frame) then outcome == Undefined && s1 == s0
    else
      && Effect(frame, data, now, heap, outcome, s0.file, s1.file, s0.cache, s1.cache)
      && s1.offset == if outcome.reply.None? then s0.offset else |s1.file|
  }

  /** The passes of a run so far: `states` are the states before and after
      each pass, and each pass goes from one to the next as `StepSpec` says,
      with its own clock reading and reply-buffer contents. */
  ghost predicate Trace(byteswap: bool, linktype: uint32, clocks: seq<Clock>, heaps: seq<seq<uint8>>,
                        outcomes: seq<Outcome>, states: seq<State>)
  {
    && |outcomes| <= |clocks| && |outcomes| <= |heaps| && |states| == |outcomes| + 1
    && forall i :: 0 <= i < |outcomes| ==> StepAt(byteswap, linktype, clocks, heaps, outcomes, states, i)
  }

  /** Pass `i` of a run, as `StepSpec` says. */
  ghost predicate StepAt(byteswap: bool, linktype: uint32, clocks: seq<Clock>, heaps: seq<seq<uint8>>,
                         outcomes: seq<Outcome>, states: seq<State>, i: int)
  {
    && 0 <= i < |outcomes| && i < |clocks| && i < |heaps| && i + 1 < |states|
    && StepSpec(byteswap, linktype, states[i], clocks[i], heaps[i], outcomes[i], states[i + 1])
  }

  /** A whole run of the record loop: its passes, every one but the last
      going round again, and a last one that ends the loop unless the clock
      readings ran out first. */
  ghost predicate RunSpec(byteswap: bool, linktype: uint32, clocks: seq<Clock>, heaps: seq<seq<uint8>>,
                          outcomes: seq<Outcome>, states: seq<State>)
  {
    && Trace(byteswap, linktype, clocks, heaps, outcomes, states)
    && (forall i :: 0 <= i < |outcomes| - 1 ==> Continues(outcomes[i]))
    && (|outcomes| < |clocks| ==> |outcomes| > 0 && !Continues(outcomes[|outcomes| - 1]))
  }

  /** A trace grows by one more pass from its last state. */
  lemma {:induction false} TraceExtend(byteswap: bool, linktype: uint32, clocks: seq<Clock>, heaps: seq<seq<uint8>>,
                                       outcomes: seq<Outcome>, states: seq<State>, outcome: Outcome, s: State)
    requires Trace(byteswap, linktype, clocks, heaps, outcomes, states)
    requires |outcomes| < |clocks| && |outcomes| < |heaps|
    requires StepSpec(byteswap, linktype, states[|outcomes|], clocks[|outcomes|], heaps[|outcomes|], outcome, s)
    ensures Trace(byteswap, linktype, clocks, heaps, outcomes + [outcome], states + [s])
  {
    var outcomes', states' := outcomes + [outcome], states + [s];
    forall i | 0 <= i < |outcomes'|
      ensures StepAt(byteswap, linktype, clocks, heaps, outcomes', states', i)
    {
      assert states'[i] == states[i] && outcomes'[i] == if i < |outcomes| then outcomes[i] else outcome;
      assert states'[i + 1] == if i < |outcomes| then states[i + 1] else s;
      if i < |outcomes| {
        assert StepAt(byteswap, linktype, clocks, heaps, outcomes, states, i);
      }
    }
  }

  // ---------------------------------------------------------------------
  // The program

  /** The outcome of one pass of the record loop. */
  datatype Outcome =
    | Wait                                               // nothing to read: sleep and retry
    | Stop                                               // a short record header: the loop ends
    | Fail(error: Fatal)                                 // the program exits with status 1
    | Handled(frame: Frame, reply: Option<seq<uint8>>)   // a record dispatched, maybe answered
    | Undefined                                          // a record the program reads or writes beyond

  class Program {
    var file: seq<uint8>
    var offset: nat
    var byteswap: bool
    var linktype: uint32
    const cache: ArpCache

    ghost predicate Valid()
      reads this, cache, cache.entries
    {
      offset <= |file| && cache.Valid()
    }

    /** The state a pass of the record loop changes. */
    ghost function Snapshot(): State
      reads this, cache, cache.entries
      requires Valid()
    {
      State(file, offset, cache.Contents())
    }

    /** `open(filename, O_RDWR | O_APPEND)` of a file holding `contents`,
        and the empty address cache. */
    constructor (contents: seq<uint8>)
      ensures Valid() && file == contents && offset == 0 && !byteswap
      ensures fresh(cache) && fresh(cache.entries) && cache.Contents() == []
    {
      file := contents;
      offset := 0;
      byteswap := false;
      linktype := 0;
      cache := new ArpCache();
    }

    /** The bytes a `read` of `n` bytes returns. */
    function Available(n: nat): (s: seq<uint8>)
      reads this
      requires offset <= |file|
      ensures |s| == if |file| - offset < n then |file| - offset else n
      ensures s == file[offset..offset + |s|]
    {
      if |file| - offset < n then file[offset..] else file[offset..offset + n]
    }

    /** Reading and checking the global header: on success the stream's swap
        mode and link type are set, on failure the fatal error is returned. */
    method ReadFileHeader() returns (error: Option<Fatal>)
      requires Valid()
      modifies this`offset, this`byteswap, this`linktype
      ensures Valid()
      ensures var raw := old(Available(FILE_HEADER_SIZE));
        && offset == old(offset) + |raw|
        && match CheckFileHeader(raw)
           case Ok(accepted) =>
             error.None? && byteswap == accepted.byteswap && linktype == accepted.header.linktype
           case Err(e) =>
             error == Some(e) && byteswap == old(byteswap) && linktype == old(linktype)
    {
      var raw := Available(FILE_HEADER_SIZE);
      offset := offset + |raw|;
      var checked := CheckFileHeader(raw);
      match checked {
        case Ok(accepted) =>
          byteswap := accepted.byteswap;
          linktype := accepted.header.linktype;
          error := None;
        case Err(e) =>
          error := Some(e);
      }
    }

    /** `writev` of a reply record on the `O_APPEND` descriptor. */
    method Send(now: Clock, protoHeaderLength: nat, reply: seq<uint8>)
      requires Valid() && ETH_SIZE + IPV4_SIZE + protoHeaderLength <= |reply| <= PACKET_BUFFER_SIZE
      modifies this`file, this`offset
      ensures Valid()
      ensures file == old(file) + ReplyRecord(now, protoHeaderLength, reply) && offset == |file|
    {
      file := file + ReplyRecord(now, protoHeaderLength, reply);
      offset := |file|;
    }

    /** What happens to the `data` read for a record declaring `caplen`
        bytes, once the truncation test has let it through: the address
        cache sees every IPv4 frame, and a reply, when there is one, is
        appended. */
    method Handle(caplen: uint32, data: seq<uint8>, now: Clock, heap: seq<uint8>) returns (outcome: Outcome)
      requires Valid() && |heap| >= PACKET_BUFFER_SIZE && |data| <= PACKET_BUFFER_SIZE
      requires |data| == caplen as int || caplen as int >= 0x8000_0000
      modifies this`file, this`offset, cache`count, cache.entries
      ensures Valid() && old(file) <= file
      ensures Handles(linktype, caplen, data, now, heap, outcome, old(Snapshot()), Snapshot())
    {
      var frame := Classify(linktype, caplen as int, data);
      if !Defined(frame) {
        return Undefined;
      }
      if frame.IPv4Frame? {
        cache.AddEntry(frame.mac, frame.ip, now.secs);
      }
      var reply := Respond(frame, data, now, heap);
      if reply.Some? {
        Send(now, ReplyHeaderLength(frame.service), reply.value);
      }
      outcome := Handled(frame, reply);
    }

    /** One pass of the record loop. */
    method Step(now: Clock, heap: seq<uint8>) returns (outcome: Outcome)
      requires Valid() && |heap| >= PACKET_BUFFER_SIZE
      modifies this`file, this`offset, cache`count, cache.entries
      ensures Valid() && old(file) <= file
      ensures StepSpec(byteswap, linktype, old(Snapshot()), now, heap, outcome, Snapshot())
    {
      var step := NextRecord(file[offset..], byteswap);
      outcome := Advance(step, now, heap);
    }

    /** The rest of a pass once the read step is known: the position moves
        past the bytes read, and a record's data is handled. */
    method Advance(step: ReadStep, now: Clock, heap: seq<uint8>) returns (outcome: Outcome)
      requires Valid() && |heap| >= PACKET_BUFFER_SIZE && offset + Consumed(step) <= |file|
      requires step.Record? ==>
        && |step.data| <= PACKET_BUFFER_SIZE
        && (|step.data| == step.header.caplen as int || step.header.caplen as int >= 0x8000_0000)
      modifies this`file, this`offset, cache`count, cache.entries
      ensures Valid() && old(file) <= file
      ensures StepFrom(linktype, step, old(Snapshot()), now, heap, outcome, Snapshot())
    {
      offset := offset + Consumed(step);
      match step {
        case Retry =>
          outcome := Wait;
        case ShortHeader(_) =>
          outcome := Stop;
        case BufferOverrun(_, _) =>
          outcome := Undefined;
        case ShortPacket(_, got) =>
          outcome := Fail(TruncatedPacket(got));
        case Record(h, data) =>
          outcome := Handle(h.caplen, data, now, heap);
      }
    }

    /** The record loop, one pass per clock reading and reply buffer, until
        the loop ends, the program exits or the readings run out. */
    method Run(clocks: seq<Clock>, heaps: seq<seq<uint8>>) returns (outcomes: seq<Outcome>, ghost states: seq<State>)
      requires Valid() && |heaps| == |clocks|
      requires forall i :: 0 <= i < |heaps| ==> |heaps[i]| >= PACKET_BUFFER_SIZE
      modifies this`file, this`offset, cache`count, cache.entries
      ensures Valid() && old(file) <= file
      ensures RunSpec(byteswap, linktype, clocks, heaps, outcomes, states)
      ensures states[0] == old(Snapshot()) && states[|outcomes|] == Snapshot()
    {
      outcomes := [];
      states := [Snapshot()];
      var i := 0;
      while i < |clocks|
        invariant Valid() && old(file) <= file && i == |outcomes| <= |clocks|
        invariant Trace(byteswap, linktype, clocks, heaps, outcomes, states)
        invariant states[0] == old(Snapshot()) && states[i] == Snapshot()
        invariant forall k :: 0 <= k < i ==> Continues(outcomes[k])
      {
        ghost var before := file;
        var outcome;
        outcome, states := Pass(clocks, heaps, outcomes, states);
        PrefixTransitive(old(file), before, file);
        outcomes := outcomes + [outcome];
        if !Continues(outcome) {
          return;
        }
        i := i + 1;
      }
    }

    /** The next pass of a run, recorded in its trace. */
    method Pass(clocks: seq<Clock>, heaps: seq<seq<uint8>>, outcomes: seq<Outcome>, ghost states: seq<State>)
      returns (outcome: Outcome, ghost states': seq<State>)
      requires Valid() && Trace(byteswap, linktype, clocks, heaps, outcomes, states)
      requires |outcomes| < |clocks| && |outcomes| < |heaps| && |heaps[|outcomes|]| >= PACKET_BUFFER_SIZE
      requires states[|outcomes|] == Snapshot()
      modifies this`file, this`offset, cache`count, cache.entries
      ensures Valid() && old(file) <= file
      ensures Trace(byteswap, linktype, clocks, heaps, outcomes + [outcome], states')
      ensures states' == states + [Snapshot()]
    {
      outcome := Step(clocks[|outcomes|], heaps[|outcomes|]);
      TraceExtend(byteswap, linktype, clocks, heaps, outcomes, states, outcome, Snapshot());
      states' := states + [Snapshot()];
    }
  }

  /** `main` from the header check on: the record loop runs only when the
      global header is accepted, in that header's swap mode and link type,
      from the first byte after it and with an empty address cache. */
  method Serve(contents: seq<uint8>, clocks: seq<Clock>, heaps: seq<seq<uint8>>)
    returns (error: Option<Fatal>, outcomes: seq<Outcome>, ghost states: seq<State>)
    requires |heaps| == |clocks|
    requires forall i :: 0 <= i < |heaps| ==> |heaps[i]| >= PACKET_BUFFER_SIZE
    ensures var n := if |contents| < FILE_HEADER_SIZE then |contents| else FILE_HEADER_SIZE;
      match CheckFileHeader(contents[..n])
      case Err(e) => error == Some(e) && outcomes == []
      case Ok(accepted) =>
        && error.None?
        && RunSpec(accepted.byteswap, accepted.header.linktype, clocks, heaps, outcomes, states)
        && states[0] == State(contents, n, [])
  {
    ghost var n := if |contents| < FILE_HEADER_SIZE then |contents| else FILE_HEADER_SIZE;
    var program := new Program(contents);
    assert program.Available(FILE_HEADER_SIZE) == contents[..n];
    error := program.ReadFileHeader();
    if error.Some? {
      outcomes, states := [], [];
      return;
    }
    ghost var accepted := CheckFileHeader(contents[..n]).value;
    assert program.byteswap == accepted.byteswap && program.linktype == accepted.header.linktype;
    assert program.Snapshot() == State(contents, n, []);
    outcomes, states := program.Run(clocks, heaps);
  }

  /** `do_ICMP` for ICMP frames, `do_UDP` for UDP frames, and no reply for
      any other frame. */
  method Respond(frame: Frame, data: seq<uint8>, now: Clock, heap: seq<uint8>) returns (reply: Option<seq<uint8>>)
    requires Defined(frame) && |heap| >= PACKET_BUFFER_SIZE
    requires frame.IPv4Frame? && !frame.service.NoService? ==> FitsRequest(|data|)
    ensures Answers(frame, data, now, heap, reply)
    ensures reply.Some? ==> PAYLOAD <= |reply.value| <= PAYLOAD + PAYLOAD_CAPACITY
  {
    match frame {
      case IPv4Frame(_, _, ToIcmp) =>
        var r := DoIcmp(data, heap[..|data|]);
        reply := Some(r);
      case IPv4Frame(_, _, ToUdp) =>
        reply := DoUdp(data, now.secs);
      case _ =>
        reply := None;
    }
  }

  /** The outcomes after which the record loop goes round again. */
  predicate Continues(outcome: Outcome)
  {
    outcome.Wait? || outcome.Handled?
  }

  lemma PrefixTransitive(a: seq<uint8>, b: seq<uint8>, c: seq<uint8>)
    requires a <= b && b <= c
    ensures a <= c
  {
  }

  /** A reply frame, read as a captured frame, is an IPv4 frame sent from the
      request's destination addresses to the same responder; an ICMP echo
      reply is not itself an echo request. */
  lemma {:induction false} RepliesComeFromDestination(request: seq<uint8>, reply: seq<uint8>)
    requires Classify(LINKTYPE_ETHERNET, |request|, request).IPv4Frame?
    requires Classify(LINKTYPE_ETHERNET, |request|, request).service.ToIcmp?
          || Classify(LINKTYPE_ETHERNET, |request|, request).service.ToUdp?
    requires FitsRequest(|reply|) && RepliesTo(request, reply, request[IP_BASE + IP_PROTO])
    ensures Classify(LINKTYPE_ETHERNET, |reply|, reply) ==
      IPv4Frame(request[ETH_DEST..ETH_SRC], request[IP_BASE + IP_DEST..L4_BASE],
                Classify(LINKTYPE_ETHERNET, |request|, request).service)
    ensures IcmpEchoReply(request, reply) ==> reply[L4_BASE + ICMP_TYPE] != ICMP_ECHO_REQUEST
  {
    assert reply[ETH_TYPE] == request[ETH_TYPE] && reply[ETH_TYPE + 1] == request[ETH_TYPE + 1] by {
      assert reply[ETH_TYPE..IP_BASE] == request[ETH_TYPE..IP_BASE];
    }
    if IcmpEchoReply(request, reply) {
      assert reply[L4_BASE..][ICMP_TYPE] == ICMP_ECHO_REPLY;
    }
  }

  /** A reply record reads back as exactly its frame in a stream without
      swap mode. In a swapped stream its host-order header is read with
      every field swapped, so the length a reader takes is the byte-reversed
      frame length. Whenever the frame length's low byte is not 0, that
      length is at least 2^24, beyond both the stack buffer and any frame:
      the record overruns the buffer when more than its size follows, and
      otherwise reads as a truncated packet if the swapped length is below
      2^31, or, once the cast to `int` makes it negative, as a record of the
      frame together with everything after it. */
  lemma {:induction false} ReplyReadBack(now: Clock, protoHeaderLength: nat, reply: seq<uint8>, rest: seq<uint8>)
    requires ETH_SIZE + IPV4_SIZE + protoHeaderLength <= |reply| <= PACKET_BUFFER_SIZE
    ensures NextRecord(ReplyRecord(now, protoHeaderLength, reply) + rest, false)
      == Record(ReplyRecordHeader(now, protoHeaderLength, |reply| - (ETH_SIZE + IPV4_SIZE + protoHeaderLength)), reply)
    ensures NextRecord(ReplyRecord(now, protoHeaderLength, reply) + rest, true).header.caplen
      == ByteSwap32(|reply| as uint32)
    ensures |reply| % 0x100 != 0 ==>
      var r := NextRecord(ReplyRecord(now, protoHeaderLength, reply) + rest, true);
      && (r.BufferOverrun? <==> |reply + rest| > PACKET_BUFFER_SIZE)
      && (r.ShortPacket? <==> |reply + rest| <= PACKET_BUFFER_SIZE && |reply| % 0x100 < 0x80)
      && (r.Record? <==> |reply + rest| <= PACKET_BUFFER_SIZE && |reply| % 0x100 >= 0x80)
      && (r.Record? ==> r.data == reply + rest)
  {
    var h := ReplyRecordHeader(now, protoHeaderLength, |reply| - (ETH_SIZE + IPV4_SIZE + protoHeaderLength));
    ReplyRecordReadsBack(now, protoHeaderLength, reply, rest);
    var avail := ReplyRecord(now, protoHeaderLength, reply) + rest;
    assert avail[..RECORD_HEADER_SIZE] == EncodeRecordHeader(h);
    RecordHeaderRoundTrip(h, true);
    if |reply| % 0x100 != 0 {
      ByteSwap32HighByte(h.caplen);
      var read := RecordHeaderAt(avail[..RECORD_HEADER_SIZE], true);
      assert read.caplen == ByteSwap32(h.caplen);
      assert read.caplen as int >= 0x100_0000;
      assert |avail| - RECORD_HEADER_SIZE == |reply + rest|;
      assert avail[RECORD_HEADER_SIZE..] == reply + rest;
    }
  }
}
