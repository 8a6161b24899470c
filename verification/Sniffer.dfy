/** The frame callback of src/capture/pcap_sniffer.hpp. */
module Sniffer {
  import opened Common
  import opened Ipv4Text

  const ETHER_HEADER := 14
  const IP_HEADER := 20
  const TCP_HEADER := 20
  const ETHERTYPE_IP := 0x0800
  const IPPROTO_TCP := 6

  datatype Delivered = Delivered(srcIp: string, dstPort: Port, payload: Bytes)

  /** ntohs of the two bytes at `at` */
  function Word(frame: Bytes, at: nat): Port
    requires at + 2 <= |frame|
  {
    frame[at] as int * 256 + frame[at + 1] as int
  }

  /** An IPv4 frame with a full first IP header, as both the sniffer and the XDP program test it. */
  predicate CompleteIpv4(frame: Bytes)
  {
    |frame| >= ETHER_HEADER + IP_HEADER && Word(frame, 12) == ETHERTYPE_IP
  }

  function SourceOf(frame: Bytes): Addr
    requires CompleteIpv4(frame)
  {
    frame[26..30]
  }

  /** What reaches the callback, if anything: `frame` is the captured part of a frame. */
  function Sniff(frame: Bytes): Option<Delivered>
  {
    if |frame| < ETHER_HEADER + IP_HEADER then None
    else if Word(frame, 12) != ETHERTYPE_IP then None
    else if frame[ETHER_HEADER + 9] != IPPROTO_TCP then None
    else
      var ipLen := frame[ETHER_HEADER] % 16 * 4;
      if |frame| < ETHER_HEADER + ipLen + TCP_HEADER then None
      else Some(Delivered(Print(frame[26..30]), Word(frame, ETHER_HEADER + ipLen + 2), frame))
  }

  /** The test over the bytes: 34 of them, and EtherType 0x0800; the source address is bytes 26 to 29. */
  lemma CompleteExactly(frame: Bytes)
    ensures CompleteIpv4(frame) <==> |frame| >= 34 && frame[12] == 8 && frame[13] == 0
    ensures CompleteIpv4(frame) ==> SourceOf(frame) == frame[26..30]
  {
  }

  /** What is delivered, over the bytes: a TCP frame with room for its IP header, however short that claims to
      be, and 20 bytes more; the port is the third and fourth of those. */
  lemma SniffExactly(frame: Bytes)
    ensures Sniff(frame).Some? <==>
            && |frame| >= 34 && frame[12] == 8 && frame[13] == 0 && frame[23] == 6
            && |frame| >= 34 + frame[14] % 16 * 4
    ensures Sniff(frame).Some? ==>
              var at := 14 + frame[14] % 16 * 4;
              var port := frame[at + 2] as int * 256 + frame[at + 3] as int;
              Sniff(frame) == Some(Delivered(Print(frame[26..30]), port, frame))
  {
  }

  /** Every delivered frame is one the XDP program inspects too, under the same source address. */
  lemma DeliveredIsCompleteIpv4(frame: Bytes)
    requires Sniff(frame).Some?
    ensures CompleteIpv4(frame) && |frame| >= 34
    ensures Sniff(frame).value.payload == frame
    ensures Parse(Sniff(frame).value.srcIp) == Some(SourceOf(frame))
  {
    RoundTrip(SourceOf(frame));
  }

  /** The parts of a TCP/IPv4 frame, with any number of option words in its IP header. */
  datatype TcpFrame = TcpFrame(
    macs: Bytes, version: nat, beforeProtocol: Bytes, checksum: Bytes, src: Addr, dst: Addr,
    options: Bytes, srcPort: Bytes, dstPort: Port, rest: Bytes)

  predicate WellFormed(s: TcpFrame)
  {
    && |s.macs| == 12 && s.version < 16 && |s.beforeProtocol| == 8 && |s.checksum| == 2
    && |s.options| % 4 == 0 && |s.options| <= 40 && |s.srcPort| == 2 && |s.rest| >= 16
  }

  /** Everything before the source address: EtherType IPv4, version and header length, protocol TCP. */
  function Head(s: TcpFrame): Bytes
    requires WellFormed(s)
  {
    s.macs + [8, 0, s.version * 16 + 5 + |s.options| / 4] + s.beforeProtocol + [6] + s.checksum
  }

  function Tail(s: TcpFrame): Bytes
  {
    [s.dstPort / 256, s.dstPort % 256] + s.rest
  }

  function Serialise(s: TcpFrame): Bytes
    requires WellFormed(s)
  {
    Head(s) + s.src + (s.dst + s.options + s.srcPort) + Tail(s)
  }

  lemma HeadFields(s: TcpFrame)
    requires WellFormed(s)
    ensures |Head(s)| == 26
    ensures Head(s)[12] == 8 && Head(s)[13] == 0 && Head(s)[23] == 6
    ensures Head(s)[14] % 16 * 4 == 20 + |s.options|
  {
    var words := 5 + |s.options| / 4;
    assert (s.version * 16 + words) % 16 == words;
  }

  lemma SerialisedFields(s: TcpFrame)
    requires WellFormed(s)
    ensures var f := Serialise(s);
            && |f| == 36 + |s.options| + |Tail(s)| && f[..26] == Head(s) && f[26..30] == s.src
            && f[36 + |s.options|..] == Tail(s)
  {
    HeadFields(s);
  }

  /** Every well-formed TCP/IPv4 frame is delivered whole, under its own source address and destination port. */
  lemma SerialisedIsDelivered(s: TcpFrame)
    requires WellFormed(s)
    ensures Sniff(Serialise(s)) == Some(Delivered(Print(s.src), s.dstPort, Serialise(s)))
  {
    HeadFields(s);
    SerialisedFields(s);
    var f, at := Serialise(s), 36 + |s.options|;
    assert f[12] == f[..26][12] && f[13] == f[..26][13] && f[14] == f[..26][14] && f[23] == f[..26][23];
    assert f[at] == f[at..][0] == s.dstPort / 256;
    assert f[at + 1] == f[at..][1] == s.dstPort % 256;
  }

  /** The parts of a delivered frame whose header length is at least the legal five words. */
  function Disassemble(frame: Bytes): TcpFrame
    requires Sniff(frame).Some? && frame[ETHER_HEADER] % 16 >= 5
  {
    var at := ETHER_HEADER + frame[ETHER_HEADER] % 16 * 4;
    TcpFrame(frame[..12], frame[14] / 16, frame[15..23], frame[24..26], frame[26..30], frame[30..34],
             frame[34..at], frame[at..at + 2], Word(frame, at + 2), frame[at + 4..])
  }

  lemma SliceJoin(frame: Bytes, lo: nat, mid: nat, hi: nat)
    requires lo <= mid <= hi <= |frame|
    ensures frame[lo..mid] + frame[mid..hi] == frame[lo..hi]
  {
  }

  lemma JoinParts(frame: Bytes, at: nat)
    requires 34 <= at && at + 2 <= |frame|
    ensures frame[..26] + frame[26..30] + (frame[30..34] + frame[34..at] + frame[at..at + 2]) + frame[at + 2..] ==
            frame
  {
    SliceJoin(frame, 30, 34, at);
    SliceJoin(frame, 30, at, at + 2);
    SliceJoin(frame, 0, 26, 30);
    SliceJoin(frame, 0, 30, at + 2);
    SliceJoin(frame, 0, at + 2, |frame|);
  }

  lemma HeadIsPrefix(frame: Bytes)
    requires Sniff(frame).Some? && frame[ETHER_HEADER] % 16 >= 5
    ensures WellFormed(Disassemble(frame)) && Head(Disassemble(frame)) == frame[..26]
  {
    assert frame[12] == 8 && frame[13] == 0;
    assert frame[14] == frame[14] / 16 * 16 + frame[14] % 16;
  }

  lemma TailIsSuffix(frame: Bytes)
    requires Sniff(frame).Some? && frame[ETHER_HEADER] % 16 >= 5
    ensures Tail(Disassemble(frame)) == frame[ETHER_HEADER + frame[ETHER_HEADER] % 16 * 4 + 2..]
  {
  }

  lemma DisassembledSerialises(frame: Bytes)
    requires Sniff(frame).Some? && frame[ETHER_HEADER] % 16 >= 5
    ensures WellFormed(Disassemble(frame)) && Serialise(Disassemble(frame)) == frame
  {
    HeadIsPrefix(frame);
    TailIsSuffix(frame);
    JoinParts(frame, ETHER_HEADER + frame[ETHER_HEADER] % 16 * 4);
  }

  /** Delivered with a legal header length means exactly: some well-formed TCP/IPv4 frame. */
  lemma DeliveredExactly(frame: Bytes)
    ensures Sniff(frame).Some? && frame[14] % 16 >= 5 <==>
            exists s: TcpFrame :: WellFormed(s) && Serialise(s) == frame
  {
    if Sniff(frame).Some? && frame[ETHER_HEADER] % 16 >= 5 {
      DisassembledSerialises(frame);
    }
    forall s: TcpFrame | WellFormed(s) && Serialise(s) == frame
      ensures Sniff(frame).Some? && frame[ETHER_HEADER] % 16 >= 5
    {
      SerialisedIsDelivered(s);
      HeadFields(s);
      SerialisedFields(s);
      assert frame[14] == frame[..26][14];
    }
  }

  function Zeros(n: nat): (zeros: Bytes)
    ensures |zeros| == n
  {
    seq(n, _ => 0)
  }

  /** The shortest such frame: nothing but headers. */
  function BareSegment(src: Addr, dstPort: Port): (frame: Bytes)
    ensures |frame| == 54
  {
    Serialise(TcpFrame(Zeros(12), 4, Zeros(8), Zeros(2), src, [0, 0, 0, 0], [], Zeros(2), dstPort, Zeros(16)))
  }

  lemma BareSegmentIsDelivered(src: Addr, dstPort: Port)
    ensures Sniff(BareSegment(src, dstPort)) == Some(Delivered(Print(src), dstPort, BareSegment(src, dstPort)))
  {
    SerialisedIsDelivered(
      TcpFrame(Zeros(12), 4, Zeros(8), Zeros(2), src, [0, 0, 0, 0], [], Zeros(2), dstPort, Zeros(16)));
  }
}
