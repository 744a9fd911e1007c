/** net_usp.c: the packet the user-space sender builds. */
module NetUsp {
  import opened OnesComplement
  import opened InternetChecksum
  import opened Headers

  const PAYLOAD_SIZE := 64
  const PACKET_SIZE := ETH_HLEN + IP_HLEN + ICMPV6_HLEN + PAYLOAD_SIZE
  const SENDER_IP: Ipv4 := [192, 168, 1, 10]
  const DESTINATION_IP: Ipv4 := [192, 168, 0, 20]

  /** `rest` is what malloc left behind: the sender writes the ICMPv6 type and code and
      nothing after them. */
  function Packet(order: ByteOrder, source: Mac, saddr: Ipv4, daddr: Ipv4, rest: seq<Byte>): (f: seq<Byte>)
    ensures |f| == ETH_HLEN + IP_HLEN + 2 + |rest|
  {
    EthernetHeader(BROADCAST, source)
      + FilledIpv4Header(order, IP_HLEN + ICMPV6_HLEN + PAYLOAD_SIZE, IPPROTO_ICMPV6, saddr, daddr)
      + [ICMPV6_ECHO_REQUEST, 0] + rest
  }

  /** The packet as a receiver finds it, byte by byte but for the checksum. */
  lemma PacketBytes(order: ByteOrder, source: Mac, saddr: Ipv4, daddr: Ipv4, rest: seq<Byte>)
    ensures var f := Packet(order, source, saddr, daddr, rest);
            && f[0..14] == [0xFF, 0xFF, 0xFF, 0xFF, 0xFF, 0xFF] + source + [0x08, 0x00]
            && f[14..16] == [0x45, 0x00] && f[16..18] == (if order.BigEndian? then [0, 92] else [92, 0])
            && f[18..24] == [0, 0, 0, 0, 64, 58] && f[26..30] == saddr && f[30..34] == daddr
            && f[34..36] == [128, 0] && f[36..] == rest
  {
    var f := Packet(order, source, saddr, daddr, rest);
    PacketParts(order, source, saddr, daddr, rest);
    Ipv4Bytes(order, 92, IPPROTO_ICMPV6, saddr, daddr);
    SubSlice(f, 14, 34, 0, 2);
    SubSlice(f, 14, 34, 2, 4);
    SubSlice(f, 14, 34, 4, 10);
    SubSlice(f, 14, 34, 12, 16);
    SubSlice(f, 14, 34, 16, 20);
  }

  /** The checksum as a receiver loads it, by the sum of the nine other words. */
  lemma PacketChecksum(order: ByteOrder, source: Mac, saddr: Ipv4, daddr: Ipv4, rest: seq<Byte>, words: nat)
    requires words == 0x4500 + (if order.BigEndian? then 92 else 0x5C00) + 0x403A
                      + WordSum(BigEndian, saddr) + WordSum(BigEndian, daddr)
    ensures var f := Packet(order, source, saddr, daddr, rest); Load(BigEndian, f[24], f[25]) == Complement(Residue(words))
  {
    var f := Packet(order, source, saddr, daddr, rest);
    PacketParts(order, source, saddr, daddr, rest);
    Ipv4ChecksumInNumbers(order, 92, IPPROTO_ICMPV6, saddr, daddr, words);
    assert f[24] == f[14..34][10] && f[25] == f[14..34][11];
  }

  lemma PacketParts(order: ByteOrder, source: Mac, saddr: Ipv4, daddr: Ipv4, rest: seq<Byte>)
    ensures var f := Packet(order, source, saddr, daddr, rest);
            && f[0..14] == EthernetHeader(BROADCAST, source)
            && f[14..34] == FilledIpv4Header(order, 92, IPPROTO_ICMPV6, saddr, daddr)
            && f[34..36] == [128, 0] && f[36..] == rest
  {}

  /** Packet construction, in the memory malloc returned. */
  method BuildPacket(order: ByteOrder, packet: array<Byte>, source: Mac,
                     saddr: Ipv4 := SENDER_IP, daddr: Ipv4 := DESTINATION_IP)
    requires packet.Length == PACKET_SIZE
    modifies packet
    ensures packet[..] == Packet(order, source, saddr, daddr, old(packet[36..]))
    ensures packet[0..14] == [0xFF, 0xFF, 0xFF, 0xFF, 0xFF, 0xFF] + source + [0x08, 0x00]
    ensures packet[14..16] == [0x45, 0x00] && packet[16..18] == if order.BigEndian? then [0, 92] else [92, 0]
    ensures packet[18..24] == [0, 0, 0, 0, 64, 58] && packet[26..30] == saddr && packet[30..34] == daddr
    ensures packet[34..36] == [128, 0] && packet[36..106] == old(packet[36..106])
  {
    ghost var rest := packet[36..];
    var ip := ETH_HLEN;
    var icmp := ETH_HLEN + IP_HLEN;
    WriteEthernetHeader(packet, 0, BROADCAST, source);
    ghost var first := packet[..];
    WriteIpv4Header(order, packet, ip, IP_HLEN + ICMPV6_HLEN + PAYLOAD_SIZE, IPPROTO_ICMPV6, saddr, daddr);
    ghost var second := packet[..];
    CopyBytes(packet, icmp, [ICMPV6_ECHO_REQUEST, 0]);
    assert packet[..ip] == second[..ip] == first[..ip];
    assert packet[ip..icmp] == second[ip..icmp];
    assert packet[icmp + 2..] == second[36..] == first[36..] == old(packet[36..]);
    assert packet[..] == packet[..ip] + packet[ip..icmp] + packet[icmp..icmp + 2] + packet[icmp + 2..];
    SameSlices(packet, Packet(order, source, saddr, daddr, rest));
    PacketBytes(order, source, saddr, daddr, rest);
  }

  lemma SameSlices(a: array<Byte>, s: seq<Byte>)
    requires a[..] == s
    ensures forall i, j :: 0 <= i <= j <= |s| ==> a[i..j] == s[i..j]
  {}

  /** The packet with the two addresses the program is written for. */
  method BuildRequest(order: ByteOrder, packet: array<Byte>, source: Mac)
    requires packet.Length == 106
    modifies packet
    ensures packet[..] == Packet(order, source, [192, 168, 1, 10], [192, 168, 0, 20], old(packet[36..]))
  {
    BuildPacket(order, packet, source);
  }

  /** The checksum of the packet's IPv4 header is accepted in either byte order. */
  lemma PacketHeaderVerifies(order: ByteOrder, reader: ByteOrder, source: Mac, saddr: Ipv4, daddr: Ipv4, rest: seq<Byte>)
    ensures Verifies(reader, Packet(order, source, saddr, daddr, rest)[14..34])
  {
    assert Packet(order, source, saddr, daddr, rest)[14..34]
        == FilledIpv4Header(order, IP_HLEN + ICMPV6_HLEN + PAYLOAD_SIZE, IPPROTO_ICMPV6, saddr, daddr);
    Ipv4HeaderVerifies(order, reader, IP_HLEN + ICMPV6_HLEN + PAYLOAD_SIZE, IPPROTO_ICMPV6, saddr, daddr);
  }

  /** The packet's 92 bytes behind the Ethernet header are read as 23552 when the sender is
      a little-endian machine. */
  lemma PacketLengthAsReceived(order: ByteOrder, source: Mac, saddr: Ipv4, daddr: Ipv4, rest: seq<Byte>)
    requires |rest| == PACKET_SIZE - 36
    ensures var f := Packet(order, source, saddr, daddr, rest);
            |f| - ETH_HLEN == 92 && Load(BigEndian, f[16], f[17]) == if order.BigEndian? then 92 else 23552
  {
    var f := Packet(order, source, saddr, daddr, rest);
    assert f[16] == f[14..34][2] && f[17] == f[14..34][3]
        && f[14..34] == FilledIpv4Header(order, 92, IPPROTO_ICMPV6, saddr, daddr);
    TotalLengthAsReceived(order, 92, IPPROTO_ICMPV6, saddr, daddr);
  }
}
