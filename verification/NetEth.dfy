/** net_eth.c: what the Ethernet driver reads out of a received frame, and what it does
    to a frame it transmits. */
module NetEth {
  import opened OnesComplement
  import opened InternetChecksum
  import opened Headers
  import opened Ownership
  import NetSpi
  import NetUsp

  const DRIVER_MAC: Mac := [0x00, 0x0C, 0x22, 0x44, 0xAA, 0xBB]

  /** A received buffer, and whether kmalloc will find memory for its copy. */
  datatype Received = Received(skb: Handle, data: seq<Byte>, allocates: bool)

  datatype IcmpType = NotIcmp | Truncated | Type(value: Byte)

  /** What is read, and logged, of a frame. */
  datatype Parsed =
    Parsed(source: Mac, dest: Mac, saddr: Ipv4, daddr: Ipv4, protocol: Byte, icmp: IcmpType, echoReply: bool)

  /** Fields at the receive path's offsets. The code reads the ICMPv6 type without checking
      that the frame reaches that far; that read is modelled only when it does. */
  function Parse(f: seq<Byte>): Parsed
    requires |f| >= ETH_HLEN + IP_HLEN
  {
    Parsed(f[6..12], f[0..6], f[26..30], f[30..34], f[23],
           if f[23] != IPPROTO_ICMPV6 then NotIcmp else if |f| == 34 then Truncated else Type(f[34]),
           f[23] == IPPROTO_ICMPV6 && |f| > 34 && f[34] == ICMPV6_ECHO_REPLY)
  }

  predicate Accepts(r: Received) {
    |r.data| >= ETH_HLEN + IP_HLEN && r.allocates
  }

  /** `my_netdev_rx`. */
  method MyNetdevRx(ledger: Ledger, r: Received) returns (verdict: Verdict, parsed: seq<Parsed>)
    requires ledger.Valid() && r.skb in ledger.live
    modifies ledger
    ensures ledger.Valid() && ledger.live == old(ledger.live) - {r.skb}
    ensures ledger.sent == old(ledger.sent) && ledger.next == old(ledger.next) + if Accepts(r) then 1 else 0
    ensures ledger.freed == old(ledger.freed) + multiset{r.skb}
                            + if Accepts(r) then multiset{old(ledger.next)} else multiset{}
    ensures verdict == Success <==> |r.data| >= 34 && r.allocates
    ensures parsed == if Accepts(r) then [Parse(r.data)] else []
    ensures verdict == Success ==>
      && parsed[0].source == r.data[6..12] && parsed[0].dest == r.data[0..6]
      && parsed[0].saddr == r.data[26..30] && parsed[0].daddr == r.data[30..34] && parsed[0].protocol == r.data[23]
      && parsed[0].icmp == (if r.data[23] != 58 then NotIcmp else if |r.data| == 34 then Truncated else Type(r.data[34]))
      && (parsed[0].echoReply <==> r.data[23] == 58 && |r.data| > 34 && r.data[34] == 129)
  {
    parsed := [];
    if |r.data| < ETH_HLEN + IP_HLEN {
      ledger.Free(r.skb);
      return Drop, [];
    }
    if !r.allocates {
      ledger.Free(r.skb);
      return Drop, [];
    }
    var kernelBuffer := ledger.Alloc();
    var b := new Byte[|r.data|];
    CopyBytes(b, 0, r.data);
    assert b[0..0 + |r.data|] == b[..];
    var source, dest := b[6..12], b[0..6];
    var saddr, daddr := b[26..30], b[30..34];
    var icmp, echoReply := NotIcmp, false;
    if b[23] == IPPROTO_ICMPV6 {
      icmp := if |r.data| == 34 then Truncated else Type(b[34]);
      if icmp == Type(ICMPV6_ECHO_REPLY) {
        echoReply := true;
      }
    }
    parsed := [Parsed(source, dest, saddr, daddr, b[23], icmp, echoReply)];
    ledger.Free(kernelBuffer);
    ledger.Free(r.skb);
    verdict := Success;
  }

  ghost predicate Distinct(frames: seq<Received>) {
    forall i, j :: 0 <= i < j < |frames| ==> frames[i].skb != frames[j].skb
  }

  ghost function Handles(frames: seq<Received>): set<Handle> {
    set r <- frames :: r.skb
  }

  /** Over every sequence of frames and every pattern of allocation failures, all the
      received buffers and all the copies made of them are released, each exactly once. */
  method RxRun(ledger: Ledger, frames: seq<Received>)
    requires ledger.Valid() && Distinct(frames)
    requires forall r <- frames :: r.skb in ledger.live
    modifies ledger
    ensures ledger.Valid() && ledger.live == old(ledger.live) - Handles(frames)
    ensures forall h :: h in Handles(frames) || old(ledger.next) <= h < ledger.next ==> ledger.freed[h] == 1
  {
    var i := 0;
    while i < |frames|
      invariant i <= |frames|
      invariant ledger.Valid() && ledger.live == old(ledger.live) - Handles(frames[..i])
      invariant ledger.sent == old(ledger.sent) && ledger.next >= old(ledger.next)
    {
      assert frames[i] in frames;
      assert frames[..i + 1] == frames[..i] + [frames[i]];
      var _, _ := MyNetdevRx(ledger, frames[i]);
      i := i + 1;
    }
    assert frames[..i] == frames;
    forall h | h in Handles(frames) || old(ledger.next) <= h < ledger.next
      ensures ledger.freed[h] == 1
    {
      assert InOrder(h, old(ledger.next), old(ledger.live), old(ledger.freed), old(ledger.sent));
      assert InOrder(h, ledger.next, ledger.live, ledger.freed, ledger.sent);
    }
  }

  // ------------------------------------------------------------ build, then parse

  /** Everything the sender put into a packet comes back out of the receive path, which
      takes its ICMPv6 branch, finds an echo request there and so reports no echo reply. */
  lemma RoundTrip(order: ByteOrder, source: Mac, saddr: Ipv4, daddr: Ipv4, rest: seq<Byte>)
    ensures var f := NetUsp.Packet(order, source, saddr, daddr, rest);
            && |f| >= ETH_HLEN + IP_HLEN
            && Parse(f) == Parsed(source, BROADCAST, saddr, daddr, IPPROTO_ICMPV6, Type(ICMPV6_ECHO_REQUEST), false)
  {
    var f := NetUsp.Packet(order, source, saddr, daddr, rest);
    var total := IP_HLEN + ICMPV6_HLEN + NetUsp.PAYLOAD_SIZE;
    var h := FilledIpv4Header(order, total, IPPROTO_ICMPV6, saddr, daddr);
    Ipv4HeaderVerifies(order, order, total, IPPROTO_ICMPV6, saddr, daddr);
    assert f[14..34] == h;
    assert f[26..30] == f[14..34][12..16] && f[30..34] == f[14..34][16..20];
    assert f[23] == f[14..34][9];
  }

  /** The same packet with its type byte turned into that of an echo reply is reported as one. */
  lemma ReplyIsReported(order: ByteOrder, source: Mac, saddr: Ipv4, daddr: Ipv4, rest: seq<Byte>)
    ensures var f := NetUsp.Packet(order, source, saddr, daddr, rest)[34 := 129];
            |f| >= ETH_HLEN + IP_HLEN && Parse(f).echoReply && Parse(f).icmp == Type(129)
  {
    NetUsp.PacketBytes(order, source, saddr, daddr, rest);
    var f := NetUsp.Packet(order, source, saddr, daddr, rest);
    assert f[23] == f[18..24][5];
  }

  /** The same for the frame built around a temperature: it is no ICMPv6 frame, and ports,
      header length, window and temperature are where a TCP receiver looks for them. */
  lemma SpiRoundTrip(order: ByteOrder, source: Mac, saddr: Ipv4, reserved: Byte, urgent: seq<Byte>, payload: seq<Byte>)
    requires reserved < 0x10 && |urgent| == 2 && |payload| == NetSpi.PAYLOAD_SIZE
    ensures var f := NetSpi.Frame(order, source, saddr, reserved, urgent, payload, NetSpi.FRAME_SIZE);
            && Parse(f) == Parsed(source, BROADCAST, saddr, NetSpi.DESTINATION, IPPROTO_TCP, NotIcmp, false)
            && Load(BigEndian, f[34], f[35]) == 1234 && Load(BigEndian, f[36], f[37]) == 5678
            && f[46] / 0x10 * 4 == TCP_HLEN && f[47] == 0 && Load(BigEndian, f[48], f[49]) == 4096
            && f[54..] == payload
  {
    var f := NetSpi.Frame(order, source, saddr, reserved, urgent, payload, NetSpi.FRAME_SIZE);
    SpiHeaderFields(order, source, saddr, reserved, urgent, payload);
    var segment := NetSpi.Segment(reserved, urgent, payload);
    var filled := FilledSegment(order, saddr, NetSpi.DESTINATION, NetSpi.FRAME_SIZE, segment);
    assert f[34..] == filled;
    TcpFields(reserved, urgent);
    forall i | 0 <= i < 16
      ensures f[34 + i] == TcpHeader(reserved, urgent)[i]
    {
      assert f[34 + i] == filled[i] == segment[i];
    }
    assert f[54..] == filled[20..] == segment[20..];
  }

  lemma SpiHeaderFields(order: ByteOrder, source: Mac, saddr: Ipv4, reserved: Byte, urgent: seq<Byte>, payload: seq<Byte>)
    requires reserved < 0x10 && |urgent| == 2 && |payload| == NetSpi.PAYLOAD_SIZE
    ensures var f := NetSpi.Frame(order, source, saddr, reserved, urgent, payload, NetSpi.FRAME_SIZE);
            Parse(f) == Parsed(source, BROADCAST, saddr, NetSpi.DESTINATION, IPPROTO_TCP, NotIcmp, false)
  {
    var f := NetSpi.Frame(order, source, saddr, reserved, urgent, payload, NetSpi.FRAME_SIZE);
    var total := IP_HLEN + TCP_HLEN + NetSpi.PAYLOAD_SIZE;
    Ipv4HeaderVerifies(order, order, total, IPPROTO_TCP, saddr, NetSpi.DESTINATION);
    var h := FilledIpv4Header(order, total, IPPROTO_TCP, saddr, NetSpi.DESTINATION);
    assert f[..14] == EthernetHeader(BROADCAST, source) && f[14..34] == h;
    assert f[6..12] == f[..14][6..12] && f[0..6] == f[..14][0..6];
    assert f[26..30] == h[12..16] && f[30..34] == h[16..20] && f[23] == h[9];
  }

  // ------------------------------------------------------------ transmit

  function DecrementTtl(ttl: Byte): Byte {
    (ttl + 0xFF) % 0x100
  }

  /** The frame after the destination MAC was overwritten and the TTL decremented. */
  function Rewritten(f: seq<Byte>): (g: seq<Byte>)
    requires |f| >= ETH_HLEN + IP_HLEN
    ensures |g| == |f|
  {
    DRIVER_MAC + f[6..22] + [DecrementTtl(f[22])] + f[23..]
  }

  /** `my_netdev_tx` up to the rewrite. A negative headroom frees the buffer unsent and
      leaves the frame alone. */
  method MyNetdevTx(ledger: Ledger, skb: Handle, frame: array<Byte>, headroom: int) returns (rewritten: bool)
    requires ledger.Valid() && skb in ledger.live
    requires headroom >= 0 ==> frame.Length >= ETH_HLEN + IP_HLEN
    modifies ledger, frame
    ensures ledger.Valid() && rewritten == (headroom >= 0)
    ensures frame[..] == if rewritten then Rewritten(old(frame[..])) else old(frame[..])
    ensures rewritten ==> frame[0..6] == [0x00, 0x0C, 0x22, 0x44, 0xAA, 0xBB]
    ensures rewritten ==> frame[22] == if old(frame[22]) == 0 then 255 else old(frame[22]) - 1
    ensures forall i :: 6 <= i < frame.Length && i != 22 ==> frame[i] == old(frame[i])
    ensures ledger.live == old(ledger.live) - if rewritten then {} else {skb}
    ensures ledger.freed == old(ledger.freed) + if rewritten then multiset{} else multiset{skb}
  {
    if headroom < 0 {
      ledger.Free(skb);
      return false;
    }
    CopyBytes(frame, 0, DRIVER_MAC);
    assert frame[0..0 + 6] == DRIVER_MAC;
    frame[22] := DecrementTtl(frame[22]);
    rewritten := true;
    assert frame[..] == frame[0..6] + frame[6..22] + [frame[22]] + frame[23..];
    assert frame[6..22] == old(frame[6..22]) && frame[23..] == old(frame[23..]);
  }

  /** The first n bytes of the IP header of a frame (n is 4 times its `ihl`). */
  function Header(f: seq<Byte>, n: nat): (h: seq<Byte>)
    requires 14 + n <= |f|
    ensures |h| == n
  {
    f[14..14 + n]
  }

  lemma RewrittenHeader(f: seq<Byte>, n: nat)
    requires IP_HLEN <= n && 14 + n <= |f|
    ensures var h := Header(f, n);
            Header(Rewritten(f), n) == SetWord(h, 8, DecrementTtl(h[8]), h[9])
  {
    var h, g := Header(f, n), Rewritten(f);
    forall i | 0 <= i < n
      ensures Header(g, n)[i] == SetWord(h, 8, DecrementTtl(h[8]), h[9])[i]
    {
      assert Header(g, n)[i] == g[14 + i] && h[i] == f[14 + i];
      assert i != 8 ==> g[14 + i] == f[14 + i];
    }
  }

  lemma TtlChangesSum(order: ByteOrder, ttl: Byte, y: Byte)
    ensures (Load(order, DecrementTtl(ttl), y) - Load(order, ttl, y)) % 0xFFFF != 0
    ensures Load(order, ttl, y) == 0xFFFF ==> Load(order, DecrementTtl(ttl), y) != 0
  {}

  /** No frame whose header verified still verifies after the rewrite: the TTL step,
      wrap-around included, always changes the sum and the checksum is left as it was. */
  lemma RewriteBreaksChecksum(order: ByteOrder, reader: ByteOrder, f: seq<Byte>, n: nat)
    requires IP_HLEN <= n && 14 + n <= |f| && Verifies(order, Header(f, n))
    ensures !Verifies(reader, Header(Rewritten(f), n))
  {
    var h := Header(f, n);
    RewrittenHeader(f, n);
    TtlChangesSum(order, h[8], h[9]);
    SingleWordChange(order, h, 8, DecrementTtl(h[8]), h[9]);
    VerdictIsOrderFree(order, reader, Header(Rewritten(f), n));
  }

  /** The rewritten header with its checksum field set to zero. */
  function Unsummed(f: seq<Byte>, n: nat): (h: seq<Byte>)
    requires IP_HLEN <= n && 14 + n <= |f|
    ensures |h| == n
  {
    SetWord(Header(Rewritten(f), n), 10, 0, 0)
  }

  /** The checksum section 3 of RFC 1624 would have put there. */
  function UpdatedChecksum(order: ByteOrder, f: seq<Byte>, n: nat): Word16
    requires IP_HLEN <= n && 14 + n <= |f|
  {
    var h := Header(f, n);
    IncrementalUpdate(Load(order, h[10], h[11]), Load(order, h[8], h[9]), Load(order, DecrementTtl(h[8]), h[9]))
  }

  /** The missing update: storing the incrementally updated checksum repairs every header
      that is not all zero besides its checksum, and it then is the very word a full
      recomputation yields. For an all-zero header it is the other spelling of zero. */
  lemma UpdateRepairs(order: ByteOrder, reader: ByteOrder, f: seq<Byte>, n: nat)
    requires IP_HLEN <= n && 14 + n <= |f| && Verifies(order, Header(f, n))
    ensures var h := Header(Rewritten(f), n);
            var updated, recomputed := UpdatedChecksum(order, f, n), Checksum(order, Unsummed(f, n));
            && (updated == recomputed <==> exists i :: 0 <= i < n && Unsummed(f, n)[i] != 0)
            && (updated == recomputed <==> Verifies(reader, PutChecksum(order, h, 10, updated)))
            && (updated != recomputed ==> updated == 0 && recomputed == 0xFFFF)
  {
    var h, h' := Header(f, n), Header(Rewritten(f), n);
    var ttl := DecrementTtl(h[8]);
    RewrittenHeader(f, n);
    TtlChangesSum(order, h[8], h[9]);
    UpdateIsRecomputation(order, h, 10, 8, ttl, h[9]);
    var zeroed, updated := Unsummed(f, n), UpdatedChecksum(order, f, n);
    WordSumZero(order, zeroed);
    assert PutChecksum(order, h', 10, updated) == PutChecksum(order, zeroed, 10, updated);
    FillIsTheOnlyFill(order, zeroed, 10, updated);
    VerdictIsOrderFree(order, reader, PutChecksum(order, h', 10, updated));
    OtherZero(updated, WordSum(order, zeroed));
  }

  lemma OtherZero(w: Word16, n: nat)
    ensures n == 0 && w != 0xFFFF && Congruent(w, Complement(Residue(n))) ==> w == 0
    ensures Complement(Residue(n)) == 0xFFFF <==> n == 0
  {}

  /** For anything that is an IPv4 header at all, the update repairs it. */
  lemma UpdateRepairsIpv4(order: ByteOrder, reader: ByteOrder, f: seq<Byte>, n: nat)
    requires IP_HLEN <= n && 14 + n <= |f| && Verifies(order, Header(f, n))
    requires f[14] / 0x10 == 4
    ensures Verifies(reader, PutChecksum(order, Header(Rewritten(f), n), 10, UpdatedChecksum(order, f, n)))
  {
    UpdateRepairs(order, reader, f, n);
    RewrittenHeader(f, n);
    assert Unsummed(f, n)[0] == f[14] != 0;
  }
}
