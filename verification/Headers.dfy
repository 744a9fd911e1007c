/** Ethernet, IPv4, TCP and pseudo-header layouts, and the in-place writers both
    packet builders share. Multi-byte fields that the code passes through `htons` or
    `inet_addr` are in network order; the others are stored in the host's order. */
module Headers {
  import opened OnesComplement
  import opened InternetChecksum

  const ETH_HLEN := 14
  const IP_HLEN := 20
  const TCP_HLEN := 20
  const ICMPV6_HLEN := 8
  const ETH_P_IP := 0x0800
  const IPPROTO_TCP := 6
  const IPPROTO_ICMPV6 := 58
  const ICMPV6_ECHO_REQUEST := 128
  const ICMPV6_ECHO_REPLY := 129

  type Mac = s: seq<Byte> | |s| == 6 witness [0, 0, 0, 0, 0, 0]
  type Ipv4 = s: seq<Byte> | |s| == 4 witness [0, 0, 0, 0]

  const BROADCAST: Mac := [0xFF, 0xFF, 0xFF, 0xFF, 0xFF, 0xFF]

  function EthernetHeader(dest: Mac, source: Mac): (h: seq<Byte>)
    ensures |h| == ETH_HLEN
  {
    dest + source + Store(BigEndian, ETH_P_IP)
  }

  /** Section 3.1 of RFC 791, checksum field still zero. `tot_len` is stored without `htons`. */
  function Ipv4Header(order: ByteOrder, total: Word16, protocol: Byte, saddr: Ipv4, daddr: Ipv4): (h: seq<Byte>)
    ensures |h| == IP_HLEN && h[10] == 0 && h[11] == 0
  {
    [0x45, 0] + Store(order, total) + [0, 0, 0, 0, 64, protocol, 0, 0] + saddr + daddr
  }

  function FilledIpv4Header(order: ByteOrder, total: Word16, protocol: Byte, saddr: Ipv4, daddr: Ipv4): (h: seq<Byte>)
    ensures |h| == IP_HLEN
  {
    var h := Ipv4Header(order, total, protocol, saddr, daddr);
    PutChecksum(order, h, 10, Checksum(order, h))
  }

  /** Section 3.1 of RFC 9293, checksum field still zero. The builder never assigns the
      reserved nibble beside `doff` nor the urgent pointer: they keep what was in memory. */
  function TcpHeader(reserved: Byte, urgent: seq<Byte>): (h: seq<Byte>)
    requires reserved < 0x10 && |urgent| == 2
    ensures |h| == TCP_HLEN && h[16] == 0 && h[17] == 0
  {
    Store(BigEndian, 1234) + Store(BigEndian, 5678) + [0, 0, 0, 0, 0, 0, 0, 0, 0x50 + reserved, 0]
      + Store(BigEndian, 4096) + [0, 0] + urgent
  }

  function PseudoHeader(saddr: Ipv4, daddr: Ipv4, length: Word16): (h: seq<Byte>)
    ensures |h| == 12
  {
    saddr + daddr + [0, IPPROTO_TCP] + Store(BigEndian, length)
  }

  function TcpChecksum(order: ByteOrder, saddr: Ipv4, daddr: Ipv4, length: Word16, segment: seq<Byte>): Word16 {
    Checksum(order, PseudoHeader(saddr, daddr, length) + segment)
  }

  function FilledSegment(order: ByteOrder, saddr: Ipv4, daddr: Ipv4, length: Word16, segment: seq<Byte>): (s: seq<Byte>)
    requires |segment| >= TCP_HLEN
    ensures |s| == |segment|
  {
    PutChecksum(order, segment, 16, TcpChecksum(order, saddr, daddr, length, segment))
  }

  /** The receiver's check: its pseudo-header carries the length of the segment that arrived. */
  predicate SegmentVerifies(order: ByteOrder, saddr: Ipv4, daddr: Ipv4, segment: seq<Byte>)
    requires |segment| <= 0xFFFF
  {
    Verifies(order, PseudoHeader(saddr, daddr, |segment|) + segment)
  }

  // ------------------------------------------------------------ what the layouts guarantee

  /** For every length, protocol and address pair, the checksum of the built header is
      accepted by a receiver of any byte order, and every field reads back at its offset,
      the total length if it is loaded in the writer's own byte order. */
  lemma Ipv4HeaderVerifies(order: ByteOrder, reader: ByteOrder, total: Word16, protocol: Byte, saddr: Ipv4, daddr: Ipv4)
    ensures var h := FilledIpv4Header(order, total, protocol, saddr, daddr);
            && Verifies(reader, h)
            && h[0] / 0x10 == 4 && h[0] % 0x10 * 4 == IP_HLEN && Load(order, h[2], h[3]) == total
            && h[8] == 64 && h[9] == protocol && h[12..16] == saddr && h[16..20] == daddr
  {
    FillVerifies(order, reader, Ipv4Header(order, total, protocol, saddr, daddr), 10);
  }

  /** The built header byte by byte, but for the checksum. */
  lemma Ipv4Bytes(order: ByteOrder, total: Word16, protocol: Byte, saddr: Ipv4, daddr: Ipv4)
    ensures var h := FilledIpv4Header(order, total, protocol, saddr, daddr);
            && h[0..2] == [0x45, 0x00]
            && h[2..4] == (if order.BigEndian? then [total / 0x100, total % 0x100] else [total % 0x100, total / 0x100])
            && h[4..10] == [0, 0, 0, 0, 64, protocol] && h[12..16] == saddr && h[16..20] == daddr
  {}

  /** The checksum as a receiver loads it: that of the nine other words, the total length
      being swapped among them on a little-endian machine. */
  lemma Ipv4ChecksumInNumbers(order: ByteOrder, total: Word16, protocol: Byte, saddr: Ipv4, daddr: Ipv4, words: nat)
    requires words == 0x4500 + (if order.BigEndian? then total else Swap(total)) + 0x4000 + protocol
                      + WordSum(BigEndian, saddr) + WordSum(BigEndian, daddr)
    ensures var h := FilledIpv4Header(order, total, protocol, saddr, daddr);
            Load(BigEndian, h[10], h[11]) == Complement(Residue(words))
  {
    var b := Ipv4Header(order, total, protocol, saddr, daddr);
    var h := FilledIpv4Header(order, total, protocol, saddr, daddr);
    Ipv4Words(order, total, protocol, saddr, daddr);
    LoadSwapped(order, Store(order, total)[0], Store(order, total)[1]);
    StoredChecksum(order, b, words);
    assert [h[10], h[11]] == Store(order, Checksum(order, b));
  }

  lemma Ipv4Words(order: ByteOrder, total: Word16, protocol: Byte, saddr: Ipv4, daddr: Ipv4)
    ensures WordSum(BigEndian, Ipv4Header(order, total, protocol, saddr, daddr))
         == 0x4500 + Load(BigEndian, Store(order, total)[0], Store(order, total)[1]) + 0x4000 + protocol
            + WordSum(BigEndian, saddr) + WordSum(BigEndian, daddr)
  {
    var t := Store(order, total);
    var first: seq<Byte>, second: seq<Byte>, third: seq<Byte> := [0x45, 0, t[0], t[1]], [0, 0, 0, 0], [64, protocol, 0, 0];
    assert Ipv4Header(order, total, protocol, saddr, daddr) == first + (second + (third + (saddr + daddr)));
    FourParts(BigEndian, first, second, third, saddr + daddr);
    WordSumConcat(BigEndian, saddr, daddr);
    FourBytes(BigEndian, 0x45, 0, t[0], t[1]);
    FourBytes(BigEndian, 0, 0, 0, 0);
    FourBytes(BigEndian, 64, protocol, 0, 0);
  }

  /** What a receiver, which loads the total length in network order, takes it for: the
      right value exactly when the writer is big-endian or the two bytes are equal. */
  lemma TotalLengthAsReceived(order: ByteOrder, total: Word16, protocol: Byte, saddr: Ipv4, daddr: Ipv4)
    ensures var h := FilledIpv4Header(order, total, protocol, saddr, daddr);
            && Load(BigEndian, h[2], h[3]) == (if order.BigEndian? then total else Swap(total))
            && (Load(BigEndian, h[2], h[3]) == total <==> order.BigEndian? || total / 0x100 == total % 0x100)
  {
    var h := FilledIpv4Header(order, total, protocol, saddr, daddr);
    assert h[2] == Store(order, total)[0] && h[3] == Store(order, total)[1];
    Digits(total, total / 0x100, total % 0x100);
  }

  /** The TCP fields read back at their offsets, the unassigned bits included. */
  lemma TcpFields(reserved: Byte, urgent: seq<Byte>)
    requires reserved < 0x10 && |urgent| == 2
    ensures var h := TcpHeader(reserved, urgent);
            && Load(BigEndian, h[0], h[1]) == 1234 && Load(BigEndian, h[2], h[3]) == 5678
            && h[4..12] == [0, 0, 0, 0, 0, 0, 0, 0]
            && h[12] / 0x10 * 4 == TCP_HLEN && h[12] % 0x10 == reserved && h[13] == 0
            && Load(BigEndian, h[14], h[15]) == 4096 && h[18..] == urgent
  {}

  /** The header byte by byte, and what its words add up to. */
  lemma TcpBytes(reserved: Byte, urgent: seq<Byte>)
    requires reserved < 0x10 && |urgent| == 2
    ensures var h := TcpHeader(reserved, urgent);
            && h[0..12] == [0x04, 0xD2, 0x16, 0x2E, 0, 0, 0, 0, 0, 0, 0, 0]
            && h[12..18] == [0x50 + reserved, 0, 0x10, 0x00, 0, 0] && h[18..20] == urgent
            && WordSum(BigEndian, h) == 0x04D2 + 0x162E + 0x5000 + 0x100 * reserved + 0x1000 + Load(BigEndian, urgent[0], urgent[1])
  {
    TcpWords(reserved, urgent);
  }

  lemma TcpWords(reserved: Byte, urgent: seq<Byte>)
    requires reserved < 0x10 && |urgent| == 2
    ensures WordSum(BigEndian, TcpHeader(reserved, urgent))
         == 0x04D2 + 0x162E + 0x5000 + 0x100 * reserved + 0x1000 + Load(BigEndian, urgent[0], urgent[1])
  {
    var a: seq<Byte>, zero: seq<Byte> := [0x04, 0xD2, 0x16, 0x2E], [0, 0, 0, 0];
    var c: seq<Byte>, d: seq<Byte> := [0x50 + reserved, 0, 0x10, 0x00], [0, 0, urgent[0], urgent[1]];
    assert TcpHeader(reserved, urgent) == a + (zero + (zero + (c + d)));
    FourParts(BigEndian, a, zero, zero, c + d);
    WordSumConcat(BigEndian, c, d);
    FourBytes(BigEndian, 0x04, 0xD2, 0x16, 0x2E);
    FourBytes(BigEndian, 0, 0, 0, 0);
    FourBytes(BigEndian, 0x50 + reserved, 0, 0x10, 0x00);
    FourBytes(BigEndian, 0, 0, urgent[0], urgent[1]);
  }

  /** A filled TCP segment, of any length and with any payload, is accepted exactly when the
      length passed to the checksum was the segment's own (0 and 0xFFFF being one length
      to one's-complement arithmetic). */
  lemma SegmentVerifiesIffLengthIsItsOwn(order: ByteOrder, reader: ByteOrder, saddr: Ipv4, daddr: Ipv4,
                                         length: Word16, segment: seq<Byte>)
    requires TCP_HLEN <= |segment| <= 0xFFFF && segment[16] == 0 && segment[17] == 0
    ensures SegmentVerifies(reader, saddr, daddr, FilledSegment(order, saddr, daddr, length, segment))
       <==> length == |segment| || (length == 0 && |segment| == 0xFFFF)
  {
    var pseudo := PseudoHeader(saddr, daddr, length);
    var filled := FilledSegment(order, saddr, daddr, length, segment);
    var sent := pseudo + filled;
    var c := TcpChecksum(order, saddr, daddr, length, segment);
    assert sent == PutChecksum(order, pseudo + segment, 28, c);
    FillVerifies(order, BigEndian, pseudo + segment, 28);
    var own := Store(BigEndian, |segment|);
    var checked := PseudoHeader(saddr, daddr, |segment|) + filled;
    assert checked == SetWord(sent, 10, own[0], own[1]);
    SingleWordChange(BigEndian, sent, 10, own[0], own[1]);
    assert checked[9] == IPPROTO_TCP;
    LengthsCongruent(length, |segment|);
    VerdictIsOrderFree(BigEndian, reader, checked);
  }

  /** Pseudo-header and segment in numbers, as section 3.1 of RFC 9293 adds them up: four
      address words, the protocol number 6, the length, and the words of the segment. */
  lemma SegmentWords(saddr: Ipv4, daddr: Ipv4, length: Word16, segment: seq<Byte>)
    ensures WordSum(BigEndian, PseudoHeader(saddr, daddr, length) + segment)
         == WordSum(BigEndian, saddr) + WordSum(BigEndian, daddr) + 6 + length + WordSum(BigEndian, segment)
  {
    var size := Store(BigEndian, length);
    var rest: seq<Byte> := [0, 6, size[0], size[1]];
    assert PseudoHeader(saddr, daddr, length) + segment == saddr + (daddr + (rest + segment));
    FourParts(BigEndian, saddr, daddr, rest, segment);
    FourBytes(BigEndian, 0, 6, size[0], size[1]);
  }

  /** Which segments a receiver accepts, by the sum of those words and in whichever byte
      order it adds. */
  lemma SegmentVerifiesInNumbers(order: ByteOrder, saddr: Ipv4, daddr: Ipv4, segment: seq<Byte>, words: nat)
    requires |segment| <= 0xFFFF
    requires words == WordSum(BigEndian, saddr) + WordSum(BigEndian, daddr) + 6 + |segment| + WordSum(BigEndian, segment)
    ensures SegmentVerifies(order, saddr, daddr, segment) <==> words % 0xFFFF == 0
  {
    SegmentWords(saddr, daddr, |segment|, segment);
    VerdictFromNetworkWords(order, PseudoHeader(saddr, daddr, |segment|) + segment, words);
  }

  /** What the sender computes from them, in either byte order. */
  lemma TcpChecksumInNumbers(order: ByteOrder, saddr: Ipv4, daddr: Ipv4, length: Word16, segment: seq<Byte>, words: nat)
    requires words == WordSum(BigEndian, saddr) + WordSum(BigEndian, daddr) + 6 + length + WordSum(BigEndian, segment)
    ensures var sum := Complement(Residue(words));
            TcpChecksum(order, saddr, daddr, length, segment) == if order.BigEndian? then sum else Swap(sum)
  {
    SegmentWords(saddr, daddr, length, segment);
    ChecksumFromNetworkWords(order, PseudoHeader(saddr, daddr, length) + segment, words);
  }

  lemma LengthsCongruent(length: Word16, own: Word16)
    requires own > 0
    ensures (own as int - length as int) % 0xFFFF == 0 <==> length == own || (length == 0 && own == 0xFFFF)
  {
    var d: int := own as int - length as int;
    assert -0xFFFF < d <= 0xFFFF;
  }

  // ------------------------------------------------------------ writers

  /** Nothing outside [lo, lo + n) differs between the two contents. */
  ghost predicate SameOutside(was: seq<Byte>, now: seq<Byte>, lo: nat, n: nat) {
    |was| == |now| && forall i :: 0 <= i < |was| && !(lo <= i < lo + n) ==> now[i] == was[i]
  }

  method CopyBytes(a: array<Byte>, off: nat, s: seq<Byte>)
    requires off + |s| <= a.Length
    modifies a
    ensures a[off..off + |s|] == s
    ensures forall i :: off <= i < off + |s| ==> a[i] == s[i - off]
    ensures forall i :: 0 <= i < a.Length && !(off <= i < off + |s|) ==> a[i] == old(a[i])
  {
    forall i | 0 <= i < |s| {
      a[off + i] := s[i];
    }
  }

  lemma SubSlice(b: seq<Byte>, lo: nat, hi: nat, i: nat, j: nat)
    requires lo <= hi <= |b| && i <= j <= hi - lo
    ensures b[lo..hi][i..j] == b[lo + i..lo + j]
  {
    forall k | 0 <= k < j - i
      ensures b[lo..hi][i..j][k] == b[lo + i..lo + j][k]
    {
      assert b[lo..hi][i + k] == b[lo + (i + k)];
    }
  }

  lemma Join(a: array<Byte>, lo: nat, mid: nat, hi: nat)
    requires lo <= mid <= hi <= a.Length
    ensures a[lo..hi] == a[lo..mid] + a[mid..hi]
  {}

  method WriteEthernetHeader(a: array<Byte>, off: nat, dest: Mac, source: Mac)
    requires off + ETH_HLEN <= a.Length
    modifies a
    ensures a[off..off + ETH_HLEN] == EthernetHeader(dest, source) == dest + source + [0x08, 0x00]
    ensures SameOutside(old(a[..]), a[..], off, ETH_HLEN)
  {
    CopyBytes(a, off, dest);
    CopyBytes(a, off + 6, source);
    CopyBytes(a, off + 12, Store(BigEndian, ETH_P_IP));
    assert a[off..off + 6] == dest;
    assert a[off + 6..off + 12] == source;
  }

  /** The first IPv4 fields; the first two share a byte. */
  method WriteVersion(order: ByteOrder, a: array<Byte>, off: nat, total: Word16)
    requires off + 4 <= a.Length
    modifies a
    ensures a[off..off + 4] == [0x45, 0] + Store(order, total)
    ensures forall i :: 0 <= i < a.Length && !(off <= i < off + 4) ==> a[i] == old(a[i])
  {
    BitFields(a[off]);
    a[off] := 0x40 + a[off] % 0x10;     // version
    a[off] := a[off] / 0x10 * 0x10 + 5; // ihl
    a[off + 1] := 0;                    // tos
    CopyBytes(a, off + 2, Store(order, total));
    Join(a, off, off + 2, off + 4);
  }

  lemma BitFields(b: Byte)
    ensures 0 <= 0x40 + b % 0x10 < 0x100 && (0x40 + b % 0x10) / 0x10 * 0x10 + 5 == 0x45
  {}

  /** The IPv4 fields in the order the builders assign them, up to `protocol`. */
  method WriteIpv4Front(order: ByteOrder, a: array<Byte>, off: nat, total: Word16, protocol: Byte)
    requires off + 10 <= a.Length
    modifies a
    ensures a[off..off + 10] == [0x45, 0] + Store(order, total) + [0, 0, 0, 0, 64, protocol]
    ensures forall i :: 0 <= i < a.Length && !(off <= i < off + 10) ==> a[i] == old(a[i])
  {
    WriteVersion(order, a, off, total);
    ghost var first := a[off..off + 4];
    CopyBytes(a, off + 4, [0, 0]);      // id
    CopyBytes(a, off + 6, [0, 0]);      // frag_off
    a[off + 8] := 64;                   // ttl
    a[off + 9] := protocol;
    assert a[off..off + 4] == first;
    Join(a, off, off + 4, off + 10);
  }

  /** The rest of the IPv4 fields; `check` is left zero. */
  method WriteIpv4Fields(order: ByteOrder, a: array<Byte>, off: nat, total: Word16, protocol: Byte,
                         saddr: Ipv4, daddr: Ipv4)
    requires off + IP_HLEN <= a.Length
    modifies a
    ensures a[off..off + IP_HLEN] == Ipv4Header(order, total, protocol, saddr, daddr)
    ensures SameOutside(old(a[..]), a[..], off, IP_HLEN)
  {
    WriteIpv4Front(order, a, off, total, protocol);
    ghost var front := a[off..off + 10];
    CopyBytes(a, off + 12, saddr);
    CopyBytes(a, off + 16, daddr);
    CopyBytes(a, off + 10, [0, 0]);     // check
    assert a[off..off + 10] == front && a[off + 10..off + 12] == [0, 0];
    assert a[off + 12..off + 16] == saddr && a[off + 16..off + 20] == daddr;
    Join(a, off, off + 10, off + 12);
    Join(a, off, off + 12, off + 16);
    Join(a, off, off + 16, off + 20);
  }

  /** Stores a checksum at p inside the n bytes at off. */
  method FillChecksum(order: ByteOrder, a: array<Byte>, off: nat, n: nat, p: nat, w: Word16)
    requires off + n <= a.Length && p + 1 < n
    modifies a
    ensures a[off..off + n] == PutChecksum(order, old(a[off..off + n]), p, w)
    ensures forall i :: 0 <= i < a.Length && !(off <= i < off + n) ==> a[i] == old(a[i])
  {
    ghost var was := a[off..off + n];
    CopyBytes(a, off + p, Store(order, w));
    ghost var now := a[off..off + n];
    forall i | 0 <= i < n
      ensures now[i] == PutChecksum(order, was, p, w)[i]
    {
      assert now[i] == a[off + i] && was[i] == old(a[off + i]);
    }
  }

  method WriteIpv4Header(order: ByteOrder, a: array<Byte>, off: nat, total: Word16, protocol: Byte,
                         saddr: Ipv4, daddr: Ipv4)
    requires off + IP_HLEN <= a.Length
    modifies a
    ensures a[off..off + IP_HLEN] == FilledIpv4Header(order, total, protocol, saddr, daddr)
    ensures SameOutside(old(a[..]), a[..], off, IP_HLEN)
  {
    WriteIpv4Fields(order, a, off, total, protocol, saddr, daddr);
    var c := InChecksum(order, a, off, IP_HLEN);
    FillChecksum(order, a, off, IP_HLEN, 10, c);
  }

  method WritePorts(a: array<Byte>, off: nat)
    requires off + 4 <= a.Length
    modifies a
    ensures a[off..off + 4] == Store(BigEndian, 1234) + Store(BigEndian, 5678)
    ensures forall i :: 0 <= i < a.Length && !(off <= i < off + 4) ==> a[i] == old(a[i])
  {
    CopyBytes(a, off, Store(BigEndian, 1234));
    CopyBytes(a, off + 2, Store(BigEndian, 5678));
    assert a[off..off + 2] == Store(BigEndian, 1234);
    Join(a, off, off + 2, off + 4);
  }

  /** The TCP fields before `window`. */
  method WriteTcpFront(a: array<Byte>, off: nat)
    requires off + 14 <= a.Length
    modifies a
    ensures a[off..off + 14] == Store(BigEndian, 1234) + Store(BigEndian, 5678)
                                + [0, 0, 0, 0, 0, 0, 0, 0, 0x50 + old(a[off + 12]) % 0x10, 0]
    ensures forall i :: 0 <= i < a.Length && !(off <= i < off + 14) ==> a[i] == old(a[i])
  {
    WritePorts(a, off);
    ghost var ports := a[off..off + 4];
    CopyBytes(a, off + 4, [0, 0, 0, 0]);      // seq
    CopyBytes(a, off + 8, [0, 0, 0, 0]);      // ack_seq
    a[off + 12] := 0x50 + a[off + 12] % 0x10; // doff, a bit-field
    a[off + 13] := 0;                         // the eight flags
    assert a[off..off + 4] == ports;
    assert a[off + 4..off + 14] == [0, 0, 0, 0, 0, 0, 0, 0, 0x50 + old(a[off + 12]) % 0x10, 0];
    Join(a, off, off + 4, off + 14);
  }

  /** All TCP fields the builder assigns; `check` is left zero. */
  method WriteTcpHeader(a: array<Byte>, off: nat)
    requires off + TCP_HLEN <= a.Length
    modifies a
    ensures a[off..off + TCP_HLEN] == TcpHeader(old(a[off + 12]) % 0x10, old(a[off + 18..off + 20]))
    ensures SameOutside(old(a[..]), a[..], off, TCP_HLEN)
  {
    WriteTcpFront(a, off);
    ghost var front := a[off..off + 14];
    CopyBytes(a, off + 14, Store(BigEndian, 4096));
    CopyBytes(a, off + 16, [0, 0]);           // check
    assert a[off..off + 14] == front && a[off + 18..off + 20] == old(a[off + 18..off + 20]);
    assert a[off + 14..off + 16] == Store(BigEndian, 4096) && a[off + 16..off + 18] == [0, 0];
    Join(a, off, off + 14, off + 16);
    Join(a, off, off + 16, off + 18);
    Join(a, off, off + 18, off + 20);
  }

  lemma TwoPartSum(order: ByteOrder, head: seq<Byte>, tail: seq<Byte>)
    requires |head| % 2 == 0 && |head| + |tail| <= 0x2_0002
    ensures Add32(Add32(0, WordSum(order, head)), WordSum(order, tail)) == WordSum(order, head + tail)
  {
    WordSumConcat(order, head, tail);
    WordSumBound(order, head + tail);
    assert 0xFFFF * ((|head + tail| + 1) / 2) <= 0xFFFF * 0x1_0001;
    AddSmall(0, WordSum(order, head));
    AddSmall(WordSum(order, head), WordSum(order, tail));
  }

  lemma AddSmall(a: nat, b: nat)
    requires a + b < ACC_MODULUS
    ensures Add32(a, b) == a + b
  {}

  /** `tcp_v4_check`: the pseudo-header with the given length, then the n bytes of the segment. */
  method TcpV4Check(order: ByteOrder, a: array<Byte>, off: nat, n: nat, saddr: Ipv4, daddr: Ipv4, length: Word16)
    returns (c: Word16, ghost words: nat)
    requires off + n <= a.Length && n <= 0xFFFF
    ensures c == TcpChecksum(order, saddr, daddr, length, a[off..off + n])
    ensures words == WordSum(BigEndian, saddr) + WordSum(BigEndian, daddr) + 6 + length + WordSum(BigEndian, a[off..off + n])
    ensures c == if order.BigEndian? then Complement(Residue(words)) else Swap(Complement(Residue(words)))
  {
    var pseudo := new Byte[12];
    CopyBytes(pseudo, 0, PseudoHeader(saddr, daddr, length));
    assert pseudo[0..0 + 12] == PseudoHeader(saddr, daddr, length);
    var sum := Accumulate(order, pseudo, 0, 12, 0);
    sum := Accumulate(order, a, off, n, sum);
    TwoPartSum(order, PseudoHeader(saddr, daddr, length), a[off..off + n]);
    var r := Fold(sum);
    c := Complement(r);
    words := WordSum(BigEndian, saddr) + WordSum(BigEndian, daddr) + 6 + length + WordSum(BigEndian, a[off..off + n]);
    TcpChecksumInNumbers(order, saddr, daddr, length, a[off..off + n], words);
  }
}
