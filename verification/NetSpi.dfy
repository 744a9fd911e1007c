/** netSpi.c: the frame built around a temperature read over SPI. */
module NetSpi {
  import opened OnesComplement
  import opened InternetChecksum
  import opened Headers
  import opened Ownership

  const PACKET_SIZE := 100
  const PAYLOAD_SIZE := 4
  const FRAME_SIZE := ETH_HLEN + IP_HLEN + TCP_HLEN + PAYLOAD_SIZE
  const DESTINATION: Ipv4 := [10, 0, 0, 2]

  datatype Transfer = NoData | Data(bytes: seq<Byte>)

  /** A socket buffer: fresh memory of unknown content, filled from the front by `put`. */
  class SkBuff {
    const data: array<Byte>
    var len: nat

    ghost predicate Valid()
      reads this
    {
      len <= data.Length
    }

    constructor (size: nat)
      ensures Valid() && len == 0 && data.Length == size && fresh(data)
    {
      data := new Byte[size];
      len := 0;
    }

    /** Hands out the slice right behind the ones handed out so far; overrunning the
        buffer is a kernel panic, so callers must stay inside it. */
    method Put(n: nat) returns (off: nat)
      requires Valid() && len + n <= data.Length
      modifies this`len
      ensures Valid() && off == old(len) && len == off + n
    {
      off := len;
      len := len + n;
    }
  }

  /** The TCP header and payload before the checksum. `reserved` and `urgent` are the bits
      the builder leaves as it found them. */
  function Segment(reserved: Byte, urgent: seq<Byte>, payload: seq<Byte>): (s: seq<Byte>)
    requires reserved < 0x10 && |urgent| == 2
    ensures |s| == TCP_HLEN + |payload| && s[16] == 0 && s[17] == 0
  {
    TcpHeader(reserved, urgent) + payload
  }

  /** The whole frame, for a given length argument to the TCP checksum. */
  function Frame(order: ByteOrder, source: Mac, saddr: Ipv4, reserved: Byte, urgent: seq<Byte>,
                 payload: seq<Byte>, length: Word16): (f: seq<Byte>)
    requires reserved < 0x10 && |urgent| == 2 && IP_HLEN + TCP_HLEN + |payload| <= 0xFFFF
    ensures |f| == ETH_HLEN + IP_HLEN + TCP_HLEN + |payload|
  {
    EthernetHeader(BROADCAST, source)
      + FilledIpv4Header(order, IP_HLEN + TCP_HLEN + |payload|, IPPROTO_TCP, saddr, DESTINATION)
      + FilledSegment(order, saddr, DESTINATION, length, Segment(reserved, urgent, payload))
  }

  /** Ethernet and IPv4 headers, in the first two slices. */
  method BuildHeaders(order: ByteOrder, skb: SkBuff, source: Mac, saddr: Ipv4)
    requires skb.Valid() && skb.len == 0 && skb.data.Length == PACKET_SIZE
    modifies skb, skb.data
    ensures skb.Valid() && skb.len == ETH_HLEN + IP_HLEN
    ensures skb.data[..skb.len] == EthernetHeader(BROADCAST, source)
      + FilledIpv4Header(order, IP_HLEN + TCP_HLEN + PAYLOAD_SIZE, IPPROTO_TCP, saddr, DESTINATION)
    ensures forall i :: skb.len <= i < PACKET_SIZE ==> skb.data[i] == old(skb.data[i])
  {
    var a := skb.data;
    var eth := skb.Put(ETH_HLEN);
    WriteEthernetHeader(a, eth, BROADCAST, source);
    ghost var first := a[..];
    var ip := skb.Put(IP_HLEN);
    WriteIpv4Header(order, a, ip, IP_HLEN + TCP_HLEN + PAYLOAD_SIZE, IPPROTO_TCP, saddr, DESTINATION);
    assert a[..ip] == first[..ip];
    Join(a, 0, ip, skb.len);
    forall i | skb.len <= i < PACKET_SIZE
      ensures a[i] == old(a[i])
    {
      assert a[i] == a[..][i] == first[i] == old(a[..])[i];
    }
  }

  /** TCP header and payload, in the next two slices; the checksum is filled in last, over
      the whole segment but with the length argument the code passes: that of the frame. */
  method BuildSegment(order: ByteOrder, skb: SkBuff, saddr: Ipv4, payload: seq<Byte>)
    requires skb.Valid() && skb.len == ETH_HLEN + IP_HLEN && skb.data.Length == PACKET_SIZE
    requires |payload| == PAYLOAD_SIZE
    modifies skb, skb.data
    ensures skb.Valid() && skb.len == FRAME_SIZE
    ensures skb.data[old(skb.len)..skb.len]
         == FilledSegment(order, saddr, DESTINATION, FRAME_SIZE,
                          Segment(old(skb.data[46]) % 0x10, old(skb.data[52..54]), payload))
    ensures forall i :: 0 <= i < PACKET_SIZE && !(ETH_HLEN + IP_HLEN <= i < FRAME_SIZE) ==> skb.data[i] == old(skb.data[i])
  {
    var a := skb.data;
    var tcp := skb.Put(TCP_HLEN);
    WriteTcpHeader(a, tcp);
    ghost var header := a[..];
    var body := skb.Put(PAYLOAD_SIZE);
    CopyBytes(a, body, payload);
    ghost var segment := Segment(old(skb.data[46]) % 0x10, old(skb.data[52..54]), payload);
    assert a[tcp..body] == header[tcp..body];
    Join(a, tcp, body, skb.len);
    assert a[tcp..skb.len] == segment;
    var c, _ := TcpV4Check(order, a, tcp, skb.len - tcp, saddr, DESTINATION, skb.len);
    FillChecksum(order, a, tcp, skb.len - tcp, 16, c);
    forall i | 0 <= i < PACKET_SIZE && !(tcp <= i < FRAME_SIZE)
      ensures a[i] == old(a[i])
    {
      assert a[i] == header[i] == old(a[..])[i];
    }
  }

  /** The frame as a receiver finds it, byte by byte but for the two checksums. */
  lemma FrameBytes(order: ByteOrder, source: Mac, saddr: Ipv4, reserved: Byte, urgent: seq<Byte>, payload: seq<Byte>)
    requires reserved < 0x10 && |urgent| == 2 && |payload| == 4
    ensures var f := Frame(order, source, saddr, reserved, urgent, payload, FRAME_SIZE);
            && f[0..14] == [0xFF, 0xFF, 0xFF, 0xFF, 0xFF, 0xFF] + source + [0x08, 0x00]
            && f[14..16] == [0x45, 0x00] && f[16..18] == (if order.BigEndian? then [0, 44] else [44, 0])
            && f[18..24] == [0, 0, 0, 0, 64, 6] && f[26..30] == saddr && f[30..34] == [10, 0, 0, 2]
            && f[34..46] == [0x04, 0xD2, 0x16, 0x2E, 0, 0, 0, 0, 0, 0, 0, 0]
            && f[46..50] == [0x50 + reserved, 0x00, 0x10, 0x00] && f[52..54] == urgent && f[54..58] == payload
  {
    var f := Frame(order, source, saddr, reserved, urgent, payload, FRAME_SIZE);
    FrameParts(order, source, saddr, reserved, urgent, payload);
    IpBytes(order, saddr, f);
    SegmentBytes(order, saddr, reserved, urgent, payload);
    SubSlice(f, 34, 58, 0, 12);
    SubSlice(f, 34, 58, 12, 16);
    SubSlice(f, 34, 58, 18, 20);
    SubSlice(f, 34, 58, 20, 24);
  }

  lemma IpBytes(order: ByteOrder, saddr: Ipv4, f: seq<Byte>)
    requires |f| == 58 && f[14..34] == FilledIpv4Header(order, 44, IPPROTO_TCP, saddr, DESTINATION)
    ensures f[14..16] == [0x45, 0x00] && f[16..18] == if order.BigEndian? then [0, 44] else [44, 0]
    ensures f[18..24] == [0, 0, 0, 0, 64, 6] && f[26..30] == saddr && f[30..34] == [10, 0, 0, 2]
  {
    Ipv4Bytes(order, 44, IPPROTO_TCP, saddr, DESTINATION);
    SubSlice(f, 14, 34, 0, 2);
    SubSlice(f, 14, 34, 2, 4);
    SubSlice(f, 14, 34, 4, 10);
    SubSlice(f, 14, 34, 12, 16);
    SubSlice(f, 14, 34, 16, 20);
  }

  lemma FrameParts(order: ByteOrder, source: Mac, saddr: Ipv4, reserved: Byte, urgent: seq<Byte>, payload: seq<Byte>)
    requires reserved < 0x10 && |urgent| == 2 && |payload| == 4
    ensures var f := Frame(order, source, saddr, reserved, urgent, payload, FRAME_SIZE);
            && f[0..14] == EthernetHeader(BROADCAST, source)
            && f[14..34] == FilledIpv4Header(order, 44, IPPROTO_TCP, saddr, DESTINATION)
            && f[34..58] == FilledSegment(order, saddr, DESTINATION, FRAME_SIZE, Segment(reserved, urgent, payload))
  {}

  lemma SegmentBytes(order: ByteOrder, saddr: Ipv4, reserved: Byte, urgent: seq<Byte>, payload: seq<Byte>)
    requires reserved < 0x10 && |urgent| == 2 && |payload| == 4
    ensures var s := FilledSegment(order, saddr, DESTINATION, FRAME_SIZE, Segment(reserved, urgent, payload));
            && s[0..12] == [0x04, 0xD2, 0x16, 0x2E, 0, 0, 0, 0, 0, 0, 0, 0]
            && s[12..16] == [0x50 + reserved, 0x00, 0x10, 0x00] && s[18..20] == urgent && s[20..24] == payload
  {
    var h, b := TcpHeader(reserved, urgent), Segment(reserved, urgent, payload);
    var s := FilledSegment(order, saddr, DESTINATION, FRAME_SIZE, b);
    TcpBytes(reserved, urgent);
    assert s[0..12] == b[0..12] == h[0..12] && s[12..16] == b[12..16] == h[12..18][0..4];
    assert s[18..20] == b[18..20] == h[18..20] && s[20..24] == b[20..24] == payload;
  }

  /** The two checksums of the frame the driver sends, as a receiver loads them: sums of the
      words around them in network order, the second one with the length 58 of the frame. */
  lemma FrameChecksums(order: ByteOrder, source: Mac, saddr: Ipv4, reserved: Byte, urgent: seq<Byte>, payload: seq<Byte>,
                       ip: nat, tcp: nat)
    requires reserved < 0x10 && |urgent| == 2 && |payload| == 4
    requires ip == 0x4500 + (if order.BigEndian? then 44 else 0x2C00) + 0x4006 + WordSum(BigEndian, saddr) + 0x0A02
    requires tcp == WordSum(BigEndian, saddr) + 0x0A02 + 6 + 58
                    + 0x04D2 + 0x162E + 0x5000 + 0x100 * reserved + 0x1000 + Load(BigEndian, urgent[0], urgent[1])
                    + Load(BigEndian, payload[0], payload[1]) + Load(BigEndian, payload[2], payload[3])
    ensures var f := Frame(order, source, saddr, reserved, urgent, payload, FRAME_SIZE);
            && Load(BigEndian, f[24], f[25]) == Complement(Residue(ip))
            && Load(BigEndian, f[50], f[51]) == Complement(Residue(tcp))
  {
    FrameParts(order, source, saddr, reserved, urgent, payload);
    DestinationWords();
    Ipv4ChecksumInNumbers(order, 44, IPPROTO_TCP, saddr, DESTINATION, ip);
    FrameSegmentWords(reserved, urgent, payload);
    FrameTcpChecksum(order, saddr, Segment(reserved, urgent, payload), tcp);
    var f := Frame(order, source, saddr, reserved, urgent, payload, FRAME_SIZE);
    assert f[24] == f[14..34][10] && f[25] == f[14..34][11] && f[50] == f[34..58][16] && f[51] == f[34..58][17];
  }

  /** For 10.0.0.1, a temperature of 0 and clean memory the stored TCP checksum is 0x70BC. */
  lemma ChecksumExample(order: ByteOrder, source: Mac)
    ensures var f := Frame(order, source, [10, 0, 0, 1], 0, [0, 0], [0, 0, 0, 0], FRAME_SIZE);
            f[50] == 0x70 && f[51] == 0xBC
  {
    var saddr: Ipv4 := [10, 0, 0, 1];
    var f := Frame(order, source, saddr, 0, [0, 0], [0, 0, 0, 0], FRAME_SIZE);
    FourBytes(BigEndian, 10, 0, 0, 1);
    FrameChecksums(order, source, saddr, 0, [0, 0], [0, 0, 0, 0],
                   0x4500 + (if order.BigEndian? then 44 else 0x2C00) + 0x4006 + 0x0A01 + 0x0A02, 0x8F43);
    Digits(0x70BC, f[50], f[51]);
  }

  lemma FrameTcpChecksum(order: ByteOrder, saddr: Ipv4, segment: seq<Byte>, words: nat)
    requires |segment| >= TCP_HLEN
    requires words == WordSum(BigEndian, saddr) + 0x0A02 + 6 + 58 + WordSum(BigEndian, segment)
    ensures var s := FilledSegment(order, saddr, DESTINATION, FRAME_SIZE, segment);
            Load(BigEndian, s[16], s[17]) == Complement(Residue(words))
  {
    var s := FilledSegment(order, saddr, DESTINATION, FRAME_SIZE, segment);
    DestinationWords();
    TcpChecksumInNumbers(order, saddr, DESTINATION, FRAME_SIZE, segment, words);
    LoadSwapped(order, s[16], s[17]);
    SwapTwice(Complement(Residue(words)));
  }

  lemma DestinationWords()
    ensures WordSum(BigEndian, DESTINATION) == 0x0A02
  {
    FourBytes(BigEndian, 10, 0, 0, 2);
  }

  lemma FrameSegmentWords(reserved: Byte, urgent: seq<Byte>, payload: seq<Byte>)
    requires reserved < 0x10 && |urgent| == 2 && |payload| == 4
    ensures WordSum(BigEndian, Segment(reserved, urgent, payload))
         == 0x04D2 + 0x162E + 0x5000 + 0x100 * reserved + 0x1000 + Load(BigEndian, urgent[0], urgent[1])
            + Load(BigEndian, payload[0], payload[1]) + Load(BigEndian, payload[2], payload[3])
  {
    WordSumConcat(BigEndian, TcpHeader(reserved, urgent), payload);
    TcpWords(reserved, urgent);
    FourBytes(BigEndian, payload[0], payload[1], payload[2], payload[3]);
    assert payload == [payload[0], payload[1], payload[2], payload[3]];
  }

  /** Lays the frame out slice by slice. Each slice starts where the last one ended, and
      writing it leaves the earlier ones alone; the memory behind the frame is untouched. */
  method BuildFrame(order: ByteOrder, skb: SkBuff, source: Mac, saddr: Ipv4, payload: seq<Byte>)
    requires skb.Valid() && skb.len == 0 && skb.data.Length == PACKET_SIZE && |payload| == PAYLOAD_SIZE
    modifies skb, skb.data
    ensures skb.Valid() && skb.len == FRAME_SIZE
    ensures skb.data[..FRAME_SIZE] == Frame(order, source, saddr, old(skb.data[46]) % 0x10, old(skb.data[52..54]),
                                            payload, FRAME_SIZE)
    ensures skb.data.Length == 100 && skb.data[58..] == old(skb.data[58..])
    ensures var f := skb.data[..58];
            && f[0..14] == [0xFF, 0xFF, 0xFF, 0xFF, 0xFF, 0xFF] + source + [0x08, 0x00]
            && f[14..16] == [0x45, 0x00] && f[16..18] == (if order.BigEndian? then [0, 44] else [44, 0])
            && f[18..24] == [0, 0, 0, 0, 64, 6] && f[26..30] == saddr && f[30..34] == [10, 0, 0, 2]
            && f[34..46] == [0x04, 0xD2, 0x16, 0x2E, 0, 0, 0, 0, 0, 0, 0, 0]
            && f[46..50] == [0x50 + old(skb.data[46]) % 0x10, 0x00, 0x10, 0x00]
            && f[52..54] == old(skb.data[52..54]) && f[54..58] == payload
  {
    ghost var reserved, urgent := skb.data[46] % 0x10, skb.data[52..54];
    BuildHeaders(order, skb, source, saddr);
    ghost var headers := skb.data[..skb.len];
    assert skb.data[52..54] == old(skb.data[52..54]);
    BuildSegment(order, skb, saddr, payload);
    assert skb.data[..ETH_HLEN + IP_HLEN] == headers;
    Join(skb.data, 0, ETH_HLEN + IP_HLEN, FRAME_SIZE);
    FrameBytes(order, source, saddr, reserved, urgent, payload);
  }

  /** The IPv4 header checksum of every frame is accepted; that of its TCP segment exactly
      when the length handed to the checksum is the segment's. */
  lemma FrameVerdicts(order: ByteOrder, reader: ByteOrder, source: Mac, saddr: Ipv4, reserved: Byte,
                      urgent: seq<Byte>, payload: seq<Byte>, length: Word16)
    requires reserved < 0x10 && |urgent| == 2 && IP_HLEN + TCP_HLEN + |payload| <= 0xFFFF
    ensures var f := Frame(order, source, saddr, reserved, urgent, payload, length);
            && Verifies(reader, f[14..34])
            && (SegmentVerifies(reader, saddr, DESTINATION, f[34..]) <==> length == TCP_HLEN + |payload|)
  {
    var f := Frame(order, source, saddr, reserved, urgent, payload, length);
    var segment := Segment(reserved, urgent, payload);
    assert f[14..34] == FilledIpv4Header(order, IP_HLEN + TCP_HLEN + |payload|, IPPROTO_TCP, saddr, DESTINATION);
    assert f[34..] == FilledSegment(order, saddr, DESTINATION, length, segment);
    Ipv4HeaderVerifies(order, reader, IP_HLEN + TCP_HLEN + |payload|, IPPROTO_TCP, saddr, DESTINATION);
    SegmentVerifiesIffLengthIsItsOwn(order, reader, saddr, DESTINATION, length, segment);
  }

  /** What the driver sends: the length it passes is the frame's, so whatever the
      temperature, the address and the leftover memory, no receiver accepts the segment. */
  lemma SentSegmentIsRejected(order: ByteOrder, reader: ByteOrder, source: Mac, saddr: Ipv4, reserved: Byte,
                              urgent: seq<Byte>, payload: seq<Byte>)
    requires reserved < 0x10 && |urgent| == 2 && |payload| == PAYLOAD_SIZE
    ensures var f := Frame(order, source, saddr, reserved, urgent, payload, FRAME_SIZE);
            Verifies(reader, f[14..34]) && !SegmentVerifies(reader, saddr, DESTINATION, f[34..])
  {
    FrameVerdicts(order, reader, source, saddr, reserved, urgent, payload, FRAME_SIZE);
  }

  /** The length in the IPv4 header of a frame is read as the length of what follows the
      Ethernet header only if the machine that built it is big-endian, or the two bytes of
      that length happen to be equal. */
  lemma FrameLengthAsReceived(order: ByteOrder, source: Mac, saddr: Ipv4, reserved: Byte, urgent: seq<Byte>,
                              payload: seq<Byte>, length: Word16)
    requires reserved < 0x10 && |urgent| == 2 && IP_HLEN + TCP_HLEN + |payload| <= 0xFFFF
    ensures var f := Frame(order, source, saddr, reserved, urgent, payload, length);
            var n := |f| - ETH_HLEN;
            Load(BigEndian, f[16], f[17]) == n <==> order.BigEndian? || n / 0x100 == n % 0x100
  {
    var f := Frame(order, source, saddr, reserved, urgent, payload, length);
    var h := FilledIpv4Header(order, IP_HLEN + TCP_HLEN + |payload|, IPPROTO_TCP, saddr, DESTINATION);
    assert f[16] == f[14..34][2] && f[17] == f[14..34][3] && f[14..34] == h;
    TotalLengthAsReceived(order, IP_HLEN + TCP_HLEN + |payload|, IPPROTO_TCP, saddr, DESTINATION);
  }

  /** What the driver sends: 44 bytes follow the Ethernet header, and on a little-endian
      machine every receiver reads 11264. */
  lemma SentLengthIsMisread(order: ByteOrder, source: Mac, saddr: Ipv4, reserved: Byte, urgent: seq<Byte>,
                            payload: seq<Byte>)
    requires reserved < 0x10 && |urgent| == 2 && |payload| == PAYLOAD_SIZE
    ensures var f := Frame(order, source, saddr, reserved, urgent, payload, FRAME_SIZE);
            |f| - ETH_HLEN == 44 && Load(BigEndian, f[16], f[17]) == if order.BigEndian? then 44 else 11264
  {
    var f := Frame(order, source, saddr, reserved, urgent, payload, FRAME_SIZE);
    var h := FilledIpv4Header(order, 44, IPPROTO_TCP, saddr, DESTINATION);
    assert f[16] == f[14..34][2] && f[17] == f[14..34][3] && f[14..34] == h;
    TotalLengthAsReceived(order, 44, IPPROTO_TCP, saddr, DESTINATION);
  }

  ghost predicate IsFrame(order: ByteOrder, source: Mac, saddr: Ipv4, payload: seq<Byte>, f: seq<Byte>)
    requires |payload| == PAYLOAD_SIZE
  {
    exists reserved: Byte, urgent: seq<Byte> ::
      reserved < 0x10 && |urgent| == 2 && f == Frame(order, source, saddr, reserved, urgent, payload, FRAME_SIZE)
  }

  lemma FrameIsFrame(order: ByteOrder, source: Mac, saddr: Ipv4, payload: seq<Byte>, reserved: Byte, urgent: seq<Byte>)
    requires |payload| == PAYLOAD_SIZE && reserved < 0x10 && |urgent| == 2
    ensures IsFrame(order, source, saddr, payload, Frame(order, source, saddr, reserved, urgent, payload, FRAME_SIZE))
  {}

  /** A new socket buffer with a frame in it, whatever its memory held before. */
  method NewFrame(order: ByteOrder, source: Mac, saddr: Ipv4, payload: seq<Byte>) returns (skb: SkBuff)
    requires |payload| == PAYLOAD_SIZE
    ensures fresh(skb) && skb.len == FRAME_SIZE && skb.data.Length == PACKET_SIZE
    ensures IsFrame(order, source, saddr, payload, skb.data[..FRAME_SIZE])
    ensures skb.data[..58][54..58] == payload
  {
    skb := new SkBuff(PACKET_SIZE);
    ghost var reserved, urgent := skb.data[46] % 0x10, skb.data[52..54];
    BuildFrame(order, skb, source, saddr, payload);
    FrameIsFrame(order, source, saddr, payload, reserved, urgent);
  }

  predicate Delivers(transfer: Transfer, allocates: bool) {
    transfer.Data? && allocates
  }

  function One(b: bool): nat {
    if b then 1 else 0
  }

  function JustIf(b: bool, h: Handle): (hs: seq<Handle>)
    ensures |hs| == One(b)
  {
    if b then [h] else []
  }

  /** `my_netdev_rx`. The temperature is loaded and stored as a native integer, so the
      payload is the first four bytes of the transfer. The buffer the caller passed in is
      not an argument here because the code never touches it. */
  method MyNetdevRx(ledger: Ledger, order: ByteOrder, transfer: Transfer, allocates: bool, source: Mac, saddr: Ipv4)
    returns (verdict: Verdict, queued: SkBuff?)
    requires ledger.Valid()
    requires transfer.Data? ==> |transfer.bytes| == DATA_SIZE
    modifies ledger
    ensures ledger.Valid() && ledger.live == old(ledger.live)
    ensures verdict == Success <==> transfer.Data? && allocates
    ensures match transfer
      case NoData => ledger.next == old(ledger.next) && ledger.freed == old(ledger.freed) && ledger.sent == old(ledger.sent)
      case Data(_) =>
        && ledger.freed == old(ledger.freed) + multiset{old(ledger.next)}
        && ledger.next == old(ledger.next) + (if allocates then 2 else 1)
        && ledger.sent == old(ledger.sent) + if allocates then multiset{old(ledger.next) + 1} else multiset{}
    ensures ledger.freed == old(ledger.freed) + multiset(JustIf(transfer.Data?, old(ledger.next)))
    ensures ledger.sent == old(ledger.sent) + multiset(JustIf(Delivers(transfer, allocates), old(ledger.next) + 1))
    ensures ledger.next == old(ledger.next) + One(transfer.Data?) + One(Delivers(transfer, allocates))
    ensures verdict == Success <==> queued != null
    ensures queued != null ==> fresh(queued) && queued.len == FRAME_SIZE && queued.data.Length == PACKET_SIZE
                               && IsFrame(order, source, saddr, transfer.bytes[..PAYLOAD_SIZE], queued.data[..FRAME_SIZE])
                               && queued.data[..58][54..58] == transfer.bytes[..4]
  {
    queued := null;
    if transfer.NoData? {
      return Drop, null;
    }
    var spiData := ledger.Alloc();
    if !allocates {
      ledger.Free(spiData);
      return Drop, null;
    }
    var newSkb := ledger.Alloc();
    queued := NewFrame(order, source, saddr, transfer.bytes[..PAYLOAD_SIZE]);
    ledger.HandOff(newSkb);
    ledger.Free(spiData);
    verdict := Success;
  }

  function Deliveries(inputs: seq<(Transfer, bool)>): nat {
    if inputs == [] then 0
    else Deliveries(inputs[..|inputs| - 1]) + One(Delivers(inputs[|inputs| - 1].0, inputs[|inputs| - 1].1))
  }

  function Transfers(inputs: seq<(Transfer, bool)>): nat {
    if inputs == [] then 0
    else Transfers(inputs[..|inputs| - 1]) + One(inputs[|inputs| - 1].0.Data?)
  }

  /** `now` is `was` with the handles hs added. */
  ghost predicate Grown(was: multiset<Handle>, hs: seq<Handle>, now: multiset<Handle>) {
    now == was + multiset(hs)
  }

  lemma GrowMore(was: multiset<Handle>, hs: seq<Handle>, now: multiset<Handle>, more: seq<Handle>)
    requires Grown(was, hs, now)
    ensures Grown(was, hs + more, now + multiset(more))
  {}

  lemma Extend(inputs: seq<(Transfer, bool)>, i: nat)
    requires i < |inputs|
    ensures Transfers(inputs[..i + 1]) == Transfers(inputs[..i]) + One(inputs[i].0.Data?)
    ensures Deliveries(inputs[..i + 1]) == Deliveries(inputs[..i]) + One(Delivers(inputs[i].0, inputs[i].1))
  {
    assert inputs[..i + 1][..i] == inputs[..i];
  }

  /** A ledger that was in order before and after, with the same buffers live: what was
      released in between is exactly what was allocated in between. */
  lemma Settled(first: Handle, next: Handle, live: set<Handle>, freed: multiset<Handle>, sent: multiset<Handle>,
                freed': multiset<Handle>, sent': multiset<Handle>, transfers: seq<Handle>, queued: seq<Handle>)
    requires forall h: Handle :: InOrder(h, first, live, freed, sent) && InOrder(h, next, live, freed', sent')
    requires forall h <- live :: h < first
    requires first <= next && Grown(freed, transfers, freed') && Grown(sent, queued, sent')
    ensures forall h <- transfers :: freed'[h] == 1 && sent'[h] == 0
    ensures forall h <- queued :: sent'[h] == 1 && freed'[h] == 0
    ensures forall h :: first <= h < next <==> h in transfers || h in queued
  {
    forall h: Handle
      ensures h in transfers ==> freed'[h] == 1 && sent'[h] == 0
      ensures h in queued ==> sent'[h] == 1 && freed'[h] == 0
      ensures first <= h < next <==> h in transfers || h in queued
    {
      assert InOrder(h, first, live, freed, sent) && InOrder(h, next, live, freed', sent');
      assert freed'[h] == freed[h] + multiset(transfers)[h] && sent'[h] == sent[h] + multiset(queued)[h];
      assert (h in transfers <==> multiset(transfers)[h] > 0) && (h in queued <==> multiset(queued)[h] > 0);
    }
  }

  /** Over every run of receptions and every pattern of failures: each reception that got
      its data allocated one transfer buffer, which was freed exactly once and never sent;
      each that also got its memory allocated one socket buffer, which was handed off
      exactly once and never freed; nothing else was allocated, and nothing stays live. */
  method RxRun(ledger: Ledger, order: ByteOrder, inputs: seq<(Transfer, bool)>, source: Mac, saddr: Ipv4)
    returns (ghost transfers: seq<Handle>, ghost queued: seq<Handle>)
    requires ledger.Valid()
    requires forall input <- inputs :: input.0.Data? ==> |input.0.bytes| == DATA_SIZE
    modifies ledger
    ensures ledger.Valid() && ledger.live == old(ledger.live)
    ensures |transfers| == Transfers(inputs) && |queued| == Deliveries(inputs)
    ensures ledger.next == old(ledger.next) + |transfers| + |queued|
    ensures forall h :: old(ledger.next) <= h < ledger.next <==> h in transfers || h in queued
    ensures ledger.freed == old(ledger.freed) + multiset(transfers)
    ensures ledger.sent == old(ledger.sent) + multiset(queued)
    ensures forall h <- transfers :: ledger.freed[h] == 1 && ledger.sent[h] == 0
    ensures forall h <- queued :: ledger.sent[h] == 1 && ledger.freed[h] == 0
  {
    transfers, queued := [], [];
    ghost var first, live, freed, sent := ledger.next, ledger.live, ledger.freed, ledger.sent;
    for i := 0 to |inputs|
      invariant Booked(ledger, first, live, freed, sent, transfers, queued)
      invariant |transfers| == Transfers(inputs[..i]) && |queued| == Deliveries(inputs[..i])
    {
      Extend(inputs, i);
      transfers, queued := RxStep(ledger, order, inputs[i], source, saddr, first, live, freed, sent, transfers, queued);
    }
    assert inputs[..|inputs|] == inputs;
    Settled(first, ledger.next, live, freed, sent, ledger.freed, ledger.sent, transfers, queued);
  }

  /** The ledger in the middle of a run that began with the given next handle and contents. */
  ghost predicate Booked(ledger: Ledger, first: Handle, live: set<Handle>, freed: multiset<Handle>, sent: multiset<Handle>,
                         transfers: seq<Handle>, queued: seq<Handle>)
    reads ledger
  {
    && ledger.Valid() && ledger.live == live
    && ledger.next == first + |transfers| + |queued|
    && Grown(freed, transfers, ledger.freed) && Grown(sent, queued, ledger.sent)
  }

  /** One reception of a run. */
  method RxStep(ledger: Ledger, order: ByteOrder, input: (Transfer, bool), source: Mac, saddr: Ipv4,
                ghost first: Handle, ghost live: set<Handle>, ghost freed: multiset<Handle>, ghost sent: multiset<Handle>,
                ghost before: seq<Handle>, ghost queue: seq<Handle>)
    returns (ghost transfers: seq<Handle>, ghost queued: seq<Handle>)
    requires Booked(ledger, first, live, freed, sent, before, queue)
    requires input.0.Data? ==> |input.0.bytes| == DATA_SIZE
    modifies ledger
    ensures Booked(ledger, first, live, freed, sent, transfers, queued)
    ensures |transfers| == |before| + One(input.0.Data?) && |queued| == |queue| + One(Delivers(input.0, input.1))
  {
    ghost var taken, handed := JustIf(input.0.Data?, ledger.next), JustIf(Delivers(input.0, input.1), ledger.next + 1);
    transfers, queued := before + taken, queue + handed;
    GrowMore(freed, before, ledger.freed, taken);
    GrowMore(sent, queue, ledger.sent, handed);
    var _, _ := MyNetdevRx(ledger, order, input.0, input.1, source, saddr);
  }
}
