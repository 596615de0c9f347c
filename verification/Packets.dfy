/**
 What the TUN device does with one packet: header decoding and the dispatch decision, against encoders
 written from the header layouts of RFC 791, RFC 768 and RFC 9293.
 */
module Packets {
  import opened Basics
  import opened DnsWire

  /** The TUN subnet: an address and a prefix length. */
  datatype Subnet = Subnet(base: IPv4, prefix: nat)

  /** The outbound effect a packet has; `Crash` is a slice expression out of range. */
  datatype Action =
    | Nothing
    | Dial(ip: IPv4, port: nat, payload: Bytes)
    | ForwardDns(payload: Bytes)
    | Crash

  function Number(ip: IPv4): nat {
    0x1_0000 * U16(ip[0], ip[1]) + U16(ip[2], ip[3])
  }

  /** `net.IPNet.Contains`. */
  predicate InSubnet(net: Subnet, ip: IPv4) {
    net.prefix <= 32 && Number(ip) / Pow2(32 - net.prefix) == Number(net.base) / Pow2(32 - net.prefix)
  }

  /** Destinations the device leaves alone: its own subnet and loopback. */
  predicate Skipped(net: Subnet, ip: IPv4) {
    InSubnet(net, ip) || ip[0] == 127
  }

  // ------------------------------------------------------------- addresses bit by bit

  /** The `k` lowest bits of a number, highest first. */
  function BitsOf(n: nat, k: nat): (r: seq<bool>)
    ensures |r| == k
  {
    if k == 0 then [] else BitsOf(n / 2, k - 1) + [n % 2 == 1]
  }

  function Bits(b: byte): (r: seq<bool>)
    ensures |r| == 8
  {
    BitsOf(b, 8)
  }

  function AddressBits(ip: IPv4): (r: seq<bool>)
    ensures |r| == 32
  {
    Bits(ip[0]) + Bits(ip[1]) + Bits(ip[2]) + Bits(ip[3])
  }

  /** The first bits of the address are those of the subnet. */
  predicate Inside(net: Subnet, ip: IPv4) {
    net.prefix <= 32 && AddressBits(ip)[..net.prefix] == AddressBits(net.base)[..net.prefix]
  }

  /** In the device's own subnet, or in 127.0.0.0/8. */
  predicate Avoided(net: Subnet, ip: IPv4) {
    Inside(net, ip) || AddressBits(ip)[..8] == [false, true, true, true, true, true, true, true]
  }

  function Num(bits: seq<bool>): nat {
    if bits == [] then 0 else 2 * Num(bits[..|bits| - 1]) + if bits[|bits| - 1] then 1 else 0
  }

  lemma {:induction false} NumBelow(bits: seq<bool>)
    ensures Num(bits) < Pow2(|bits|)
  {
    if bits != [] {
      NumBelow(bits[..|bits| - 1]);
    }
  }

  lemma DoubleTerm(n: nat, p: nat)
    ensures 2 * (n * p) == n * (2 * p)
  {
  }

  lemma {:induction false} NumAppend(x: seq<bool>, y: seq<bool>)
    ensures Num(x + y) == Num(x) * Pow2(|y|) + Num(y)
    decreases |y|
  {
    if y == [] {
      assert x + y == x;
    } else {
      var n := |y| - 1;
      assert (x + y)[..|x + y| - 1] == x + y[..n] && (x + y)[|x + y| - 1] == y[n];
      NumAppend(x, y[..n]);
      DoubleTerm(Num(x), Pow2(n));
    }
  }

  lemma {:induction false} NumTells(x: seq<bool>, y: seq<bool>)
    requires |x| == |y|
    ensures Num(x) == Num(y) <==> x == y
  {
    if x != [] {
      var n := |x| - 1;
      NumTells(x[..n], y[..n]);
      assert x == x[..n] + [x[n]] && y == y[..n] + [y[n]];
    }
  }

  lemma MulMonotone(x: nat, y: nat, p: nat)
    requires x <= y
    ensures x * p <= y * p
  {
  }

  lemma DivSplit(q: nat, p: nat, r: nat)
    requires r < p
    ensures (q * p + r) / p == q
  {
    var x := q * p + r;
    var d := x / p;
    assert (q + 1) * p == q * p + p && (d + 1) * p == d * p + p;
    assert d * p <= x < d * p + p;
    if d > q {
      MulMonotone(q + 1, d, p);
    } else if d < q {
      MulMonotone(d + 1, q, p);
    }
  }

  /** Dividing by a power of two keeps the first bits. */
  lemma FirstBits(bits: seq<bool>, k: nat)
    requires k <= |bits|
    ensures Num(bits) / Pow2(|bits| - k) == Num(bits[..k])
  {
    hide Num, Pow2;
    var x, y := bits[..k], bits[k..];
    assert bits == x + y;
    NumAppend(x, y);
    NumBelow(y);
    DivSplit(Num(x), Pow2(|y|), Num(y));
  }

  lemma {:induction false} NumOfBits(n: nat, k: nat)
    requires n < Pow2(k)
    ensures Num(BitsOf(n, k)) == n
  {
    if k > 0 {
      NumOfBits(n / 2, k - 1);
      assert BitsOf(n, k)[..k - 1] == BitsOf(n / 2, k - 1);
    }
  }

  lemma OctetBits(b: byte)
    ensures Num(Bits(b)) == b
  {
    assert Pow2(4) == 16;
    assert Pow2(8) == 256;
    hide Num, BitsOf;
    NumOfBits(b, 8);
  }

  lemma NumberOfBits(ip: IPv4)
    ensures Number(ip) == Num(AddressBits(ip))
  {
    hide Num, Bits;
    OctetBits(ip[0]);
    OctetBits(ip[1]);
    OctetBits(ip[2]);
    OctetBits(ip[3]);
    NumAppend(Bits(ip[0]), Bits(ip[1]));
    NumAppend(Bits(ip[0]) + Bits(ip[1]), Bits(ip[2]));
    NumAppend(Bits(ip[0]) + Bits(ip[1]) + Bits(ip[2]), Bits(ip[3]));
    assert Pow2(4) == 16;
    assert Pow2(8) == 256;
  }

  /** The address test of the program is the bit test. */
  lemma InSubnetByBits(net: Subnet, ip: IPv4)
    ensures InSubnet(net, ip) <==> Inside(net, ip)
  {
    if net.prefix <= 32 {
      NumberOfBits(ip);
      NumberOfBits(net.base);
      hide Num, AddressBits, Number, Pow2;
      FirstBits(AddressBits(ip), net.prefix);
      FirstBits(AddressBits(net.base), net.prefix);
      NumTells(AddressBits(ip)[..net.prefix], AddressBits(net.base)[..net.prefix]);
    }
  }

  lemma LoopbackByBits(ip: IPv4)
    ensures ip[0] == 127 <==> AddressBits(ip)[..8] == [false, true, true, true, true, true, true, true]
  {
    assert AddressBits(ip)[..8] == Bits(ip[0]);
    OctetBits(ip[0]);
    Loopback();
    hide Num, Bits;
    NumTells(Bits(ip[0]), [false, true, true, true, true, true, true, true]);
  }

  lemma Loopback()
    ensures Num([false, true, true, true, true, true, true, true]) == 127
  {
    var bits := [false, true, true, true, true, true, true, true];
    assert Num(bits[..4]) == 7 by {
      assert bits[..4] == [false, true, true, true];
      assert Num([false]) == 0;
      assert Num([false, true]) == 1 by { assert [false, true][..1] == [false]; }
      assert Num([false, true, true]) == 3 by { assert [false, true, true][..2] == [false, true]; }
      assert [false, true, true, true][..3] == [false, true, true];
    }
    assert Num(bits[..5]) == 15 by { assert bits[..5][..4] == bits[..4]; }
    assert Num(bits[..6]) == 31 by { assert bits[..6][..5] == bits[..5]; }
    assert Num(bits[..7]) == 63 by { assert bits[..7][..6] == bits[..6]; }
  }

  lemma SkippedByBits(net: Subnet, ip: IPv4)
    ensures Skipped(net, ip) <==> Avoided(net, ip)
  {
    InSubnetByBits(net, ip);
    LoopbackByBits(ip);
    hide InSubnet, Inside, AddressBits;
  }

  // ---------------------------------------------------------------- the device

  /** SYN set; ACK, FIN and RST clear. */
  predicate OpensConnection(flags: byte) {
    flags / 2 % 2 == 1 && flags / 16 % 2 == 0 && flags % 2 == 0 && flags / 4 % 2 == 0
  }

  function HandleTCP(pkt: Bytes, ipHdrLen: nat, dst: IPv4): Action
    requires |pkt| >= ipHdrLen + 20
  {
    var dstPort := U16(pkt[ipHdrLen + 2], pkt[ipHdrLen + 3]);
    var flags := pkt[ipHdrLen + 13];
    var tcpHdrLen := pkt[ipHdrLen + 12] / 16 * 4;
    var isSYN := flags / 2 % 2 != 0 && flags / 16 % 2 == 0;
    var isFIN := flags % 2 != 0;
    var isRST := flags / 4 % 2 != 0;
    if isFIN || isRST then Nothing
    else if !isSYN then Nothing
    else if ipHdrLen + tcpHdrLen > |pkt| then Crash
    else Dial(dst, dstPort, pkt[ipHdrLen + tcpHdrLen..])
  }

  function HandleUDP(pkt: Bytes, ipHdrLen: nat): Action
    requires |pkt| >= ipHdrLen + 8
  {
    var dstPort := U16(pkt[ipHdrLen + 2], pkt[ipHdrLen + 3]);
    if dstPort == 53 then ForwardDns(pkt[ipHdrLen + 8..]) else Nothing
  }

  function HandlePacket(pkt: Bytes, net: Subnet): Action {
    if |pkt| < 20 || pkt[0] / 16 != 4 then Nothing
    else
      var dst := pkt[16..20];
      if Skipped(net, dst) then Nothing
      else
        var ipHdrLen := pkt[0] % 16 * 4;
        match pkt[9]
        case 6 => if |pkt| < ipHdrLen + 20 then Nothing else HandleTCP(pkt, ipHdrLen, dst)
        case 17 => if |pkt| < ipHdrLen + 8 then Nothing else HandleUDP(pkt, ipHdrLen)
        case _ => Nothing
  }

  // --------------------------------------------------------------- the encoders

  /** Octet pairs and quads of a header; the device looks at none of the values but the named ones. */
  type Pair = s: Bytes | |s| == 2 witness [0, 0]
  type Quad = s: Bytes | |s| == 4 witness [0, 0, 0, 0]

  /** Section 3.1 of RFC 791: up to ten words of options make IHL 5 to 15. */
  datatype IpHeader = IpHeader(
    tos: byte, length: Pair, id: Pair, fragment: Pair, ttl: byte, checksum: Pair,
    src: IPv4, dst: IPv4, options: seq<Quad>)

  predicate IpOk(h: IpHeader) {
    |h.options| <= 10
  }

  function Flat(quads: seq<Quad>): (b: Bytes)
    ensures |b| == 4 * |quads|
  {
    if quads == [] then [] else quads[0] + Flat(quads[1..])
  }

  function EncodeIp(h: IpHeader, proto: byte, payload: Bytes): Bytes
    requires IpOk(h)
  {
    [0x40 + 5 + |h.options|, h.tos] + h.length + h.id + h.fragment + [h.ttl, proto] + h.checksum
    + h.src + h.dst + (Flat(h.options) + payload)
  }

  /** RFC 768. */
  datatype Udp = Udp(srcPort: Pair, dstPort: Pair, length: Pair, checksum: Pair, data: Bytes)

  function EncodeUdp(u: Udp): Bytes {
    u.srcPort + u.dstPort + u.length + u.checksum + u.data
  }

  /** The control bits of section 3.1 of RFC 9293, highest first. */
  datatype Control = Control(
    cwr: bool, ece: bool, urg: bool, ack: bool, psh: bool, rst: bool, syn: bool, fin: bool)

  function If(b: bool, n: nat): nat {
    if b then n else 0
  }

  function EncodeControl(c: Control): byte {
    If(c.cwr, 128) + If(c.ece, 64) + If(c.urg, 32) + If(c.ack, 16)
    + If(c.psh, 8) + If(c.rst, 4) + If(c.syn, 2) + If(c.fin, 1)
  }

  /** SYN alone of the bits that matter. */
  lemma OpensByControl(c: Control)
    ensures OpensConnection(EncodeControl(c)) <==> c.syn && !c.ack && !c.fin && !c.rst
  {
  }

  /** Section 3.1 of RFC 9293: up to ten words of options make a data offset of 5 to 15. */
  datatype Tcp = Tcp(
    srcPort: Pair, dstPort: Pair, seqNo: Quad, ackNo: Quad, reserved: byte, flags: Control,
    window: Pair, checksum: Pair, urgent: Pair, options: seq<Quad>, data: Bytes)

  predicate TcpOk(t: Tcp) {
    |t.options| <= 10 && t.reserved < 16
  }

  function EncodeTcp(t: Tcp): Bytes
    requires TcpOk(t)
  {
    t.srcPort + t.dstPort + t.seqNo + t.ackNo + [16 * (5 + |t.options|) + t.reserved, EncodeControl(t.flags)]
    + t.window + t.checksum + t.urgent + (Flat(t.options) + t.data)
  }

  // ---------------------------------------------------------------- round trips

  /** Where the device finds the pieces of an encoded packet. */
  lemma IpPieces(h: IpHeader, proto: byte, payload: Bytes)
    requires IpOk(h)
    ensures var pkt, n := EncodeIp(h, proto, payload), 4 * (5 + |h.options|);
            && |pkt| == n + |payload| && pkt[n..] == payload
            && pkt[0] / 16 == 4 && pkt[0] % 16 * 4 == n && pkt[9] == proto && pkt[16..20] == h.dst
  {
    var fixed := [0x40 + 5 + |h.options|, h.tos] + h.length + h.id + h.fragment + [h.ttl, proto] + h.checksum
    + h.src + h.dst;
    var pkt := EncodeIp(h, proto, payload);
    assert pkt == fixed + (Flat(h.options) + payload) && |fixed| == 20;
    assert pkt[16..20] == fixed[16..20] == h.dst;
    assert pkt[20 + 4 * |h.options|..] == payload;
  }

  lemma UdpPieces(u: Udp, pkt: Bytes, n: nat)
    requires n <= |pkt| && pkt[n..] == EncodeUdp(u)
    ensures |pkt| >= n + 8 && HandleUDP(pkt, n) == if u.dstPort == [0, 53] then ForwardDns(u.data) else Nothing
  {
    var body := pkt[n..];
    assert pkt[n + 2] == body[2] == u.dstPort[0] && pkt[n + 3] == body[3] == u.dstPort[1];
    assert pkt[n + 8..] == body[8..] == u.data;
  }

  lemma TcpPieces(t: Tcp, pkt: Bytes, n: nat, dst: IPv4)
    requires TcpOk(t) && n <= |pkt| && pkt[n..] == EncodeTcp(t)
    ensures |pkt| >= n + 20
    ensures HandleTCP(pkt, n, dst)
         == if t.flags.syn && !t.flags.ack && !t.flags.fin && !t.flags.rst
            then Dial(dst, 256 * (t.dstPort[0] as int) + t.dstPort[1], t.data) else Nothing
  {
    OpensByControl(t.flags);
    hide EncodeControl;
    var body := pkt[n..];
    var control := EncodeControl(t.flags);
    var fixed := t.srcPort + t.dstPort + t.seqNo + t.ackNo + [16 * (5 + |t.options|) + t.reserved, control]
    + t.window + t.checksum + t.urgent;
    assert body == fixed + (Flat(t.options) + t.data) && |fixed| == 20;
    assert pkt[n + 2] == fixed[2] == t.dstPort[0] && pkt[n + 3] == fixed[3] == t.dstPort[1];
    assert pkt[n + 12] == fixed[12] == 16 * (5 + |t.options|) + t.reserved;
    assert pkt[n + 13] == fixed[13] == EncodeControl(t.flags);
    var m := 4 * (5 + |t.options|);
    assert pkt[n + 12] / 16 * 4 == m;
    assert pkt[n + m..] == body[m..] == t.data;
  }

  /** A UDP datagram to port 53 is forwarded as exactly its data; every other one is dropped. */
  lemma {:induction false} UdpRoundTrip(h: IpHeader, u: Udp, net: Subnet)
    requires IpOk(h)
    ensures HandlePacket(EncodeIp(h, 17, EncodeUdp(u)), net)
         == if !Avoided(net, h.dst) && u.dstPort == [0, 53] then ForwardDns(u.data) else Nothing
  {
    SkippedByBits(net, h.dst);
    hide Skipped, Avoided, EncodeIp, EncodeUdp, HandleUDP;
    IpPieces(h, 17, EncodeUdp(u));
    UdpPieces(u, EncodeIp(h, 17, EncodeUdp(u)), 4 * (5 + |h.options|));
  }

  /** A TCP segment makes one dial, to its address and port with its data, iff it opens a connection. */
  lemma {:induction false} TcpRoundTrip(h: IpHeader, t: Tcp, net: Subnet)
    requires IpOk(h) && TcpOk(t)
    ensures HandlePacket(EncodeIp(h, 6, EncodeTcp(t)), net)
         == if !Avoided(net, h.dst) && t.flags.syn && !t.flags.ack && !t.flags.fin && !t.flags.rst
            then Dial(h.dst, 256 * (t.dstPort[0] as int) + t.dstPort[1], t.data) else Nothing
  {
    SkippedByBits(net, h.dst);
    hide Skipped, Avoided, EncodeIp, EncodeTcp, HandleTCP;
    IpPieces(h, 6, EncodeTcp(t));
    TcpPieces(t, EncodeIp(h, 6, EncodeTcp(t)), 4 * (5 + |h.options|), h.dst);
  }

  lemma {:induction false} OtherProtocols(h: IpHeader, proto: byte, payload: Bytes, net: Subnet)
    requires IpOk(h) && proto != 6 && proto != 17
    ensures HandlePacket(EncodeIp(h, proto, payload), net) == Nothing
  {
    hide Skipped, EncodeIp;
    IpPieces(h, proto, payload);
  }

  /** Over all byte strings, indexing leaves the packet exactly for an opening segment whose data offset does. */
  lemma CrashExactly(pkt: Bytes, net: Subnet)
    ensures HandlePacket(pkt, net) == Crash <==>
            && |pkt| >= 20 && pkt[0] / 16 == 4 && !Avoided(net, pkt[16..20]) && pkt[9] == 6
            && var n := pkt[0] % 16 * 4;
            |pkt| >= n + 20 && OpensConnection(pkt[n + 13]) && n + pkt[n + 12] / 16 * 4 > |pkt|
  {
    if |pkt| >= 20 {
      SkippedByBits(net, pkt[16..20]);
    }
    hide Skipped, Avoided;
  }

  /** Nothing leaves the device for packets that are no IPv4, or whose transport header is cut off. */
  lemma ShortOrForeign(pkt: Bytes, net: Subnet)
    requires |pkt| < 20 || pkt[0] / 16 != 4
             || (pkt[9] == 6 && |pkt| < pkt[0] % 16 * 4 + 20) || (pkt[9] == 17 && |pkt| < pkt[0] % 16 * 4 + 8)
    ensures HandlePacket(pkt, net) == Nothing
  {
    hide Skipped;
  }

  /** To 1.2.3.4, without options. */
  const HEADER := IpHeader(0, [0, 40], [0, 0], [0, 0], 64, [0, 0], [10, 0, 0, 2], [1, 2, 3, 4], [])

  /** A bare TCP header, SYN set, whose data offset is 15 words. */
  const SHORT_SYN: Bytes := [4, 0, 0, 80, 0, 0, 0, 0, 0, 0, 0, 0, 0xF0, 2, 0, 0, 0, 0, 0, 0]

  lemma ShortSegmentCrashes(h: IpHeader, body: Bytes, net: Subnet)
    requires IpOk(h) && !Avoided(net, h.dst)
    requires |body| == 20 && body[12] == 0xF0 && OpensConnection(body[13])
    ensures HandlePacket(EncodeIp(h, 6, body), net) == Crash
  {
    hide Avoided, EncodeIp, OpensConnection, HandlePacket;
    IpPieces(h, 6, body);
    var pkt, n := EncodeIp(h, 6, body), 4 * (5 + |h.options|);
    assert pkt[n + 12] == pkt[n..][12] && pkt[n + 13] == pkt[n..][13];
    CrashExactly(pkt, net);
  }

  /** Such a packet does come: 40 bytes, and the slice goes out of range. */
  lemma ShortSynCrashes()
    ensures HandlePacket(EncodeIp(HEADER, 6, SHORT_SYN), Subnet([10, 0, 0, 0], 24)) == Crash
  {
    assert SHORT_SYN[12] == 0xF0 && SHORT_SYN[13] == 2;
    assert OpensConnection(2);
    assert !Avoided(Subnet([10, 0, 0, 0], 24), HEADER.dst) by { OtherNet(); }
    hide Avoided, EncodeIp, OpensConnection, HandlePacket;
    ShortSegmentCrashes(HEADER, SHORT_SYN, Subnet([10, 0, 0, 0], 24));
  }

  lemma OtherNet()
    ensures !Avoided(Subnet([10, 0, 0, 0], 24), [1, 2, 3, 4])
  {
    SkippedByBits(Subnet([10, 0, 0, 0], 24), [1, 2, 3, 4]);
    hide Avoided;
    assert Pow2(8) == 256;
  }

  // ------------------------------------------------------------- DNS end to end

  /** What the resolver's 512-byte buffer keeps of a datagram. */
  function Received(data: Bytes): Bytes {
    if |data| <= 512 then data else data[..512]
  }

  /** A query survives the buffer iff its question ends within it, whatever follows. */
  lemma BufferKeepsQuestion(data: Bytes, labels: seq<Label>, rest: Bytes)
    requires Carries(data, labels, rest)
    ensures 16 + |EncodeName(labels)| <= 512 ==> QuestionOf(Received(data)) == QuestionOf(data)
    ensures QuestionOf(Received(data)).Parsed? <==> 16 + |EncodeName(labels)| <= 512
  {
    ParseInvertsEncoder(data, labels, rest);
    if |data| > 512 {
      var kept, n := data[..512], |EncodeName(labels)|;
      assert kept[12..] + data[512..] == data[12..];
      if 16 + n <= 512 {
        assert kept[12..] == data[12..][..500] == EncodeName(labels) + rest[..500 - n];
        assert Carries(kept, labels, rest[..500 - n]);
        ParseInvertsEncoder(kept, labels, rest[..500 - n]);
      } else if QuestionOf(kept).Parsed? {
        CutQuestionIsRejected(kept[12..], data[512..], labels, rest);
      }
    }
  }

  lemma CutQuestionIsRejected(kept: Bytes, lost: Bytes, labels: seq<Label>, rest: Bytes)
    requires ValidLabels(labels) && kept + lost == EncodeName(labels) + rest
    requires ScanLabels(kept).Labels? && |ScanLabels(kept).rest| >= 4
    ensures |kept| >= |EncodeName(labels)| + 4
  {
    ScanStable(kept, lost);
    ScanOfEncoded(labels, rest);
    ScanIsEncoded(kept);
  }

  /** A DNS query sent through the TUN reaches the resolver whole and is parsed back to its labels. */
  lemma EncapsulatedQuery(h: IpHeader, u: Udp, net: Subnet, labels: seq<Label>, rest: Bytes)
    requires IpOk(h) && !Avoided(net, h.dst) && u.dstPort == [0, 53]
    requires Carries(u.data, labels, rest) && |u.data| <= 512
    ensures HandlePacket(EncodeIp(h, 17, EncodeUdp(u)), net) == ForwardDns(u.data)
    ensures QuestionOf(Received(u.data)) == Parsed(Question(Join(labels), TypeOf(rest[0], rest[1])))
  {
    UdpRoundTrip(h, u, net);
    ParseInvertsEncoder(u.data, labels, rest);
  }
}
