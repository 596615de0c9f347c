/** The DNS wire helpers of the resolver: the question parser and the two reply builders. */
module DnsWire {
  import opened Basics

  type Label = Bytes

  /** The three type names `parseQuestion` can return. */
  datatype QType = A | AAAA | MX

  datatype Question = Question(name: Bytes, qtype: QType)

  datatype ParseError = TooShort | LabelOverflow | MissingType

  datatype ParseResult = Parsed(question: Question) | Rejected(error: ParseError)

  /** An answer string of the cache: `V4` when `net.ParseIP(...).To4()` yields four bytes. */
  datatype Address = V4(octets: IPv4) | NotV4

  const DOT: byte := 46

  // ---------------------------------------------------------------- encoding

  /** Length-prefixed labels, without the closing root label. */
  function EncodeLabels(labels: seq<Label>): Bytes
    requires ValidLabels(labels)
  {
    if labels == [] then [] else [|labels[0]|] + labels[0] + EncodeLabels(labels[1..])
  }

  /** A QNAME (section 4.1.2 of RFC 1035). */
  function EncodeName(labels: seq<Label>): Bytes
    requires ValidLabels(labels)
  {
    EncodeLabels(labels) + [0]
  }

  /** Label lengths as the program reads them: any non-zero length byte. */
  predicate ValidLabels(labels: seq<Label>) {
    forall l | l in labels :: 1 <= |l| <= 255
  }

  /** `strings.Join(labels, ".")`. */
  function Join(labels: seq<Label>): Bytes {
    if labels == [] then []
    else if |labels| == 1 then labels[0]
    else labels[0] + [DOT] + Join(labels[1..])
  }

  // ----------------------------------------------------------------- parsing

  datatype Scan = Labels(labels: seq<Label>, rest: Bytes) | Overflow

  /** What the label loop finds in the bytes still ahead of it. */
  function ScanLabels(s: Bytes): Scan
    decreases |s|
  {
    if s == [] then Labels([], [])
    else if s[0] == 0 then Labels([], s[1..])
    else if 1 + s[0] > |s| then Overflow
    else Prepend([s[1..1 + s[0]]], ScanLabels(s[1 + s[0]..]))
  }

  function Prepend(labels: seq<Label>, scan: Scan): Scan {
    match scan
    case Labels(more, rest) => Labels(labels + more, rest)
    case Overflow => Overflow
  }

  function TypeOf(hi: byte, lo: byte): QType {
    match U16(hi, lo)
    case 1 => A
    case 28 => AAAA
    case 15 => MX
    case _ => A
  }

  function QuestionOf(packet: Bytes): ParseResult {
    if |packet| < 12 then Rejected(TooShort)
    else
      match ScanLabels(packet[12..])
      case Overflow => Rejected(LabelOverflow)
      case Labels(labels, rest) =>
        if |rest| < 4 then Rejected(MissingType)
        else Parsed(Question(Join(labels), TypeOf(rest[0], rest[1])))
  }

  // Each of the next lemmas isolates one unfolding from the sequence algebra around it.

  lemma ScanCons(first: Label, tail: Bytes)
    requires 1 <= |first| <= 255
    ensures ScanLabels([|first|] + first + tail) == Prepend([first], ScanLabels(tail))
  {
    var s := [|first|] + first + tail;
    assert s[1..1 + |first|] == first;
    assert s[1 + |first|..] == tail;
  }

  lemma EncodeCons(first: Label, more: seq<Label>)
    requires 1 <= |first| <= 255 && ValidLabels(more)
    ensures ValidLabels([first] + more)
    ensures EncodeName([first] + more) == [|first|] + first + EncodeName(more)
  {
    assert ([first] + more)[1..] == more;
  }

  lemma Cut(s: Bytes, n: nat)
    requires 1 + n <= |s|
    ensures s == [s[0]] + s[1..1 + n] + s[1 + n..]
  {
  }

  lemma Regroup(x: Bytes, y: Bytes, z: Bytes)
    ensures x + (y + z) == (x + y) + z
  {
  }

  lemma PrependPrepend(xs: seq<Label>, ys: seq<Label>, scan: Scan)
    ensures Prepend(xs, Prepend(ys, scan)) == Prepend(xs + ys, scan)
  {
    if scan.Labels? {
      assert xs + (ys + scan.labels) == xs + ys + scan.labels;
    }
  }

  lemma ScanAtLabel(packet: Bytes, offset: nat, n: nat)
    requires offset < |packet| && packet[offset] == n > 0 && offset + 1 + n <= |packet|
    ensures ScanLabels(packet[offset..])
         == Prepend([packet[offset + 1..offset + 1 + n]], ScanLabels(packet[offset + 1 + n..]))
  {
    var ahead := packet[offset..];
    Cut(ahead, n);
    assert ahead[1..1 + n] == packet[offset + 1..offset + 1 + n];
    assert ahead[1 + n..] == packet[offset + 1 + n..];
    ScanCons(ahead[1..1 + n], ahead[1 + n..]);
  }

  lemma ScanAtRoot(packet: Bytes, offset: nat)
    requires offset < |packet| && packet[offset] == 0
    ensures ScanLabels(packet[offset..]) == Labels([], packet[offset + 1..])
  {
    assert packet[offset..][1..] == packet[offset + 1..];
  }

  lemma ScanAtOverflow(packet: Bytes, offset: nat)
    requires offset < |packet| && packet[offset] > 0 && offset + 1 + packet[offset] > |packet|
    ensures ScanLabels(packet[offset..]) == Overflow
  {
    assert packet[offset..][0] == packet[offset];
  }

  lemma ShortPacket(packet: Bytes)
    requires |packet| < 12
    ensures QuestionOf(packet) == Rejected(TooShort)
  {
  }

  /** The label loop, at `offset`, has read `labels`. */
  ghost predicate ReadSoFar(packet: Bytes, labels: seq<Label>, offset: nat) {
    12 <= offset <= |packet| && ScanLabels(packet[12..]) == Prepend(labels, ScanLabels(packet[offset..]))
  }

  lemma NothingRead(packet: Bytes)
    requires |packet| >= 12
    ensures ReadSoFar(packet, [], 12)
  {
    var scan := ScanLabels(packet[12..]);
    assert scan.Labels? ==> [] + scan.labels == scan.labels;
  }

  lemma LabelRead(packet: Bytes, labels: seq<Label>, offset: nat, n: nat)
    requires ReadSoFar(packet, labels, offset)
    requires offset < |packet| && packet[offset] == n > 0 && offset + 1 + n <= |packet|
    ensures ReadSoFar(packet, labels + [packet[offset + 1..offset + 1 + n]], offset + 1 + n)
  {
    hide ScanLabels;
    ScanAtLabel(packet, offset, n);
    PrependPrepend(labels, [packet[offset + 1..offset + 1 + n]], ScanLabels(packet[offset + 1 + n..]));
  }

  lemma LabelCutOff(packet: Bytes, labels: seq<Label>, offset: nat)
    requires ReadSoFar(packet, labels, offset)
    requires offset < |packet| && packet[offset] > 0 && offset + 1 + packet[offset] > |packet|
    ensures QuestionOf(packet) == Rejected(LabelOverflow)
  {
    hide ScanLabels;
    ScanAtOverflow(packet, offset);
  }

  /** The loop ends behind the root label, or at the end of the packet. */
  lemma AllRead(packet: Bytes, labels: seq<Label>, offset: nat, end: nat)
    requires ReadSoFar(packet, labels, offset)
    requires if offset < |packet| then packet[offset] == 0 && end == offset + 1 else end == offset
    ensures QuestionOf(packet)
         == if end + 4 > |packet| then Rejected(MissingType)
            else Parsed(Question(Join(labels), TypeOf(packet[end], packet[end + 1])))
  {
    if offset < |packet| {
      ScanAtRoot(packet, offset);
    } else {
      assert ScanLabels(packet[offset..]) == Labels([], packet[end..]);
    }
    hide ScanLabels, Join, TypeOf;
    assert labels + [] == labels;
  }

  method ParseQuestion(packet: array<byte>) returns (r: ParseResult)
    ensures r == QuestionOf(packet[..])
  {
    hide ReadSoFar, QuestionOf, Join, TypeOf;
    if packet.Length < 12 {
      assert QuestionOf(packet[..]) == Rejected(TooShort) by { ShortPacket(packet[..]); }
      return Rejected(TooShort);
    }
    ghost var p := packet[..];
    NothingRead(p);
    var offset := 12;
    var labels: seq<Label> := [];
    ghost var start := 12;
    while offset < packet.Length
      invariant 12 <= offset == start <= packet.Length
      invariant ReadSoFar(p, labels, start)
    {
      var length := packet[offset];
      offset := offset + 1;
      if length == 0 {
        break;
      }
      if offset + length > packet.Length {
        LabelCutOff(p, labels, start);
        return Rejected(LabelOverflow);
      }
      LabelRead(p, labels, start, length);
      labels := labels + [packet[offset..offset + length]];
      offset := offset + length;
      start := offset;
    }
    AllRead(p, labels, start, offset);
    if offset + 4 > packet.Length {
      return Rejected(MissingType);
    }
    return Parsed(Question(Join(labels), TypeOf(packet[offset], packet[offset + 1])));
  }

  lemma {:induction false} ScanOfEncoded(labels: seq<Label>, rest: Bytes)
    requires ValidLabels(labels)
    ensures ScanLabels(EncodeName(labels) + rest) == Labels(labels, rest)
  {
    if labels == [] {
      ScanAtRoot([0] + rest, 0);
    } else {
      var first, more := labels[0], labels[1..];
      assert first in labels;
      assert labels == [first] + more;
      EncodeCons(first, more);
      var tail := EncodeName(more) + rest;
      assert EncodeName(labels) + rest == [|first|] + first + tail;
      ScanCons(first, tail);
      ScanOfEncoded(more, rest);
    }
  }

  lemma EncodedStep(first: Label, more: seq<Label>, rest: Bytes)
    requires 1 <= |first| <= 255 && ValidLabels(more)
    requires ScanLabels(EncodeName(more) + rest) == Labels(more, rest)
    ensures ValidLabels([first] + more)
    ensures [|first|] + first + (EncodeName(more) + rest) == EncodeName([first] + more) + rest
    ensures ScanLabels([|first|] + first + (EncodeName(more) + rest)) == Labels([first] + more, rest)
  {
    EncodeCons(first, more);
    ScanCons(first, EncodeName(more) + rest);
    Regroup([|first|] + first, EncodeName(more), rest);
  }

  lemma NoLabels()
    ensures ValidLabels([]) && EncodeName([]) == [0]
  {
  }

  /** Bytes left over mean that a root label was read, and re-encoding gives the input back. */
  lemma {:induction false} ScanIsEncoded(s: Bytes)
    requires ScanLabels(s).Labels? && ScanLabels(s).rest != []
    ensures ValidLabels(ScanLabels(s).labels)
    ensures s == EncodeName(ScanLabels(s).labels) + ScanLabels(s).rest
    decreases |s|
  {
    hide EncodeLabels, ValidLabels;
    var n := s[0];
    if n == 0 {
      assert EncodeName([]) == [0] && ValidLabels([]) by { NoLabels(); }
      assert s == [0] + s[1..];
    } else {
      hide EncodeName;
      var first, tail := s[1..1 + n], s[1 + n..];
      Cut(s, n);
      var scan := ScanLabels(tail);
      assert ScanLabels(s) == Prepend([first], scan);
      ScanIsEncoded(tail);
      EncodedStep(first, scan.labels, scan.rest);
    }
  }

  /** `packet` has a header, a zero-terminated label sequence and at least QTYPE and QCLASS. */
  ghost predicate Carries(packet: Bytes, labels: seq<Label>, rest: Bytes) {
    && |packet| >= 12
    && ValidLabels(labels)
    && packet[12..] == EncodeName(labels) + rest
    && |rest| >= 4
  }

  lemma ParseInvertsEncoder(packet: Bytes, labels: seq<Label>, rest: Bytes)
    requires Carries(packet, labels, rest)
    ensures QuestionOf(packet) == Parsed(Question(Join(labels), TypeOf(rest[0], rest[1])))
  {
    ScanOfEncoded(labels, rest);
  }

  lemma ParseAcceptsExactlyEncodings(packet: Bytes)
    ensures QuestionOf(packet).Parsed? <==> exists labels, rest :: Carries(packet, labels, rest)
  {
    if QuestionOf(packet).Parsed? {
      ScanIsEncoded(packet[12..]);
      var scan := ScanLabels(packet[12..]);
      assert Carries(packet, scan.labels, scan.rest);
    }
    if labels, rest :| Carries(packet, labels, rest) {
      ParseInvertsEncoder(packet, labels, rest);
    }
  }

  /** `s` is some complete labels, then a length byte promising more than is left. */
  ghost predicate Overruns(s: Bytes, labels: seq<Label>, tail: Bytes) {
    && ValidLabels(labels)
    && s == EncodeLabels(labels) + tail
    && tail != [] && 1 <= |tail| <= tail[0]
  }

  lemma OverrunCons(first: Label, rest: Bytes, labels: seq<Label>, tail: Bytes)
    requires 1 <= |first| <= 255 && Overruns(rest, labels, tail)
    ensures Overruns([|first|] + first + rest, [first] + labels, tail)
  {
    assert ([first] + labels)[1..] == labels;
    var code := EncodeLabels(labels);
    assert EncodeLabels([first] + labels) == [|first|] + first + code;
    hide EncodeLabels;
    Regroup([|first|] + first, code, tail);
  }

  lemma OverrunAtOnce(s: Bytes)
    requires s != [] && 1 + s[0] > |s|
    ensures Overruns(s, [], s)
  {
    assert EncodeLabels([]) + s == s;
  }

  lemma {:induction false} OverflowWitness(s: Bytes) returns (labels: seq<Label>, tail: Bytes)
    requires ScanLabels(s) == Overflow
    ensures Overruns(s, labels, tail)
    decreases |s|
  {
    hide Overruns;
    var n := s[0];
    if 1 + n > |s| {
      labels, tail := [], s;
      OverrunAtOnce(s);
    } else {
      var first, rest := s[1..1 + n], s[1 + n..];
      Cut(s, n);
      ScanCons(first, rest);
      hide ScanLabels;
      labels, tail := OverflowWitness(rest);
      OverrunCons(first, rest, labels, tail);
      labels := [first] + labels;
    }
  }

  lemma {:induction false} OverrunOverflows(s: Bytes, labels: seq<Label>, tail: Bytes)
    requires Overruns(s, labels, tail)
    ensures ScanLabels(s) == Overflow
    decreases |labels|
  {
    if labels != [] {
      var first, more := labels[0], EncodeLabels(labels[1..]) + tail;
      assert first in labels;
      assert s == [|first|] + first + more;
      ScanCons(first, more);
      hide ScanLabels;
      OverrunOverflows(more, labels[1..], tail);
    } else {
      assert s == tail;
    }
  }

  /** The label-overflow error is raised exactly for a label cut off by the end of the packet. */
  lemma OverflowExactly(packet: Bytes)
    requires |packet| >= 12
    ensures QuestionOf(packet) == Rejected(LabelOverflow)
       <==> exists labels, tail :: Overruns(packet[12..], labels, tail)
  {
    if QuestionOf(packet) == Rejected(LabelOverflow) {
      var labels, tail := OverflowWitness(packet[12..]);
    }
    if labels, tail :| Overruns(packet[12..], labels, tail) {
      OverrunOverflows(packet[12..], labels, tail);
    }
  }

  /** Which of the three errors is raised, for every packet. */
  lemma {:induction false} ErrorsExactly(packet: Bytes)
    ensures QuestionOf(packet) == Rejected(TooShort) <==> |packet| < 12
    ensures QuestionOf(packet) == Rejected(MissingType) <==>
            && |packet| >= 12
            && !(exists labels, rest :: Carries(packet, labels, rest))
            && !(exists labels, tail :: Overruns(packet[12..], labels, tail))
  {
    ParseAcceptsExactlyEncodings(packet);
    if |packet| >= 12 {
      OverflowExactly(packet);
    }
    hide Carries, Overruns;
  }

  /** Appending bytes after a parsed question does not change it. */
  lemma ScanStable(s: Bytes, more: Bytes)
    requires ScanLabels(s).Labels? && ScanLabels(s).rest != []
    ensures ScanLabels(s + more) == Labels(ScanLabels(s).labels, ScanLabels(s).rest + more)
  {
    hide EncodeName, ScanLabels, ValidLabels;
    ScanIsEncoded(s);
    var labels, rest := ScanLabels(s).labels, ScanLabels(s).rest;
    assert s + more == EncodeName(labels) + (rest + more);
    ScanOfEncoded(labels, rest + more);
  }

  /** A parsed name splits back into its labels when no label contains a dot. */
  lemma {:induction false} JoinInjective(xs: seq<Label>, ys: seq<Label>)
    requires ValidLabels(xs) && ValidLabels(ys)
    requires forall l | l in xs + ys :: DOT !in l
    requires Join(xs) == Join(ys)
    ensures xs == ys
    decreases |xs|
  {
    if xs != [] && ys != [] {
      HeadOfJoin(xs);
      HeadOfJoin(ys);
      var n := |xs[0]|;
      assert n == |ys[0]|;
      assert xs[0] == Join(xs)[..n] == Join(ys)[..n] == ys[0];
      assert |xs| == 1 <==> |ys| == 1;
      if |xs| > 1 {
        assert Join(xs)[n + 1..] == Join(xs[1..]);
        assert Join(ys)[n + 1..] == Join(ys[1..]);
        JoinInjective(xs[1..], ys[1..]);
      }
      assert xs == [xs[0]] + xs[1..] && ys == [ys[0]] + ys[1..];
    } else if xs != [] {
      HeadOfJoin(xs);
    } else if ys != [] {
      HeadOfJoin(ys);
    }
  }

  /** The first dot of a joined name ends its first label. */
  lemma HeadOfJoin(xs: seq<Label>)
    requires xs != [] && ValidLabels(xs)
    requires forall l | l in xs :: DOT !in l
    ensures |Join(xs)| >= |xs[0]| >= 1 && Join(xs)[..|xs[0]|] == xs[0]
    ensures forall k | 0 <= k < |xs[0]| :: Join(xs)[k] != DOT
    ensures |xs| == 1 <==> |Join(xs)| == |xs[0]|
    ensures |xs| > 1 ==> Join(xs)[|xs[0]|] == DOT
  {
    assert xs[0] in xs;
  }

  /** The pieces of a name between its dots. */
  function Pieces(name: Bytes): (ps: seq<Label>)
    ensures ps != []
  {
    if name == [] then [[]]
    else if name[0] == DOT then [[]] + Pieces(name[1..])
    else
      var ps := Pieces(name[1..]);
      [[name[0]] + ps[0]] + ps[1..]
  }

  function AllPieces(labels: seq<Label>): seq<Label> {
    if labels == [] then [] else Pieces(labels[0]) + AllPieces(labels[1..])
  }

  lemma PiecesStep(c: byte, rest: Bytes)
    ensures Pieces([c] + rest)
         == if c == DOT then [[]] + Pieces(rest) else [[c] + Pieces(rest)[0]] + Pieces(rest)[1..]
  {
    assert ([c] + rest)[1..] == rest;
  }

  lemma FirstOfTwo(ps: seq<Label>, qs: seq<Label>)
    requires ps != []
    ensures (ps + qs)[0] == ps[0] && (ps + qs)[1..] == ps[1..] + qs
    ensures forall p: Label :: [p] + (ps + qs) == ([p] + ps) + qs
    ensures forall p: Label :: [p] + (ps[1..] + qs) == ([p] + ps[1..]) + qs
  {
  }

  lemma {:induction false} PiecesOfJoined(x: Bytes, y: Bytes)
    ensures Pieces(x + [DOT] + y) == Pieces(x) + Pieces(y)
  {
    if x == [] {
      assert [] + [DOT] + y == [DOT] + y;
      PiecesStep(DOT, y);
      assert Pieces([]) == [[]];
    } else {
      hide Pieces;
      var c, rest := x[0], x[1..];
      assert x == [c] + rest && x + [DOT] + y == [c] + (rest + [DOT] + y);
      PiecesStep(c, rest);
      PiecesStep(c, rest + [DOT] + y);
      PiecesOfJoined(rest, y);
      FirstOfTwo(Pieces(rest), Pieces(y));
    }
  }

  lemma {:induction false} PiecesOfJoin(labels: seq<Label>)
    requires labels != []
    ensures Pieces(Join(labels)) == AllPieces(labels)
  {
    if |labels| == 1 {
      assert AllPieces(labels[1..]) == [];
      assert Pieces(labels[0]) + [] == Pieces(labels[0]);
    } else {
      PiecesOfJoined(labels[0], Join(labels[1..]));
      PiecesOfJoin(labels[1..]);
    }
  }

  lemma JoinOfCons(first: Label, more: seq<Label>)
    requires more != []
    ensures Join([first] + more) == first + [DOT] + Join(more)
  {
    assert ([first] + more)[1..] == more;
  }

  /** The name of one label is the label; between two parts of a list stands a full stop, which is octet 46. */
  lemma {:induction false} JoinIsDotted(xs: seq<Label>, ys: seq<Label>, one: Label)
    ensures Join([]) == [] && Join([one]) == one
    ensures xs != [] && ys != [] ==> Join(xs + ys) == Join(xs) + [46] + Join(ys)
  {
    JoinOfOne(one);
    if xs != [] && ys != [] {
      hide Join;
      var first, more := xs[0], xs[1..];
      assert xs == [first] + more && xs + ys == [first] + (more + ys);
      JoinOfOne(first);
      JoinOfCons(first, more + ys);
      if more == [] {
        assert more + ys == ys && xs == [first];
      } else {
        JoinIsDotted(more, ys, one);
        JoinOfCons(first, more);
        Regroup(first + [46], Join(more) + [46], Join(ys));
        Regroup(first + [46], Join(more), [46]);
      }
    }
  }

  lemma JoinOfOne(first: Label)
    ensures Join([first]) == first
  {
  }

  lemma JoinLonger(c: byte, ps: seq<Label>)
    requires ps != []
    ensures Join([[c] + ps[0]] + ps[1..]) == [c] + Join(ps)
  {
    var first, more := ps[0], ps[1..];
    if more == [] {
      assert [[c] + first] + more == [[c] + first] && ps == [first];
    } else {
      hide Join;
      assert ps == [first] + more;
      JoinOfCons([c] + first, more);
      JoinOfCons(first, more);
      Regroup([c], first, [DOT] + Join(more));
      Regroup(first, [DOT], Join(more));
      Regroup([c] + first, [DOT], Join(more));
    }
  }

  lemma {:induction false} JoinOfPieces(name: Bytes)
    ensures Join(Pieces(name)) == name
  {
    if name != [] {
      JoinOfPieces(name[1..]);
      if name[0] == DOT {
        JoinOfCons([], Pieces(name[1..]));
        assert name == [] + [DOT] + name[1..];
      } else {
        JoinLonger(name[0], Pieces(name[1..]));
        assert name == [name[0]] + name[1..];
      }
    }
  }

  lemma JoinOfNone(labels: seq<Label>)
    requires ValidLabels(labels)
    ensures labels == [] <==> Join(labels) == []
  {
    if labels != [] {
      assert labels[0] in labels;
    }
  }

  lemma PiecesOfSome(labels: seq<Label>)
    ensures labels == [] <==> AllPieces(labels) == []
  {
  }

  /** Two label lists share a name iff they are the same after splitting every label at its dots. */
  lemma {:induction false} SameNameExactly(xs: seq<Label>, ys: seq<Label>)
    requires ValidLabels(xs) && ValidLabels(ys)
    ensures Join(xs) == Join(ys) <==> AllPieces(xs) == AllPieces(ys)
  {
    hide Join, AllPieces, Pieces, ValidLabels;
    JoinOfNone(xs);
    JoinOfNone(ys);
    PiecesOfSome(xs);
    PiecesOfSome(ys);
    if xs != [] && ys != [] {
      PiecesOfJoin(xs);
      PiecesOfJoin(ys);
      JoinOfPieces(Join(xs));
      JoinOfPieces(Join(ys));
    }
  }

  /** One label "a.b" and two labels "a" and "b" have the same name. */
  lemma DottedLabelSharesName()
    ensures Join([[97, 46, 98]]) == Join([[97], [98]])
  {
    assert [[97], [98]][1..] == [[98]];
    assert Join([[98]]) == [98];
  }

  // ----------------------------------------------------------------- replies

  /** Pointer 0xC00C, type A, class IN, TTL 300, RDLENGTH 4. */
  const RECORD_HEAD: Bytes := [0xC0, 0x0C, 0x00, 0x01, 0x00, 0x01, 0x00, 0x00, 0x01, 0x2C, 0x00, 0x04]

  function Record(ip: IPv4): (r: Bytes)
    ensures |r| == 16
  {
    RECORD_HEAD + ip
  }

  function Records(ips: seq<IPv4>): (r: Bytes)
    ensures |r| == 16 * |ips|
  {
    if ips == [] then [] else Record(ips[0]) + Records(ips[1..])
  }

  /** The addresses the answer loop does not skip, in order. */
  function V4s(addrs: seq<Address>): seq<IPv4> {
    if addrs == [] then []
    else (if addrs[0].V4? then [addrs[0].octets] else []) + V4s(addrs[1..])
  }

  function Response(query: Bytes, addrs: seq<Address>): Bytes
    requires |query| >= 12
  {
    query[..2] + [0x81, 0x80] + query[4..6] + [0, |addrs| % 256] + query[8..] + Records(V4s(addrs))
  }

  function ServFail(query: Bytes): Bytes
    requires |query| >= 12
  {
    query[..2] + [0x81, 0x82] + query[4..]
  }

  lemma {:induction false} RecordsAppend(xs: seq<IPv4>, ys: seq<IPv4>)
    ensures Records(xs + ys) == Records(xs) + Records(ys)
  {
    if xs == [] {
      assert xs + ys == ys;
    } else {
      assert (xs + ys)[1..] == xs[1..] + ys;
      RecordsAppend(xs[1..], ys);
    }
  }

  lemma {:induction false} V4sAppend(xs: seq<Address>, ys: seq<Address>)
    ensures V4s(xs + ys) == V4s(xs) + V4s(ys)
  {
    if xs == [] {
      assert xs + ys == ys;
    } else {
      assert (xs + ys)[1..] == xs[1..] + ys;
      V4sAppend(xs[1..], ys);
    }
  }

  lemma AnswerStep(addrs: seq<Address>, i: nat)
    requires i < |addrs|
    ensures Records(V4s(addrs[..i + 1]))
         == Records(V4s(addrs[..i])) + if addrs[i].V4? then Record(addrs[i].octets) else []
  {
    assert addrs[..i + 1] == addrs[..i] + [addrs[i]];
    V4sAppend(addrs[..i], [addrs[i]]);
    var last := V4s([addrs[i]]);
    assert last == if addrs[i].V4? then [addrs[i].octets] else [];
    RecordsAppend(V4s(addrs[..i]), last);
    assert Records(last) == if addrs[i].V4? then Record(addrs[i].octets) else [];
  }

  method BuildResponse(query: array<byte>, addrs: seq<Address>) returns (reply: Bytes)
    requires query.Length >= 12
    ensures reply == Response(query[..], addrs)
  {
    var hdr := new byte[12](i requires 0 <= i < 12 reads query => query[i]);
    hdr[2] := 0x81;
    hdr[3] := 0x80;
    hdr[6] := 0;
    hdr[7] := |addrs| % 256;
    var question := query[12..];
    var result := hdr[..] + question;
    assert result == query[..2] + [0x81, 0x80] + query[4..6] + [0, |addrs| % 256] + query[8..];

    var answers: Bytes := [];
    for i := 0 to |addrs|
      invariant answers == Records(V4s(addrs[..i]))
    {
      AnswerStep(addrs, i);
      if addrs[i] == NotV4 {
        continue;
      }
      Regroup(answers, RECORD_HEAD, addrs[i].octets);
      answers := answers + RECORD_HEAD;
      answers := answers + addrs[i].octets;
    }
    assert addrs[..|addrs|] == addrs;
    reply := result + answers;
  }

  method BuildServFail(query: array<byte>) returns (reply: Bytes)
    requires query.Length >= 12
    ensures reply == ServFail(query[..])
  {
    var hdr := new byte[12](i requires 0 <= i < 12 reads query => query[i]);
    hdr[2] := 0x81;
    hdr[3] := 0x82;
    assert hdr[..] == query[..2] + [0x81, 0x82] + query[4..12];
    reply := hdr[..] + query[12..];
  }

  /** Length and ANCOUNT for every query and every address list. */
  lemma {:induction false} ResponseFormula(query: Bytes, addrs: seq<Address>)
    requires |query| >= 12
    ensures |Response(query, addrs)| == |query| + 16 * |V4s(addrs)|
    ensures |V4s(addrs)| <= |addrs|
    ensures U16(Response(query, addrs)[6], Response(query, addrs)[7]) == |V4s(addrs)|
       <==> |V4s(addrs)| == |addrs| % 256
    ensures Response(query, addrs)[12..] == query[12..] + Records(V4s(addrs))
  {
    V4sAtMostAll(addrs);
  }

  lemma {:induction false} V4sAtMostAll(addrs: seq<Address>)
    ensures |V4s(addrs)| <= |addrs|
    ensures |V4s(addrs)| == |addrs| <==> forall a | a in addrs :: a.V4?
  {
    if addrs != [] {
      V4sAtMostAll(addrs[1..]);
      assert addrs == [addrs[0]] + addrs[1..];
    }
  }

  lemma BodyOfResponse(query: Bytes, addrs: seq<Address>)
    requires |query| >= 12
    ensures Response(query, addrs)[12..] == query[12..] + Records(V4s(addrs))
  {
  }

  /** Both replies carry the query's ID and its question, for every address list. */
  lemma QuestionStable(query: Bytes, addrs: seq<Address>)
    requires QuestionOf(query).Parsed?
    ensures QuestionOf(Response(query, addrs)) == QuestionOf(query) == QuestionOf(ServFail(query))
    ensures Response(query, addrs)[..2] == query[..2] == ServFail(query)[..2]
  {
    hide ScanLabels, Records, V4s, Join, TypeOf;
    var answers := Records(V4s(addrs));
    ScanStable(query[12..], answers);
    assert Response(query, addrs)[12..] == query[12..] + answers by { BodyOfResponse(query, addrs); }
    assert ServFail(query)[12..] == query[12..];
  }
}
