/**
 An RFC 1035 message decoder written from sections 4.1.1 to 4.1.4 alone, and what it reads in the
 replies of the resolver. It rejects truncated messages, forward pointers and trailing bytes.
 */
module Rfc1035 {
  import opened Basics
  import opened DnsWire

  datatype Header = Header(
    id: nat, qr: bool, opcode: nat, aa: bool, tc: bool, rd: bool, ra: bool, z: nat, rcode: nat)

  datatype Query = Query(qname: seq<Label>, qtype: nat, qclass: nat)

  datatype Resource = Resource(name: seq<Label>, rtype: nat, class_: nat, ttl: nat, rdata: Bytes)

  datatype Message = Message(
    header: Header,
    questions: seq<Query>,
    answers: seq<Resource>,
    authority: seq<Resource>,
    additional: seq<Resource>)

  // What a reader finds at an offset, and the offset behind it.
  datatype NameRead = BadName | Name(labels: seq<Label>, next: nat)
  datatype Item<+T> = Bad | Item(value: T, next: nat)

  function Word(m: Bytes, off: nat): nat
    requires off + 2 <= |m|
  {
    U16(m[off], m[off + 1])
  }

  /** A domain name at `off`. A pointer must lead to a place before `bound`. */
  function DecodeName(m: Bytes, off: nat, bound: nat): NameRead
    decreases bound, |m| - off
  {
    if off >= |m| then BadName
    else if m[off] == 0 then Name([], off + 1)
    else if m[off] < 64 then
      var n := m[off];
      if off + 1 + n > |m| then BadName
      else
        match DecodeName(m, off + 1 + n, bound)
        case BadName => BadName
        case Name(more, next) => Name([m[off + 1..off + 1 + n]] + more, next)
    else if m[off] >= 192 then
      if off + 2 > |m| then BadName
      else
        var target := Word(m, off) - 0xC000;
        if target >= bound then BadName
        else
          match DecodeName(m, target, target)
          case BadName => BadName
          case Name(labels, _) => Name(labels, off + 2)
    else BadName
  }

  function DecodeHeader(m: Bytes): Header
    requires |m| >= 12
  {
    Header(
      Word(m, 0), m[2] / 128 == 1, m[2] / 8 % 16, m[2] / 4 % 2 == 1, m[2] / 2 % 2 == 1, m[2] % 2 == 1,
      m[3] / 128 == 1, m[3] / 16 % 8, m[3] % 16)
  }

  function DecodeQuery(m: Bytes, off: nat): Item<Query> {
    match DecodeName(m, off, off)
    case BadName => Bad
    case Name(labels, at) =>
      if at + 4 > |m| then Bad else Item(Query(labels, Word(m, at), Word(m, at + 2)), at + 4)
  }

  function DecodeResource(m: Bytes, off: nat): Item<Resource> {
    match DecodeName(m, off, off)
    case BadName => Bad
    case Name(labels, at) =>
      if at + 10 > |m| || at + 10 + Word(m, at + 8) > |m| then Bad
      else
        var end := at + 10 + Word(m, at + 8);
        Item(Resource(labels, Word(m, at), Word(m, at + 2),
                      0x1_0000 * Word(m, at + 4) + Word(m, at + 6), m[at + 10..end]), end)
  }

  function Queries(m: Bytes): nat -> Item<Query> {
    (off: nat) => DecodeQuery(m, off)
  }

  function Resources(m: Bytes): nat -> Item<Resource> {
    (off: nat) => DecodeResource(m, off)
  }

  /** `count` items one behind the other. */
  function Repeat<T>(read: nat -> Item<T>, off: nat, count: nat): Item<seq<T>>
    decreases count
  {
    if count == 0 then Item([], off)
    else
      match read(off)
      case Bad => Bad
      case Item(first, at) =>
        match Repeat(read, at, count - 1)
        case Bad => Bad
        case Item(more, next) => Item([first] + more, next)
  }

  function DecodeMessage(m: Bytes): Option<Message> {
    if |m| < 12 then None
    else
      var qs := Repeat(Queries(m), 12, Word(m, 4));
      if qs.Bad? then None
      else
        var an := Repeat(Resources(m), qs.next, Word(m, 6));
        if an.Bad? then None
        else
          var ns := Repeat(Resources(m), an.next, Word(m, 8));
          if ns.Bad? then None
          else
            var ar := Repeat(Resources(m), ns.next, Word(m, 10));
            if ar.Bad? || ar.next != |m| then None
            else Some(Message(DecodeHeader(m), qs.value, an.value, ns.value, ar.value))
  }

  /** Labels as RFC 1035 allows them. */
  predicate RfcLabels(labels: seq<Label>) {
    forall l | l in labels :: 1 <= |l| <= 63
  }

  // ------------------------------------------------------ encoding what a query may hold

  function W16(n: nat): Bytes
    requires n < 0x1_0000
  {
    [n / 256, n % 256]
  }

  /** A record that section 4.1.3 can encode. */
  predicate ResourceOk(r: Resource) {
    && RfcLabels(r.name) && r.rtype < 0x1_0000 && r.class_ < 0x1_0000
    && r.ttl < 0x1_0000_0000 && |r.rdata| < 0x1_0000
  }

  function Fixed(r: Resource): (b: Bytes)
    requires ResourceOk(r)
    ensures |b| == 10
  {
    W16(r.rtype) + W16(r.class_) + W16(r.ttl / 0x1_0000) + W16(r.ttl % 0x1_0000) + W16(|r.rdata|)
  }

  /** Section 4.1.3, the owner name uncompressed. */
  function EncodeResource(r: Resource): Bytes
    requires ResourceOk(r)
  {
    EncodeName(r.name) + (Fixed(r) + r.rdata)
  }

  predicate ResourcesOk(rs: seq<Resource>) {
    forall r | r in rs :: ResourceOk(r)
  }

  function EncodeResources(rs: seq<Resource>): Bytes
    requires ResourcesOk(rs)
  {
    if rs == [] then [] else EncodeResource(rs[0]) + EncodeResources(rs[1..])
  }

  /** How many records the header of `m` announces, over its three sections. */
  function RecordCount(m: Bytes): nat
    requires |m| >= 12
  {
    Word(m, 6) + Word(m, 8) + Word(m, 10)
  }

  /** Reading a name at `off` follows no pointer into the header. */
  predicate AboveHeader(m: Bytes, off: nat, bound: nat)
    decreases bound, |m| - off
  {
    if off >= |m| || m[off] == 0 then true
    else if m[off] < 64 then AboveHeader(m, off + 1 + m[off], bound)
    else if m[off] >= 192 && off + 2 <= |m| then
      var target := Word(m, off) - 0xC000;
      target >= bound || (target >= 12 && AboveHeader(m, target, target))
    else true
  }

  /** Nor do the owner names of the `count` records from `off` on. */
  predicate OwnersAbove(m: Bytes, off: nat, count: nat)
    decreases count
  {
    count == 0
    || (AboveHeader(m, off, off)
        && (DecodeResource(m, off).Item? ==> OwnersAbove(m, DecodeResource(m, off).next, count - 1)))
  }

  /**
   A message `q` with one question and any records behind it: none, an EDNS record in the additional section,
   or others. No name in it points into the header.
   */
  predicate OneQuestion(query: Bytes, q: Message) {
    && DecodeMessage(query) == Some(q) && |q.questions| == 1
    && AboveHeader(query, 12, 12)
    && Repeat(Queries(query), 12, 1).Item?
    && OwnersAbove(query, Repeat(Queries(query), 12, 1).next, RecordCount(query))
  }

  function AllRecords(q: Message): seq<Resource> {
    q.answers + q.authority + q.additional
  }

  /** `code` stands in `m` at `off`. */
  predicate At(m: Bytes, off: nat, code: Bytes) {
    off + |code| <= |m| && m[off..off + |code|] == code
  }

  lemma AtSplit(m: Bytes, off: nat, length: byte, first: Bytes, second: Bytes)
    requires At(m, off, [length] + first + second)
    ensures m[off] == length && At(m, off + 1, first) && At(m, off + 1 + |first|, second)
  {
    var n := |first|;
    var whole := m[off..off + 1 + n + |second|];
    assert m[off] == whole[0];
    assert m[off + 1..off + 1 + n] == whole[1..1 + n];
    assert m[off + 1 + n..off + 1 + n + |second|] == whole[1 + n..];
  }

  lemma AtLabel(m: Bytes, off: nat, first: Label, rest: seq<Label>)
    requires 1 <= |first| <= 63 && RfcLabels(rest) && ValidLabels([first] + rest)
    requires At(m, off, EncodeName([first] + rest))
    ensures off < |m| && m[off] == |first| && At(m, off + 1, first)
    ensures At(m, off + 1 + |first|, EncodeName(rest))
    ensures |EncodeName([first] + rest)| == 1 + |first| + |EncodeName(rest)|
  {
    EncodeCons(first, rest);
    hide EncodeName, At;
    AtSplit(m, off, |first|, first, EncodeName(rest));
  }

  lemma NameRoot(m: Bytes, off: nat, bound: nat)
    requires At(m, off, EncodeName([]))
    ensures DecodeName(m, off, bound) == Name([], off + 1) && |EncodeName([])| == 1 && AboveHeader(m, off, bound)
  {
    assert m[off] == m[off..off + 1][0];
  }

  lemma NameStep(m: Bytes, off: nat, first: Label, bound: nat, more: seq<Label>, next: nat)
    requires 1 <= |first| <= 63
    requires off < |m| && m[off] == |first| && At(m, off + 1, first)
    requires DecodeName(m, off + 1 + |first|, bound) == Name(more, next)
    ensures DecodeName(m, off, bound) == Name([first] + more, next)
    ensures AboveHeader(m, off, bound) == AboveHeader(m, off + 1 + |first|, bound)
  {
  }

  lemma {:induction false} NameAt(m: Bytes, off: nat, labels: seq<Label>, bound: nat)
    requires RfcLabels(labels)
    requires At(m, off, EncodeName(labels))
    ensures DecodeName(m, off, bound) == Name(labels, off + |EncodeName(labels)|) && AboveHeader(m, off, bound)
    decreases |labels|
  {
    hide DecodeName, EncodeName, At, AboveHeader;
    if labels == [] {
      NameRoot(m, off, bound);
    } else {
      var first, rest := labels[0], labels[1..];
      assert first in labels && labels == [first] + rest;
      AtLabel(m, off, first, rest);
      NameAt(m, off + 1 + |first|, rest, bound);
      NameStep(m, off, first, bound, rest, off + |EncodeName(labels)|);
    }
  }

  // ----------------------------------------------------- reading under another header

  /** `m` is `query` under another header and with more behind it. */
  ghost predicate SameBody(query: Bytes, m: Bytes) {
    |query| <= |m| && forall i | 12 <= i < |query| :: m[i] == query[i]
  }

  lemma {:induction false} SameName(query: Bytes, m: Bytes, off: nat, bound: nat)
    requires SameBody(query, m) && off >= 12 && AboveHeader(query, off, bound)
    requires DecodeName(query, off, bound).Name?
    ensures DecodeName(m, off, bound) == DecodeName(query, off, bound)
    decreases bound, |query| - off
  {
    if 0 < query[off] < 64 {
      var n := query[off];
      assert m[off + 1..off + 1 + n] == query[off + 1..off + 1 + n];
      SameName(query, m, off + 1 + n, bound);
    } else if query[off] >= 192 {
      assert Word(m, off) == Word(query, off);
      SameName(query, m, Word(query, off) - 0xC000, Word(query, off) - 0xC000);
    }
  }

  lemma SameResource(query: Bytes, m: Bytes, off: nat)
    requires SameBody(query, m) && off >= 12 && AboveHeader(query, off, off) && DecodeResource(query, off).Item?
    ensures DecodeResource(m, off) == DecodeResource(query, off)
  {
    hide DecodeName, AboveHeader, Word, SameBody;
    SameName(query, m, off, off);
    NameAdvances(query, off, off);
    var at := DecodeName(query, off, off).next;
    SameWord(query, m, at);
    SameWord(query, m, at + 2);
    SameWord(query, m, at + 4);
    SameWord(query, m, at + 6);
    SameWord(query, m, at + 8);
    SameSlice(query, m, at + 10, at + 10 + Word(query, at + 8));
  }

  lemma SameWord(query: Bytes, m: Bytes, at: nat)
    requires SameBody(query, m) && 12 <= at && at + 2 <= |query|
    ensures |query| <= |m| && Word(m, at) == Word(query, at)
  {
  }

  lemma SameSlice(query: Bytes, m: Bytes, from: nat, to: nat)
    requires SameBody(query, m) && 12 <= from <= to <= |query|
    ensures |query| <= |m| && m[from..to] == query[from..to]
  {
  }

  lemma ResourceAdvances(m: Bytes, off: nat)
    ensures DecodeResource(m, off).Item? ==> DecodeResource(m, off).next > off
  {
    hide Word;
    NameAdvances(m, off, off);
  }

  lemma {:induction false} SameResources(query: Bytes, m: Bytes, off: nat, count: nat)
    requires SameBody(query, m) && off >= 12 && OwnersAbove(query, off, count)
    requires Repeat(Resources(query), off, count).Item?
    ensures Repeat(Resources(m), off, count) == Repeat(Resources(query), off, count)
    decreases count
  {
    hide SameBody, AboveHeader, DecodeResource;
    if count > 0 {
      SameResource(query, m, off);
      ResourceAdvances(query, off);
      SameResources(query, m, DecodeResource(query, off).next, count - 1);
    }
  }

  lemma SameQuestion(query: Bytes, m: Bytes)
    requires SameBody(query, m) && AboveHeader(query, 12, 12) && Repeat(Queries(query), 12, 1).Item?
    ensures Repeat(Queries(m), 12, 1) == Repeat(Queries(query), 12, 1)
    ensures DecodeName(m, 12, 12).Name?
    ensures var r := Repeat(Queries(query), 12, 1);
            |r.value| == 1 && r.value[0].qname == DecodeName(m, 12, 12).labels && 12 < r.next <= |query|
  {
    assert Queries(query)(12).Item? && DecodeName(query, 12, 12).Name?;
    SameName(query, m, 12, 12);
    NameAdvances(query, 12, 12);
    var Name(labels, at) := DecodeName(query, 12, 12);
    OneQuery(query, labels, at);
    OneQuery(m, labels, at);
    assert Word(m, at) == Word(query, at) && Word(m, at + 2) == Word(query, at + 2);
  }

  /** The record the resolver means by one address. */
  function HostRecord(name: seq<Label>, ip: IPv4): Resource {
    Resource(name, 1, 1, 300, ip)
  }

  function HostRecords(name: seq<Label>, ips: seq<IPv4>): (rs: seq<Resource>)
    ensures |rs| == |ips|
  {
    if ips == [] then [] else [HostRecord(name, ips[0])] + HostRecords(name, ips[1..])
  }

  lemma RecordWords(m: Bytes, off: nat, ip: IPv4)
    requires off + 16 <= |m| && m[off..off + 16] == Record(ip)
    ensures Word(m, off) == 0xC00C && Word(m, off + 2) == 1 && Word(m, off + 4) == 1
    ensures Word(m, off + 6) == 0 && Word(m, off + 8) == 300 && Word(m, off + 10) == 4
    ensures m[off] == 0xC0 && m[off + 12..off + 16] == ip
  {
    var r := m[off..off + 16];
    assert m[off] == r[0] == 0xC0 && m[off + 1] == r[1] == 0x0C;
    assert m[off + 2] == r[2] == 0 && m[off + 3] == r[3] == 1;
    assert m[off + 4] == r[4] == 0 && m[off + 5] == r[5] == 1;
    assert m[off + 6] == r[6] == 0 && m[off + 7] == r[7] == 0;
    assert m[off + 8] == r[8] == 1 && m[off + 9] == r[9] == 0x2C;
    assert m[off + 10] == r[10] == 0 && m[off + 11] == r[11] == 4;
    assert m[off + 12..off + 16] == r[12..16] == ip;
  }

  lemma RecordAt(m: Bytes, off: nat, name: seq<Label>, ip: IPv4)
    requires 12 < off && off + 16 <= |m|
    requires DecodeName(m, 12, 12).Name? && DecodeName(m, 12, 12).labels == name
    requires m[off..off + 16] == Record(ip)
    ensures DecodeResource(m, off) == Item(HostRecord(name, ip), off + 16)
  {
    RecordWords(m, off, ip);
    assert DecodeName(m, off, off) == Name(name, off + 2);
  }

  lemma SliceOfAppend(x: Bytes, y: Bytes, a: nat, b: nat)
    requires a <= b <= |y|
    ensures (x + y)[|x| + a..|x| + b] == y[a..b]
  {
  }

  lemma {:induction false} RecordInRecords(ips: seq<IPv4>, i: nat)
    requires i < |ips|
    ensures Records(ips)[16 * i..16 * i + 16] == Record(ips[i])
  {
    hide Record;
    var first, rest := Record(ips[0]), Records(ips[1..]);
    assert Records(ips) == first + rest;
    if i > 0 {
      hide Records;
      RecordInRecords(ips[1..], i - 1);
      SliceOfAppend(first, rest, 16 * (i - 1), 16 * i);
    }
  }

  /** `items` stand one behind the other from `start` on, 16 bytes each, and nothing behind them. */
  ghost predicate Sixteens<T>(read: nat -> Item<T>, start: nat, items: seq<T>) {
    && (forall i: nat | i < |items| :: read(start + 16 * i) == Item(items[i], start + 16 * i + 16))
    && read(start + 16 * |items|) == Bad
  }

  lemma {:induction false} RepeatSixteens<T>(read: nat -> Item<T>, start: nat, items: seq<T>, k: nat, count: nat)
    requires Sixteens(read, start, items) && k <= |items|
    ensures Repeat(read, start + 16 * k, count)
         == if k + count <= |items| then Item(items[k..k + count], start + 16 * (k + count)) else Bad
    decreases count
  {
    if count == 0 {
      assert items[k..k] == [];
    } else if k < |items| {
      assert read(start + 16 * k) == Item(items[k], start + 16 * (k + 1));
      RepeatSixteens(read, start, items, k + 1, count - 1);
      if k + count <= |items| {
        assert items[k..k + count] == [items[k]] + items[k + 1..k + count];
      }
    }
  }

  lemma RecordsReadable(m: Bytes, off: nat, name: seq<Label>, ips: seq<IPv4>)
    requires 12 < off <= |m|
    requires DecodeName(m, 12, 12).Name? && DecodeName(m, 12, 12).labels == name
    requires m[off..] == Records(ips)
    ensures |m| == off + 16 * |ips|
    ensures Sixteens(Resources(m), off, HostRecords(name, ips))
  {
    hide DecodeName, DecodeResource;
    HostRecordsIndexed(name, ips);
    forall i: nat | i < |ips|
      ensures Resources(m)(off + 16 * i) == Item(HostRecord(name, ips[i]), off + 16 * i + 16)
    {
      RecordReadable(m, off, name, ips, i);
    }
    NothingAtEnd(m);
  }

  lemma NothingAtEnd(m: Bytes)
    ensures DecodeResource(m, |m|) == Bad
  {
  }

  lemma SliceOfDrop(m: Bytes, off: nat, a: nat, b: nat)
    requires off <= |m| && a <= b <= |m| - off
    ensures m[off..][a..b] == m[off + a..off + b]
  {
  }

  lemma RecordReadable(m: Bytes, off: nat, name: seq<Label>, ips: seq<IPv4>, i: nat)
    requires 12 < off <= |m| && i < |ips|
    requires DecodeName(m, 12, 12).Name? && DecodeName(m, 12, 12).labels == name
    requires m[off..] == Records(ips)
    ensures DecodeResource(m, off + 16 * i) == Item(HostRecord(name, ips[i]), off + 16 * i + 16)
  {
    hide DecodeName, DecodeResource;
    hide Record, Records;
    RecordInRecords(ips, i);
    SliceOfDrop(m, off, 16 * i, 16 * i + 16);
    RecordAt(m, off + 16 * i, name, ips[i]);
  }

  /** Reading `count` records succeeds exactly while there are records left. */
  lemma RecordsAt(m: Bytes, off: nat, name: seq<Label>, ips: seq<IPv4>, count: nat)
    requires 12 < off <= |m|
    requires DecodeName(m, 12, 12).Name? && DecodeName(m, 12, 12).labels == name
    requires m[off..] == Records(ips)
    ensures |m| == off + 16 * |ips|
    ensures Repeat(Resources(m), off, count).Bad? <==> count > |ips|
    ensures count <= |ips| ==> Repeat(Resources(m), off, count).next == off + 16 * count
    ensures count == |ips| ==> Repeat(Resources(m), off, count).value == HostRecords(name, ips)
  {
    RecordsReadable(m, off, name, ips);
    HostRecordsIndexed(name, ips);
    RepeatSixteens(Resources(m), off, HostRecords(name, ips), 0, count);
  }

  // ---------------------------------------------------------- whole messages

  /** What reading `count` more items behind `first` gives. */
  function Then<T>(read: nat -> Item<T>, first: Item<seq<T>>, count: nat): Item<seq<T>> {
    match first
    case Bad => Bad
    case Item(xs, at) =>
      match Repeat(read, at, count)
      case Bad => Bad
      case Item(ys, next) => Item(xs + ys, next)
  }

  lemma {:induction false} RepeatSplit<T>(read: nat -> Item<T>, off: nat, a: nat, b: nat)
    ensures Repeat(read, off, a + b) == Then(read, Repeat(read, off, a), b)
    decreases a
  {
    if a == 0 {
      var ys := Repeat(read, off, b);
      assert ys.Item? ==> [] + ys.value == ys.value;
    } else if read(off).Item? {
      var Item(first, at) := read(off);
      RepeatSplit(read, at, a - 1, b);
      var xs := Repeat(read, at, a - 1);
      if xs.Item? {
        var ys := Repeat(read, xs.next, b);
        assert ys.Item? ==> [first] + (xs.value + ys.value) == ([first] + xs.value) + ys.value;
      }
    }
  }

  lemma {:induction false} RepeatLength<T>(read: nat -> Item<T>, off: nat, count: nat)
    ensures Repeat(read, off, count).Item? ==> |Repeat(read, off, count).value| == count
    decreases count
  {
    if count > 0 && read(off).Item? {
      RepeatLength(read, read(off).next, count - 1);
    }
  }

  /** A message whose records `all` are split by the counts `an` and `ns`. */
  function Sections(header: Header, qs: seq<Query>, all: seq<Resource>, an: nat, ns: nat): Message
    requires an + ns <= |all|
  {
    Message(header, qs, all[..an], all[an..an + ns], all[an + ns..])
  }

  /** The three sections are one list of records, cut by the counts in the header. */
  lemma DecodeRecords(m: Bytes, qs: seq<Query>, at: nat)
    requires |m| >= 12 && Repeat(Queries(m), 12, Word(m, 4)) == Item(qs, at)
    ensures var records := Repeat(Resources(m), at, RecordCount(m));
            && (records.Item? ==> |records.value| == RecordCount(m))
            && DecodeMessage(m)
               == if records.Bad? || records.next != |m| then None
                  else Some(Sections(DecodeHeader(m), qs, records.value, Word(m, 6), Word(m, 8)))
  {
    hide Repeat, Word, DecodeHeader, Queries, Resources;
    var read, an, ns, ar := Resources(m), Word(m, 6), Word(m, 8), Word(m, 10);
    RepeatSplit(read, at, an, ns);
    RepeatSplit(read, at, an + ns, ar);
    RepeatLength(read, at, an);
    RepeatLength(read, at, an + ns);
    RepeatLength(read, at, an + ns + ar);
    var all := Repeat(read, at, an + ns + ar);
    if all.Item? {
      var first := Repeat(read, at, an);
      var second := Repeat(read, first.next, ns);
      assert first.value == all.value[..an];
      assert second.value == all.value[an..an + ns];
      assert Repeat(read, second.next, ar).value == all.value[an + ns..];
    }
  }

  lemma QuestionAt(m: Bytes, labels: seq<Label>, tail: Bytes, more: Bytes)
    requires |m| >= 12 && RfcLabels(labels) && |tail| == 4
    requires m[12..] == EncodeName(labels) + tail + more
    ensures DecodeName(m, 12, 12) == Name(labels, 12 + |EncodeName(labels)|) && AboveHeader(m, 12, 12)
    ensures Repeat(Queries(m), 12, 1)
         == Item([Query(labels, U16(tail[0], tail[1]), U16(tail[2], tail[3]))], 16 + |EncodeName(labels)|)
    ensures m[16 + |EncodeName(labels)|..] == more
  {
    var at := 12 + |EncodeName(labels)|;
    BodySplit(m, EncodeName(labels), tail, more);
    NameAt(m, 12, labels, 12);
    OneQuery(m, labels, at);
  }

  lemma BodySplit(m: Bytes, code: Bytes, tail: Bytes, more: Bytes)
    requires |m| >= 12 && |tail| == 4
    requires m[12..] == code + tail + more
    ensures At(m, 12, code) && |m| >= 16 + |code| && m[16 + |code|..] == more
    ensures var at := 12 + |code|; Word(m, at) == U16(tail[0], tail[1]) && Word(m, at + 2) == U16(tail[2], tail[3])
  {
    var body := m[12..];
    var n := |code|;
    assert m[12..12 + n] == body[..n];
    assert m[16 + n..] == body[4 + n..];
    assert m[12 + n] == body[n] == tail[0] && m[13 + n] == body[n + 1] == tail[1];
    assert m[14 + n] == body[n + 2] == tail[2] && m[15 + n] == body[n + 3] == tail[3];
  }

  lemma OneQuery(m: Bytes, labels: seq<Label>, at: nat)
    requires DecodeName(m, 12, 12) == Name(labels, at) && at + 4 <= |m|
    ensures Repeat(Queries(m), 12, 1) == Item([Query(labels, Word(m, at), Word(m, at + 2))], at + 4)
  {
    assert Repeat(Queries(m), at + 4, 0) == Item([], at + 4);
    var q := Query(labels, Word(m, at), Word(m, at + 2));
    assert [q] + [] == [q];
  }

  lemma AtAppend(m: Bytes, off: nat, x: Bytes, y: Bytes)
    requires At(m, off, x + y)
    ensures At(m, off, x) && At(m, off + |x|, y)
  {
    var whole := m[off..off + |x + y|];
    assert m[off..off + |x|] == whole[..|x|];
    assert m[off + |x|..off + |x| + |y|] == whole[|x|..];
  }

  lemma FixedAt(m: Bytes, at: nat, r: Resource)
    requires ResourceOk(r) && At(m, at, Fixed(r))
    ensures Word(m, at) == r.rtype && Word(m, at + 2) == r.class_
    ensures 0x1_0000 * Word(m, at + 4) + Word(m, at + 6) == r.ttl && Word(m, at + 8) == |r.rdata|
  {
    var b := m[at..at + 10];
    assert b[0] == m[at] && b[1] == m[at + 1] && b[2] == m[at + 2] && b[3] == m[at + 3];
    assert b[4] == m[at + 4] && b[5] == m[at + 5] && b[6] == m[at + 6] && b[7] == m[at + 7];
    assert b[8] == m[at + 8] && b[9] == m[at + 9];
  }

  lemma ResourceAt(m: Bytes, off: nat, r: Resource)
    requires ResourceOk(r) && At(m, off, EncodeResource(r))
    ensures DecodeResource(m, off) == Item(r, off + |EncodeResource(r)|) && AboveHeader(m, off, off)
  {
    hide DecodeName, EncodeName, Fixed, Word, AboveHeader;
    var at := off + |EncodeName(r.name)|;
    AtAppend(m, off, EncodeName(r.name), Fixed(r) + r.rdata);
    AtAppend(m, at, Fixed(r), r.rdata);
    NameAt(m, off, r.name, off);
    FixedAt(m, at, r);
  }

  lemma {:induction false} ResourcesAt(m: Bytes, off: nat, rs: seq<Resource>)
    requires ResourcesOk(rs) && At(m, off, EncodeResources(rs))
    ensures Repeat(Resources(m), off, |rs|) == Item(rs, off + |EncodeResources(rs)|) && OwnersAbove(m, off, |rs|)
    decreases |rs|
  {
    hide EncodeResource, DecodeResource, ResourceOk, AboveHeader;
    if rs != [] {
      assert rs[0] in rs && rs == [rs[0]] + rs[1..];
      AtAppend(m, off, EncodeResource(rs[0]), EncodeResources(rs[1..]));
      ResourceAt(m, off, rs[0]);
      ResourcesAt(m, off + |EncodeResource(rs[0])|, rs[1..]);
    }
  }

  lemma {:induction false} NameAdvances(m: Bytes, off: nat, bound: nat)
    ensures DecodeName(m, off, bound).Name? ==> DecodeName(m, off, bound).next > off
    decreases |m| - off
  {
    if off < |m| && 0 < m[off] < 64 {
      NameAdvances(m, off + 1 + m[off], bound);
    }
  }

  lemma {:induction false} RecordsAdvance(m: Bytes, off: nat, count: nat)
    ensures Repeat(Resources(m), off, count).Item? ==> Repeat(Resources(m), off, count).next >= off + count
    decreases count
  {
    hide DecodeName, Word;
    if count > 0 && DecodeResource(m, off).Item? {
      NameAdvances(m, off, off);
      RecordsAdvance(m, DecodeResource(m, off).next, count - 1);
    }
  }

  lemma PiecesAt(m: Bytes, off: nat, code: Bytes, more: Bytes)
    requires off <= |m| && m[off..] == code + more
    ensures At(m, off, code) && m[off + |code|..] == more
  {
    SliceOfDrop(m, off, 0, |code|);
    SliceOfDrop(m, off, |code|, |m| - off);
  }

  /** Fewer records than there are end before the last one does. */
  lemma TooFewRecords(m: Bytes, off: nat, rs: seq<Resource>, end: nat, count: nat)
    requires Repeat(Resources(m), off, |rs|) == Item(rs, end) && count < |rs|
    ensures Repeat(Resources(m), off, count).Item? ==> Repeat(Resources(m), off, count).next < end
  {
    hide Repeat, Resources;
    RepeatSplit(Resources(m), off, count, |rs| - count);
    if Repeat(Resources(m), off, count).Item? {
      RecordsAdvance(m, Repeat(Resources(m), off, count).next, |rs| - count);
    }
  }

  /** An encoded question and encoded records, announced by the header, are such a message. */
  lemma EncodedIsOneQuestion(query: Bytes, labels: seq<Label>, tail: Bytes, extra: seq<Resource>)
    requires |query| >= 12 && RfcLabels(labels) && |tail| == 4 && ResourcesOk(extra)
    requires query[12..] == EncodeName(labels) + tail + EncodeResources(extra)
    requires Word(query, 4) == 1 && RecordCount(query) == |extra|
    ensures OneQuestion(
              query,
              Sections(
                DecodeHeader(query), [Query(labels, U16(tail[0], tail[1]), U16(tail[2], tail[3]))], extra,
                Word(query, 6), Word(query, 8)))
  {
    hide DecodeName, DecodeMessage, DecodeHeader, Repeat, Resources, Queries, Word, U16, AboveHeader, OwnersAbove;
    hide EncodeName, EncodeResources, ResourcesOk;
    var code, at := EncodeResources(extra), 16 + |EncodeName(labels)|;
    QuestionAt(query, labels, tail, code);
    DecodeRecords(query, [Query(labels, U16(tail[0], tail[1]), U16(tail[2], tail[3]))], at);
    PiecesAt(query, at, code, []);
    ResourcesAt(query, at, extra);
  }

  /** What the decoder found in such a message, piece by piece. */
  lemma QueryPieces(query: Bytes, q: Message)
    requires OneQuestion(query, q)
    ensures |query| >= 12 && Word(query, 4) == 1
    ensures var r := Repeat(Queries(query), 12, 1);
            r.Item? && r.value == q.questions
            && Repeat(Resources(query), r.next, RecordCount(query)) == Item(AllRecords(q), |query|)
    ensures |AllRecords(q)| == RecordCount(query) && |q.answers| == Word(query, 6)
    ensures |q.authority| == Word(query, 8)
    ensures q.header == DecodeHeader(query)
  {
    hide Repeat, Word, DecodeHeader, Queries, Resources, AboveHeader, OwnersAbove;
    RepeatLength(Queries(query), 12, Word(query, 4));
    var r := Repeat(Queries(query), 12, 1);
    DecodeRecords(query, r.value, r.next);
    var all := Repeat(Resources(query), r.next, RecordCount(query));
    assert q == Sections(DecodeHeader(query), r.value, all.value, Word(query, 6), Word(query, 8));
    assert AllRecords(q) == all.value;
  }

  /** Under another header and with more behind it, such a message is read as before. */
  lemma ReadsAlike(query: Bytes, q: Message, m: Bytes) returns (at: nat)
    requires OneQuestion(query, q) && SameBody(query, m)
    ensures 12 < at && |query| > 12
    ensures Repeat(Queries(m), 12, 1) == Item(q.questions, at)
    ensures DecodeName(m, 12, 12).Name? && |q.questions| == 1
    ensures q.questions[0].qname == DecodeName(m, 12, 12).labels
    ensures Repeat(Resources(m), at, |AllRecords(q)|) == Item(AllRecords(q), |query|)
  {
    QueryPieces(query, q);
    hide DecodeName, DecodeMessage, Repeat, Resources, Queries, Word, AllRecords, AboveHeader, OwnersAbove, SameBody;
    at := Repeat(Queries(query), 12, 1).next;
    SameQuestion(query, m);
    SameResources(query, m, at, RecordCount(query));
  }

  /** Reading `count` records where `extra` and then one host record per address stand up to the end. */
  lemma AllRecordsAt(
    m: Bytes, off: nat, extra: seq<Resource>, mid: nat, name: seq<Label>, ips: seq<IPv4>, count: nat)
    requires 12 < off && 12 < mid <= |m| && Repeat(Resources(m), off, |extra|) == Item(extra, mid)
    requires DecodeName(m, 12, 12).Name? && DecodeName(m, 12, 12).labels == name
    requires m[mid..] == Records(ips)
    ensures var all := Repeat(Resources(m), off, count);
            && (all.Item? && all.next == |m| <==> count == |extra| + |ips|)
            && (count == |extra| + |ips| ==> all.value == extra + HostRecords(name, ips))
  {
    hide DecodeName, Records, HostRecords, Resources, Repeat;
    if count < |extra| {
      TooFewRecords(m, off, extra, mid, count);
    } else {
      RepeatSplit(Resources(m), off, |extra|, count - |extra|);
      RecordsAt(m, mid, name, ips, count - |extra|);
    }
  }

  lemma ReplyWords(query: Bytes, addrs: seq<Address>)
    requires |query| >= 12
    ensures var m := Response(query, addrs);
            && |m| >= 12 && m[12..] == query[12..] + Records(V4s(addrs))
            && Word(m, 4) == Word(query, 4) && Word(m, 6) == |addrs| % 256
            && Word(m, 8) == Word(query, 8) && Word(m, 10) == Word(query, 10)
            && DecodeHeader(m) == Header(Word(query, 0), true, 0, false, false, true, true, 0, 0)
  {
    hide Records, V4s;
    var m, n := Response(query, addrs), |addrs| % 256;
    var head := query[..2] + [0x81, 0x80] + query[4..6] + [0, n];
    var body := query[8..] + Records(V4s(addrs));
    assert m == head + body;
    assert m[0] == query[0] && m[1] == query[1] && m[2] == 0x81 && m[3] == 0x80;
    assert m[4] == query[4] && m[5] == query[5] && m[6] == 0 && m[7] == n;
    assert m[8] == query[8] && m[9] == query[9] && m[10] == query[10] && m[11] == query[11];
  }

  /** The header of every reply with answers. */
  function AnswerHeader(query: Bytes): Header
    requires |query| >= 12
  {
    Header(Word(query, 0), true, 0, false, false, true, true, 0, 0)
  }

  lemma ReplyBody(query: Bytes, addrs: seq<Address>)
    requires |query| >= 12
    ensures var m := Response(query, addrs);
            SameBody(query, m) && m[|query|..] == Records(V4s(addrs))
  {
    hide Records, V4s, Response;
    ReplyWords(query, addrs);
    var m := Response(query, addrs);
    var body := m[12..];
    assert forall i | 12 <= i < |query| :: m[i] == body[i - 12] == query[12..][i - 12];
    assert m[|query|..] == body[|query| - 12..];
  }

  /**
   The reply to a message with one question decodes iff the count |addrs| mod 256 is that of the query's own
   answers and the IPv4 addresses. It is then the query's ID and question with QR, RD and RA set and RCODE 0;
   its records are those of the query and one A/IN record of TTL 300 per IPv4 address, in order, each naming
   the question through its 0xC00C pointer. The first |addrs| mod 256 of them are the answers.
   */
  lemma ResponseDecodes(query: Bytes, q: Message, addrs: seq<Address>)
    requires OneQuestion(query, q)
    ensures DecodeMessage(Response(query, addrs))
         == if |addrs| % 256 != |q.answers| + |V4s(addrs)| then None
            else Some(Sections(
                        AnswerHeader(query), q.questions,
                        AllRecords(q) + HostRecords(q.questions[0].qname, V4s(addrs)),
                        |addrs| % 256, |q.authority|))
  {
    hide DecodeName, DecodeMessage, DecodeHeader, Repeat, Resources, Queries, Word, AllRecords, OneQuestion;
    hide Response, Records, V4s, HostRecords, SameBody;
    QueryPieces(query, q);
    var m, ips := Response(query, addrs), V4s(addrs);
    ReplyWords(query, addrs);
    ReplyBody(query, addrs);
    var at := ReadsAlike(query, q, m);
    DecodeRecords(m, q.questions, at);
    AllRecordsAt(m, at, AllRecords(q), |query|, q.questions[0].qname, ips, RecordCount(m));
  }

  lemma WellFormed(query: Bytes, q: Message)
    requires OneQuestion(query, q)
    ensures |query| >= 12 && |q.questions| == 1
  {
    hide Repeat, AboveHeader, OwnersAbove;
  }

  lemma AtJoin(m: Bytes, off: nat, first: Label, code: Bytes)
    requires 1 <= |first| <= 63 && off < |m| && m[off] == |first|
    requires At(m, off + 1, first) && At(m, off + 1 + |first|, code)
    ensures At(m, off, [|first|] + first + code)
  {
    var n, k := off + 1 + |first|, |code|;
    assert m[off..n + k] == [m[off]] + m[off + 1..n] + m[n..n + k];
  }

  lemma EncodedRoot(m: Bytes, off: nat)
    requires off < |m| && m[off] == 0
    ensures At(m, off, EncodeName([])) && |EncodeName([])| == 1
  {
    assert m[off..off + 1] == [0] == EncodeName([]);
  }

  /** How a name above the header starts: with the root or a label, not with a pointer. */
  lemma NameStarts(m: Bytes, off: nat)
    requires off >= 12 && AboveHeader(m, off, 12) && DecodeName(m, off, 12).Name?
    ensures off < |m| && m[off] < 64
    ensures m[off] == 0 ==> DecodeName(m, off, 12) == Name([], off + 1)
    ensures m[off] > 0 ==>
              var at := off + 1 + m[off];
              && at <= |m| && AboveHeader(m, at, 12) && DecodeName(m, at, 12).Name?
              && DecodeName(m, off, 12)
                 == Name([m[off + 1..at]] + DecodeName(m, at, 12).labels, DecodeName(m, at, 12).next)
  {
  }

  lemma {:induction false} NameIsEncoded(m: Bytes, off: nat)
    requires off >= 12 && AboveHeader(m, off, 12) && DecodeName(m, off, 12).Name?
    ensures var Name(labels, next) := DecodeName(m, off, 12);
            RfcLabels(labels) && At(m, off, EncodeName(labels)) && next == off + |EncodeName(labels)|
    decreases |m| - off
  {
    hide DecodeName, EncodeName, AboveHeader;
    NameStarts(m, off);
    if m[off] == 0 {
      EncodedRoot(m, off);
    } else {
      var at := off + 1 + m[off];
      var first, rest := m[off + 1..at], DecodeName(m, at, 12).labels;
      NameIsEncoded(m, at);
      EncodeCons(first, rest);
      AtJoin(m, off, first, EncodeName(rest));
    }
  }

  lemma QuestionPieces(query: Bytes, q: Message) returns (at: nat)
    requires OneQuestion(query, q)
    ensures 12 <= at && at + 4 <= |query| && AboveHeader(query, 12, 12) && |q.questions| == 1
    ensures DecodeName(query, 12, 12) == Name(q.questions[0].qname, at)
    ensures q.questions[0].qtype == Word(query, at)
  {
    QueryPieces(query, q);
    hide DecodeName, AboveHeader, OwnersAbove, DecodeMessage, Word;
    NameAdvances(query, 12, 12);
    assert Queries(query)(12).Item?;
    var Name(labels, next) := DecodeName(query, 12, 12);
    at := next;
    OneQuery(query, labels, at);
  }

  lemma ParsesEncoded(query: Bytes, labels: seq<Label>, at: nat)
    requires 12 <= at && at + 4 <= |query| && RfcLabels(labels)
    requires At(query, 12, EncodeName(labels)) && at == 12 + |EncodeName(labels)|
    ensures QuestionOf(query) == Parsed(Question(Join(labels), TypeOf(query[at], query[at + 1])))
  {
    hide EncodeName, QuestionOf, Join, TypeOf;
    var rest := query[at..];
    assert query[12..] == query[12..at] + rest;
    assert rest[0] == query[at] && rest[1] == query[at + 1];
    ParseInvertsEncoder(query, labels, rest);
  }

  /** The question parser of the resolver and the decoder read the same question. */
  lemma QuestionAgrees(query: Bytes, q: Message)
    requires OneQuestion(query, q)
    ensures QuestionOf(query).Parsed? && |q.questions| == 1
    ensures var seen, asked := QuestionOf(query).question, q.questions[0];
            && seen.name == Join(asked.qname)
            && seen.qtype == if asked.qtype == 28 then AAAA else if asked.qtype == 15 then MX else A
  {
    hide DecodeName, Join, AboveHeader, OneQuestion, QuestionOf, EncodeName, At;
    var at := QuestionPieces(query, q);
    NameIsEncoded(query, 12);
    ParsesEncoded(query, q.questions[0].qname, at);
  }

  /** With IPv4 answers only, and at most 255 of them, the reply to a query always decodes. */
  lemma AllIPv4Decodes(query: Bytes, q: Message, addrs: seq<Address>)
    requires OneQuestion(query, q) && q.answers == []
    requires |addrs| <= 255 && forall a | a in addrs :: a.V4?
    ensures DecodeMessage(Response(query, addrs)).Some?
    ensures var m, k := DecodeMessage(Response(query, addrs)).value, |AllRecords(q)|;
            && |m.answers| == |addrs| && |AllRecords(m)| == k + |addrs|
            && AllRecords(m)[..k] == AllRecords(q)
            && forall i | 0 <= i < |addrs| ::
                 AllRecords(m)[k + i] == HostRecord(q.questions[0].qname, addrs[i].octets)
  {
    hide DecodeMessage, Response, OneQuestion, HostRecords, V4s, AllRecords;
    WellFormed(query, q);
    AllV4sInOrder(addrs);
    SectionsHold(query, q, addrs);
    HostRecordsIndexed(q.questions[0].qname, V4s(addrs));
    RecordsAppend(AllRecords(q), HostRecords(q.questions[0].qname, V4s(addrs)));
  }

  lemma RecordsAppend(xs: seq<Resource>, ys: seq<Resource>)
    ensures (xs + ys)[..|xs|] == xs && forall i | 0 <= i < |ys| :: (xs + ys)[|xs| + i] == ys[i]
  {
  }

  /** The sections of the reply hold its records. */
  lemma SectionsHold(query: Bytes, q: Message, addrs: seq<Address>)
    requires OneQuestion(query, q) && |addrs| % 256 == |q.answers| + |V4s(addrs)|
    ensures DecodeMessage(Response(query, addrs)).Some?
    ensures var m := DecodeMessage(Response(query, addrs)).value;
            && |m.answers| == |addrs| % 256
            && AllRecords(m) == AllRecords(q) + HostRecords(q.questions[0].qname, V4s(addrs))
            && m.answers == AllRecords(m)[..|addrs| % 256]
            && m.questions == q.questions
  {
    hide DecodeMessage, Response, HostRecords, V4s, OneQuestion;
    WellFormed(query, q);
    ResponseDecodes(query, q, addrs);
    var all := AllRecords(q) + HostRecords(q.questions[0].qname, V4s(addrs));
    var m := DecodeMessage(Response(query, addrs)).value;
    assert m == Sections(AnswerHeader(query), q.questions, all, |addrs| % 256, |q.authority|);
    assert AllRecords(m) == all;
  }

  /**
   Records behind the question of a query come first among the records of the reply: the answer section holds
   the addresses iff these begin that list. When none of the query's records is an A record, as with EDNS, it
   does iff there are no such records, or no addresses.
   */
  lemma ExtraRecordsComeFirst(query: Bytes, q: Message, addrs: seq<Address>)
    requires OneQuestion(query, q) && q.answers == [] && |V4s(addrs)| == |addrs| % 256
    ensures DecodeMessage(Response(query, addrs)).Some?
    ensures var hosts := HostRecords(q.questions[0].qname, V4s(addrs));
            var right := DecodeMessage(Response(query, addrs)).value.answers == hosts;
            && (right <==> hosts <= AllRecords(q) + hosts)
            && ((forall r | r in AllRecords(q) :: r.rtype != 1) ==>
                  (right <==> AllRecords(q) == [] || V4s(addrs) == []))
  {
    hide DecodeMessage, Response, HostRecords, V4s, OneQuestion, AllRecords;
    WellFormed(query, q);
    SectionsHold(query, q, addrs);
    var extra, hosts := AllRecords(q), HostRecords(q.questions[0].qname, V4s(addrs));
    HostRecordsIndexed(q.questions[0].qname, V4s(addrs));
    if extra == [] {
      assert extra + hosts == hosts;
    } else if hosts != [] {
      assert (extra + hosts)[0] == extra[0] && extra[0] in extra;
      assert hosts[0] == HostRecord(q.questions[0].qname, V4s(addrs)[0]);
    }
  }

  /** A query for the root: ID 7, RD set, `k` additional records encoded as `code`. */
  function RootQuery(k: byte, tail: Bytes, code: Bytes): Bytes {
    [0, 7, 1, 0, 0, 1, 0, 0, 0, 0, 0, k] + ([0] + tail + code)
  }

  function RootMessage(qtype: nat, additional: seq<Resource>): Message {
    Message(Header(7, false, 0, false, false, true, false, 0, 0), [Query([], qtype, 1)], [], [], additional)
  }

  lemma RootHeader(k: byte, tail: Bytes, code: Bytes)
    ensures var q := RootQuery(k, tail, code);
            && |q| >= 12 && q[12..] == [0] + tail + code && Word(q, 4) == 1 && Word(q, 6) == 0 && Word(q, 8) == 0
            && RecordCount(q) == k && DecodeHeader(q) == RootMessage(0, []).header
  {
    var q, head := RootQuery(k, tail, code), [0, 7, 1, 0, 0, 1, 0, 0, 0, 0, 0, k];
    assert q[12..] == [0] + tail + code;
    assert q[0] == head[0] && q[1] == head[1] && q[2] == head[2] && q[3] == head[3];
    assert q[4] == head[4] && q[5] == head[5] && q[6] == head[6] && q[7] == head[7];
    assert q[8] == head[8] && q[9] == head[9] && q[10] == head[10] && q[11] == head[11];
  }

  lemma RootIsOneQuestion(tail: Bytes, extra: seq<Resource>)
    requires |tail| == 4 && U16(tail[2], tail[3]) == 1 && |extra| < 256 && ResourcesOk(extra)
    ensures OneQuestion(
              RootQuery(|extra|, tail, EncodeResources(extra)), RootMessage(U16(tail[0], tail[1]), extra))
  {
    hide DecodeName, ResourcesOk, AboveHeader, OwnersAbove, OneQuestion, DecodeMessage, EncodeResources;
    hide RootQuery, DecodeHeader, Word, RecordCount, U16;
    RootHeader(|extra|, tail, EncodeResources(extra));
    assert EncodeName([]) == [0];
    EncodedIsOneQuestion(RootQuery(|extra|, tail, EncodeResources(extra)), [], tail, extra);
    assert extra[..0] == [] && extra[0..0] == [] && extra[0..] == extra;
  }

  /** For the AAAA records of the root. */
  const ROOT_QUERY := RootQuery(0, [0, 28, 0, 1], [])

  lemma RootQueryIsQuery()
    ensures OneQuestion(ROOT_QUERY, RootMessage(28, []))
  {
    hide OneQuestion, RootQuery;
    RootIsOneQuestion([0, 28, 0, 1], []);
  }

  /** The count can be wrong: one IPv6 address is counted but not sent, and the reply does not decode. */
  lemma IPv6ReplyDoesNotDecode()
    ensures OneQuestion(ROOT_QUERY, RootMessage(28, []))
    ensures DecodeMessage(Response(ROOT_QUERY, [NotV4])) == None
  {
    hide DecodeMessage, Response, OneQuestion;
    RootQueryIsQuery();
    ResponseDecodes(ROOT_QUERY, RootMessage(28, []), [NotV4]);
    assert V4s([NotV4]) == V4s([]) == [];
  }

  const OPT := Resource([], 41, 4096, 0, [])

  /** For the A records of the root, with an EDNS record: owner root, type OPT, 4096 bytes. */
  const EDNS_QUERY := RootQuery(1, [0, 1, 0, 1], [0, 0, 41, 16, 0, 0, 0, 0, 0, 0, 0])

  lemma EncodeOne(r: Resource)
    requires ResourceOk(r)
    ensures ResourcesOk([r]) && EncodeResources([r]) == EncodeResource(r)
  {
    hide EncodeResource, ResourceOk;
    assert [r][1..] == [];
    assert EncodeResource(r) + [] == EncodeResource(r);
  }

  lemma OptCode()
    ensures ResourcesOk([OPT]) && EncodeResources([OPT]) == [0, 0, 41, 16, 0, 0, 0, 0, 0, 0, 0]
  {
    OptFixed();
    hide Fixed, EncodeResources, ResourcesOk;
    EncodeOne(OPT);
    assert EncodeName([]) == [0];
  }

  lemma OptFixed()
    ensures ResourceOk(OPT) && Fixed(OPT) == [0, 41, 16, 0, 0, 0, 0, 0, 0, 0]
  {
    assert W16(41) == [0, 41] && W16(4096) == [16, 0] && W16(0) == [0, 0];
    hide W16;
  }

  lemma EdnsQueryIsQuery()
    ensures OneQuestion(EDNS_QUERY, RootMessage(1, [OPT]))
  {
    hide OneQuestion, RootQuery, EncodeResources, ResourcesOk;
    OptCode();
    RootIsOneQuestion([0, 1, 0, 1], [OPT]);
  }

  /** The answer section can miss the address: it holds the EDNS record of the query. */
  lemma EdnsReplyAnswersOpt(ip: IPv4)
    ensures OneQuestion(EDNS_QUERY, RootMessage(1, [OPT]))
    ensures DecodeMessage(Response(EDNS_QUERY, [V4(ip)])).Some?
    ensures DecodeMessage(Response(EDNS_QUERY, [V4(ip)])).value.answers == [OPT]
  {
    hide DecodeMessage, Response, OneQuestion, HostRecords;
    EdnsQueryIsQuery();
    assert V4s([V4(ip)]) == [ip] + V4s([]);
    SectionsHold(EDNS_QUERY, RootMessage(1, [OPT]), [V4(ip)]);
    assert AllRecords(RootMessage(1, [OPT])) == [OPT];
  }

  lemma {:induction false} HostRecordsIndexed(name: seq<Label>, ips: seq<IPv4>)
    ensures forall i | 0 <= i < |ips| :: HostRecords(name, ips)[i] == HostRecord(name, ips[i])
  {
    if ips != [] {
      HostRecordsIndexed(name, ips[1..]);
    }
  }

  lemma {:induction false} AllV4sInOrder(addrs: seq<Address>)
    requires forall a | a in addrs :: a.V4?
    ensures |V4s(addrs)| == |addrs|
    ensures forall i | 0 <= i < |addrs| :: V4s(addrs)[i] == addrs[i].octets
  {
    if addrs != [] {
      AllV4sInOrder(addrs[1..]);
      assert forall i | 1 <= i < |addrs| :: addrs[i] == addrs[1..][i - 1];
    }
  }

  lemma FailureWords(query: Bytes)
    requires |query| >= 12
    ensures var m := ServFail(query);
            && |m| >= 12 && m[12..] == query[12..]
            && Word(m, 4) == Word(query, 4) && Word(m, 6) == Word(query, 6)
            && Word(m, 8) == Word(query, 8) && Word(m, 10) == Word(query, 10)
            && DecodeHeader(m) == Header(Word(query, 0), true, 0, false, false, true, true, 0, 2)
  {
    var m := ServFail(query);
    assert m[0] == query[0] && m[1] == query[1] && m[2] == 0x81 && m[3] == 0x82;
    assert forall i | 4 <= i < 12 :: m[i] == query[i];
  }

  lemma FailureBody(query: Bytes)
    requires |query| >= 12
    ensures SameBody(query, ServFail(query)) && |ServFail(query)| == |query|
  {
    var m := ServFail(query);
    assert forall i | 12 <= i < |query| :: m[i] == query[i];
  }

  /** A SERVFAIL reply always decodes, to the query's ID, question and records with RCODE 2. */
  lemma ServFailDecodes(query: Bytes, q: Message)
    requires OneQuestion(query, q)
    ensures DecodeMessage(ServFail(query)) == Some(q.(header := AnswerHeader(query).(rcode := 2)))
  {
    hide DecodeName, DecodeMessage, DecodeHeader, Repeat, Resources, Queries, Word, AllRecords, OneQuestion;
    hide ServFail, SameBody;
    QueryPieces(query, q);
    var m := ServFail(query);
    FailureWords(query);
    FailureBody(query);
    var at := ReadsAlike(query, q, m);
    DecodeRecords(m, q.questions, at);
    RecordsCut(q, DecodeHeader(m));
  }

  lemma RecordsCut(q: Message, header: Header)
    ensures |AllRecords(q)| == |q.answers| + |q.authority| + |q.additional|
    ensures Sections(header, q.questions, AllRecords(q), |q.answers|, |q.authority|) == q.(header := header)
  {
    var all := AllRecords(q);
    assert all[..|q.answers|] == q.answers;
    assert all[|q.answers|..|q.answers| + |q.authority|] == q.authority;
    assert all[|q.answers| + |q.authority|..] == q.additional;
  }
}
