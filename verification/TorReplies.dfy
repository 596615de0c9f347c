/**
 Reply framing of the Tor control client over a byte stream, and when it keeps in step with the
 reply grammar of section 2.3 of the Tor control specification.
 */
module TorReplies {
  import opened Basics
  import opened Text

  datatype LineRead = Closed | Line(line: string, rest: string)

  /** `textproto.Reader.ReadLine`: one line less its LF or CRLF; an unfinished last line counts as one. */
  function ReadLine(s: string): LineRead {
    var n := LineEnd(s);
    if s == [] then Closed
    else if n == |s| then Line(s, [])
    else if n > 0 && s[n - 1] == '\r' then Line(s[..n - 1], s[n + 1..])
    else Line(s[..n], s[n + 1..])
  }

  lemma ReadLineShrinks(s: string)
    ensures ReadLine(s).Line? ==> |ReadLine(s).rest| < |s|
  {
  }

  /** A line ends with LF; one CR before it goes too. What stands before the end of the stream is a line as well. */
  lemma LineEnds(line: string, rest: string)
    requires '\n' !in line
    ensures ReadLine(line + "\r\n" + rest) == Line(line, rest)
    ensures line == [] || line[|line| - 1] != '\r' ==> ReadLine(line + "\n" + rest) == Line(line, rest)
    ensures ReadLine(line) == if line == [] then Closed else Line(line, [])
  {
    ReadCrlfLine(line, rest);
    var s := line + "\n" + rest;
    assert s == line + ("\n" + rest);
    LineEndIs(line, "\n" + rest);
    assert s[..|line|] == line && s[|line| + 1..] == rest;
    LineEndIs(line, []);
    assert line + [] == line;
  }

  /** The two conditions on which the read loop stops. */
  predicate IsFinal(line: string) {
    (|line| >= 4 && line[3] == ' ') || HasPrefix(line, "250 OK")
  }

  /** The second condition never decides: "250 OK" has its space at index 3. */
  lemma OkTestIsRedundant(line: string)
    ensures IsFinal(line) <==> |line| >= 4 && line[3] == ' '
  {
    if HasPrefix(line, "250 OK") {
      assert line[3] == "250 OK"[3];
    }
  }

  /** A framed reply, what is left on the stream, and whether a final line was met. */
  datatype Framed = Framed(reply: string, rest: string, complete: bool)

  function Frame(s: string): Framed
    decreases |s|
  {
    ReadLineShrinks(s);
    match ReadLine(s)
    case Closed => Framed([], [], false)
    case Line(line, rest) =>
      if IsFinal(line) then Framed(line + "\n", rest, true)
      else Framed(line + "\n" + Frame(rest).reply, Frame(rest).rest, Frame(rest).complete)
  }

  /** The read loop over `start` has written `sofar` and is left with `input`. */
  ghost predicate ReadSoFar(start: string, sofar: string, input: string) {
    Frame(start) == Framed(sofar + Frame(input).reply, Frame(input).rest, Frame(input).complete)
  }

  lemma NothingRead(start: string)
    ensures ReadSoFar(start, [], start)
  {
    hide Frame;
    assert [] + Frame(start).reply == Frame(start).reply;
  }

  lemma FrameStep(s: string)
    ensures ReadLine(s).Closed? ==> Frame(s) == Framed([], [], false)
    ensures ReadLine(s).Line? ==>
              var Line(line, rest) := ReadLine(s);
              Frame(s) == if IsFinal(line) then Framed(line + "\n", rest, true)
              else Framed(line + "\n" + Frame(rest).reply, Frame(rest).rest, Frame(rest).complete)
  {
  }

  lemma OneLineRead(start: string, sofar: string, s: string, line: string, rest: string)
    requires ReadSoFar(start, sofar, s) && ReadLine(s) == Line(line, rest)
    ensures if IsFinal(line) then Frame(start) == Framed(sofar + line + "\n", rest, true)
            else ReadSoFar(start, sofar + line + "\n", rest)
  {
    hide Frame, ReadLine, IsFinal;
    FrameStep(s);
    Regroup(sofar, line, "\n", Frame(rest).reply);
  }

  lemma Regroup(a: string, b: string, c: string, d: string)
    ensures a + (b + c) == a + b + c
    ensures a + (b + c + d) == a + b + c + d
  {
  }

  lemma EndOfInput(start: string, sofar: string)
    requires ReadSoFar(start, sofar, [])
    ensures Frame(start) == Framed(sofar, [], false)
  {
    FrameStep([]);
    hide Frame;
    assert sofar + [] == sofar;
  }

  /** The control connection: what Tor has sent and was not read yet, and what was written to Tor. */
  class Controller {
    var input: string
    var output: string
    const writable: bool

    constructor (input: string, writable: bool)
      ensures this.input == input && this.output == [] && this.writable == writable
    {
      this.input, this.output, this.writable := input, [], writable;
    }

    method NextLine() returns (line: string, ok: bool)
      modifies this`input
      ensures ok <==> ReadLine(old(input)).Line?
      ensures ok ==> ReadLine(old(input)) == Line(line, input) && |input| < |old(input)|
      ensures !ok ==> input == old(input) == []
    {
      ReadLineShrinks(input);
      match ReadLine(input)
      case Closed =>
        line, ok := [], false;
      case Line(l, rest) =>
        line, ok, input := l, true, rest;
    }

    method SendCommand(cmd: string) returns (reply: string, ok: bool)
      modifies this
      ensures !writable ==> reply == [] && !ok && input == old(input) && output == old(output)
      ensures writable ==> Frame(old(input)) == Framed(reply, input, ok) && output == old(output) + cmd + "\r\n"
    {
      if !writable {
        return [], false;
      }
      hide Frame, ReadLine, ReadSoFar;
      output := output + cmd + "\r\n";
      reply := [];
      NothingRead(input);
      while true
        invariant output == old(output) + cmd + "\r\n"
        invariant ReadSoFar(old(input), reply, input)
        decreases |input|
      {
        ghost var ahead := input;
        var line, more := NextLine();
        if !more {
          EndOfInput(old(input), reply);
          return reply, false;
        }
        OneLineRead(old(input), reply, ahead, line, input);
        reply := reply + line;
        reply := reply + "\n";
        if |line| >= 4 && line[3] == ' ' {
          return reply, true;
        }
        if HasPrefix(line, "250 OK") {
          return reply, true;
        }
      }
    }
  }

  // ------------------------------------------------------ framing a list of lines

  /** Lines as Tor sends them. */
  function Crlf(lines: seq<string>): string {
    if lines == [] then [] else lines[0] + "\r\n" + Crlf(lines[1..])
  }

  predicate NoNewlines(lines: seq<string>) {
    forall l | l in lines :: '\n' !in l
  }

  lemma ReadCrlfLine(line: string, rest: string)
    requires '\n' !in line
    ensures ReadLine(line + "\r\n" + rest) == Line(line, rest)
  {
    var s := line + "\r\n" + rest;
    assert s == (line + "\r") + ("\n" + rest);
    LineEndIs(line + "\r", "\n" + rest);
    assert s[..|line|] == line && s[|line| + 2..] == rest;
  }

  lemma FrameCons(line: string, rest: string)
    requires '\n' !in line
    ensures Frame(line + "\r\n" + rest)
         == if IsFinal(line) then Framed(line + "\n", rest, true)
            else Framed(line + "\n" + Frame(rest).reply, Frame(rest).rest, Frame(rest).complete)
  {
    ReadCrlfLine(line, rest);
  }

  /** A command consumes exactly through the first final line, whatever follows. */
  lemma {:induction false} FramesThroughFirstFinal(lines: seq<string>, i: nat, tail: string)
    requires NoNewlines(lines) && i < |lines|
    requires IsFinal(lines[i]) && forall j | 0 <= j < i :: !IsFinal(lines[j])
    ensures Frame(Crlf(lines) + tail) == Framed(Unlines(lines[..i + 1]), Crlf(lines[i + 1..]) + tail, true)
  {
    hide Frame, IsFinal;
    var first, more := lines[0], lines[1..];
    assert first in lines;
    assert Crlf(lines) + tail == first + "\r\n" + (Crlf(more) + tail);
    FrameCons(first, Crlf(more) + tail);
    assert lines[..i + 1] == [first] + more[..i];
    if i == 0 {
      assert more[..0] == [];
      assert Unlines([first] + []) == first + "\n" + Unlines([]);
    } else {
      assert forall j | 0 <= j < i - 1 :: more[j] == lines[j + 1];
      FramesThroughFirstFinal(more, i - 1, tail);
      assert lines[i + 1..] == more[i..];
      assert ([first] + more[..i])[1..] == more[..i];
    }
  }

  /** Without a final line the call fails, having read everything. */
  lemma {:induction false} NoFinalLineFails(lines: seq<string>)
    requires NoNewlines(lines) && forall l | l in lines :: !IsFinal(l)
    ensures Frame(Crlf(lines)) == Framed(Unlines(lines), [], false)
  {
    if lines != [] {
      assert lines[0] in lines;
      FrameCons(lines[0], Crlf(lines[1..]));
      NoFinalLineFails(lines[1..]);
    }
  }

  // ------------------------------------------------------------- the reply grammar

  /** A mid line, or a data line with its data block. */
  datatype Part = Mid(code: string, text: string) | Data(code: string, text: string, block: seq<string>)

  /** Any number of parts, then the end line. */
  datatype Reply = Reply(parts: seq<Part>, code: string, text: string)

  predicate IsCode(code: string) {
    |code| == 3 && AllDigits(code)
  }

  predicate PartOk(p: Part) {
    IsCode(p.code) && '\n' !in p.text && (p.Data? ==> NoNewlines(p.block))
  }

  predicate ReplyOk(r: Reply) {
    IsCode(r.code) && '\n' !in r.text && forall p | p in r.parts :: PartOk(p)
  }

  /** A line of a data block gains a dot when it starts with one. */
  function Stuffed(line: string): string {
    if line != [] && line[0] == '.' then "." + line else line
  }

  function StuffedBlock(block: seq<string>): seq<string> {
    seq(|block|, i requires 0 <= i < |block| => Stuffed(block[i]))
  }

  function PartLines(p: Part): seq<string> {
    match p
    case Mid(code, text) => [code + "-" + text]
    case Data(code, text, block) => [code + "+" + text] + StuffedBlock(block) + ["."]
  }

  function InnerLines(parts: seq<Part>): seq<string> {
    if parts == [] then [] else PartLines(parts[0]) + InnerLines(parts[1..])
  }

  function EndLine(r: Reply): string {
    r.code + " " + r.text
  }

  function ReplyLines(r: Reply): seq<string> {
    InnerLines(r.parts) + [EndLine(r)]
  }

  function Wire(replies: seq<Reply>): string {
    if replies == [] then [] else Crlf(ReplyLines(replies[0])) + Wire(replies[1..])
  }

  /** No data line, as sent, has a space at index 3. */
  predicate Quiet(r: Reply) {
    forall p | p in r.parts && p.Data? :: forall l | l in p.block :: !IsFinal(Stuffed(l))
  }

  lemma CodeHasNoNewline(code: string)
    requires IsCode(code)
    ensures '\n' !in code
  {
    assert '\n' in code ==> IsDigit('\n');
  }

  lemma StuffedBlockLines(block: seq<string>)
    requires NoNewlines(block)
    ensures NoNewlines(StuffedBlock(block))
    ensures (exists l | l in StuffedBlock(block) :: IsFinal(l)) <==> (exists l | l in block :: IsFinal(Stuffed(l)))
  {
    var sent := StuffedBlock(block);
    forall i | 0 <= i < |block|
      ensures sent[i] == Stuffed(block[i]) && block[i] in block && sent[i] in sent && '\n' !in sent[i]
    {
      assert block[i] in block;
      assert sent[i] in sent;
    }
    if l :| l in block && IsFinal(Stuffed(l)) {
      var i :| 0 <= i < |block| && block[i] == l;
      assert sent[i] in sent;
    }
  }

  /** Lines between two that are not final. */
  lemma Between(first: string, block: seq<string>, last: string)
    requires '\n' !in first && '\n' !in last && NoNewlines(block) && !IsFinal(first) && !IsFinal(last)
    ensures NoNewlines([first] + block + [last])
    ensures (exists l | l in [first] + block + [last] :: IsFinal(l)) <==> (exists l | l in block :: IsFinal(l))
  {
    hide IsFinal;
    var all := [first] + block + [last];
    assert forall l :: l in all <==> l == first || l in block || l == last;
  }

  lemma HeadOfPart(p: Part)
    requires PartOk(p)
    ensures PartLines(p) != [] && '\n' !in PartLines(p)[0] && !IsFinal(PartLines(p)[0])
    ensures !IsFinal(".")
  {
    CodeHasNoNewline(p.code);
    var head := PartLines(p)[0];
    assert head[3] == if p.Mid? then '-' else '+';
    OkTestIsRedundant(head);
    OkTestIsRedundant(".");
  }

  lemma PartNewlines(p: Part)
    requires PartOk(p)
    ensures NoNewlines(PartLines(p))
    ensures (exists l | l in PartLines(p) :: IsFinal(l))
       <==> (p.Data? && exists l | l in p.block :: IsFinal(Stuffed(l)))
  {
    hide IsFinal, AllDigits, StuffedBlock;
    HeadOfPart(p);
    if p.Data? {
      StuffedBlockLines(p.block);
      Between(PartLines(p)[0], StuffedBlock(p.block), ".");
    }
  }

  lemma {:induction false} InnerLinesFinal(parts: seq<Part>)
    requires forall p | p in parts :: PartOk(p)
    ensures NoNewlines(InnerLines(parts))
    ensures (exists l | l in InnerLines(parts) :: IsFinal(l))
       <==> (exists p | p in parts && p.Data? :: exists l | l in p.block :: IsFinal(Stuffed(l)))
  {
    if parts != [] {
      PartNewlines(parts[0]);
      InnerLinesFinal(parts[1..]);
      assert parts == [parts[0]] + parts[1..];
    }
  }

  lemma ReplyLinesShape(r: Reply)
    requires ReplyOk(r)
    ensures NoNewlines(ReplyLines(r)) && IsFinal(EndLine(r))
    ensures Quiet(r) <==> forall l | l in InnerLines(r.parts) :: !IsFinal(l)
  {
    InnerLinesFinal(r.parts);
    CodeHasNoNewline(r.code);
    assert EndLine(r)[3] == ' ';
  }

  lemma FirstFinal(lines: seq<string>) returns (i: nat)
    requires exists l | l in lines :: IsFinal(l)
    ensures i < |lines| && IsFinal(lines[i]) && forall j | 0 <= j < i :: !IsFinal(lines[j])
  {
    if IsFinal(lines[0]) {
      i := 0;
    } else {
      assert lines == [lines[0]] + lines[1..];
      var k := FirstFinal(lines[1..]);
      i := k + 1;
      assert forall j | 1 <= j < i :: lines[j] == lines[1..][j - 1];
    }
  }

  lemma CutShort(lines: seq<string>, i: nat)
    requires i + 1 < |lines|
    ensures |Unlines(lines[..i + 1])| < |Unlines(lines)|
  {
    assert lines == lines[..i + 1] + lines[i + 1..];
    UnlinesAppend(lines[..i + 1], lines[i + 1..]);
  }

  /** One command on one reply: it returns exactly that reply iff no data line stops it early. */
  lemma OneReply(r: Reply, tail: string)
    requires ReplyOk(r)
    ensures Frame(Crlf(ReplyLines(r)) + tail) == Framed(Unlines(ReplyLines(r)), tail, true) <==> Quiet(r)
  {
    ReplyLinesShape(r);
    var inner, last := InnerLines(r.parts), EndLine(r);
    hide IsFinal, Quiet, Frame, EndLine, InnerLines;
    if Quiet(r) {
      LastOnlyFinal(inner, last, tail);
    } else {
      var i := FirstFinal(inner);
      assert forall j | 0 <= j <= i :: (inner + [last])[j] == inner[j];
      FramesThroughFirstFinal(inner + [last], i, tail);
      CutShort(inner + [last], i);
    }
  }

  lemma LastOnlyFinal(inner: seq<string>, last: string, tail: string)
    requires NoNewlines(inner + [last]) && IsFinal(last) && forall l | l in inner :: !IsFinal(l)
    ensures Frame(Crlf(inner + [last]) + tail) == Framed(Unlines(inner + [last]), tail, true)
  {
    hide IsFinal, Frame;
    var lines, n := inner + [last], |inner|;
    assert forall j | 0 <= j < n :: lines[j] == inner[j] && inner[j] in inner;
    FramesThroughFirstFinal(lines, n, tail);
    assert lines[..n + 1] == lines && lines[n + 1..] == [];
    assert Crlf([]) + tail == tail;
  }

  /** The results of `k` commands in a row. */
  function Calls(input: string, k: nat): seq<Framed>
    decreases k
  {
    if k == 0 then [] else [Frame(input)] + Calls(Frame(input).rest, k - 1)
  }

  /** What the calls should return: each its own reply, leaving the stream at the next one. */
  function OwnReplies(replies: seq<Reply>, tail: string): seq<Framed> {
    if replies == [] then []
    else [Framed(Unlines(ReplyLines(replies[0])), Wire(replies[1..]) + tail, true)] + OwnReplies(replies[1..], tail)
  }

  /** k commands over k replies stay in step iff no data line of any reply has a space at index 3. */
  lemma {:induction false} CommandsStayInStep(replies: seq<Reply>, tail: string)
    requires forall r | r in replies :: ReplyOk(r)
    ensures Calls(Wire(replies) + tail, |replies|) == OwnReplies(replies, tail)
       <==> forall r | r in replies :: Quiet(r)
  {
    if replies != [] {
      var first, more := replies[0], replies[1..];
      assert first in replies;
      assert replies == [first] + more;
      var rest := Wire(more) + tail;
      assert Wire(replies) + tail == Crlf(ReplyLines(first)) + rest;
      OneReply(first, rest);
      CommandsStayInStep(more, tail);
      hide Frame, Quiet, ReplyLines;
      var calls, own := Calls(Wire(replies) + tail, |replies|), OwnReplies(replies, tail);
      assert calls[1..] == Calls(Frame(Wire(replies) + tail).rest, |more|);
      assert own[1..] == OwnReplies(more, tail);
      assert calls == own <==> calls[0] == own[0] && calls[1..] == own[1..];
    }
  }

  /** A reply with the data line "123 BUILT". */
  const BUILT_123 := Reply([Data("250", "circuit-status=", ["123 BUILT"])], "250", "OK")

  lemma BuiltIsNotQuiet()
    ensures ReplyOk(BUILT_123) && !Quiet(BUILT_123)
  {
    var line, data := "123 BUILT", BUILT_123.parts[0];
    assert data in BUILT_123.parts && line in data.block;
    OkTestIsRedundant(Stuffed(line));
    assert Stuffed(line)[3] == ' ';
    hide IsFinal, Stuffed;
    assert AllDigits("250");
  }

  /** It puts the commands out of step. */
  lemma DataLineBreaksStep()
    ensures ReplyOk(BUILT_123) && Calls(Wire([BUILT_123]), 1) != OwnReplies([BUILT_123], [])
  {
    hide Calls, OwnReplies, Wire, Quiet, ReplyOk;
    BuiltIsNotQuiet();
    var rs := [BUILT_123];
    assert BUILT_123 in rs;
    assert Wire(rs) + [] == Wire(rs);
    CommandsStayInStep(rs, []);
  }
}
