/** Circuit status: from what Tor prints to what `GetCircuitInfo` returns. */
module TorCircuits {
  import opened Basics
  import opened Text
  import opened TorReplies

  datatype CircuitInfo = CircuitInfo(id: int, status: string, path: string, purpose: string)

  // ---------------------------------------------------------------- the parser

  const PURPOSE := "PURPOSE="

  /** The value of the last argument that starts with "PURPOSE=". */
  function LastPurpose(args: seq<string>): string {
    if args == [] then []
    else
      var before, last := args[..|args| - 1], args[|args| - 1];
      if HasPrefix(last, PURPOSE) then last[|PURPOSE|..] else LastPurpose(before)
  }

  /** What one line contributes: nothing, or one entry. */
  function EntryOf(parts: seq<string>): seq<CircuitInfo> {
    if |parts| < 2 || Atoi(parts[0]).None? then []
    else
      [CircuitInfo(
         Atoi(parts[0]).value, parts[1], if |parts| > 2 then parts[2] else [],
         LastPurpose(if |parts| > 3 then parts[3..] else []))]
  }

  function Entries(lines: seq<string>): seq<CircuitInfo> {
    if lines == [] then [] else EntryOf(Fields(lines[0])) + Entries(lines[1..])
  }

  lemma {:induction false} EntriesAppend(xs: seq<string>, ys: seq<string>)
    ensures Entries(xs + ys) == Entries(xs) + Entries(ys)
  {
    hide EntryOf, Fields;
    if xs == [] {
      assert xs + ys == ys;
    } else {
      assert (xs + ys)[1..] == xs[1..] + ys;
      EntriesAppend(xs[1..], ys);
    }
  }

  lemma EntriesOfOne(line: string)
    ensures Entries([line]) == EntryOf(Fields(line))
  {
    assert Entries([]) == [];
    assert [line][1..] == [];
  }

  lemma EntriesStep(lines: seq<string>, n: nat)
    requires n < |lines|
    ensures Entries(lines[..n + 1]) == Entries(lines[..n]) + EntryOf(Fields(lines[n]))
  {
    assert lines[..n + 1] == lines[..n] + [lines[n]];
    EntriesAppend(lines[..n], [lines[n]]);
    EntriesOfOne(lines[n]);
  }

  method GetCircuitInfo(c: Controller) returns (circuits: seq<CircuitInfo>, ok: bool)
    modifies c
    ensures ok <==> c.writable && Frame(old(c.input)).complete
    ensures c.input == if c.writable then Frame(old(c.input)).rest else old(c.input)
    ensures c.output == old(c.output) + if c.writable then "GETINFO circuit-status\r\n" else []
    ensures circuits == if ok then Entries(SplitLines(Frame(old(c.input)).reply)) else []
  {
    var reply;
    reply, ok := c.SendCommand("GETINFO circuit-status");
    circuits := [];
    if !ok {
      return;
    }
    hide Entries, SplitLines, Frame, EntryOf;
    ghost var rest, sent := c.input, c.output;
    assert sent == old(c.output) + "GETINFO circuit-status" + "\r\n";
    var lines := SplitLines(reply);
    assert lines[..0] == [];
    NoEntries();
    for n := 0 to |lines|
      invariant circuits == Entries(lines[..n])
      invariant c.input == rest && c.output == sent
    {
      EntriesStep(lines, n);
      var parts := Fields(lines[n]);
      var entry := ParseParts(parts);
      circuits := circuits + entry;
    }
    assert lines[..|lines|] == lines;
  }

  lemma NoEntries()
    ensures Entries([]) == []
  {
  }

  /** The body of the line loop: the entry to append, if any. */
  method ParseParts(parts: seq<string>) returns (entry: seq<CircuitInfo>)
    ensures entry == EntryOf(parts)
  {
    if |parts| < 2 {
      return [];
    }
    var id := Atoi(parts[0]);
    if id.None? {
      return [];
    }
    var path, purpose := [], [];
    if |parts| > 2 {
      path := parts[2];
    }
    if |parts| > 3 {
      var args := parts[3..];
      for i := 0 to |args|
        invariant purpose == LastPurpose(args[..i])
      {
        assert args[..i + 1][..i] == args[..i];
        if HasPrefix(args[i], PURPOSE) {
          purpose := args[i][|PURPOSE|..];
        }
      }
      assert args[..|args|] == args;
    }
    return [CircuitInfo(id.value, parts[1], path, purpose)];
  }

  // ------------------------------------------------------------- what Tor prints

  /** A circuit line of section 4.1.1 of the control specification; an absent path is empty. */
  datatype Circuit = Circuit(id: string, status: string, path: string, args: seq<Argument>)

  /** A keyword argument behind the path; `Other` is any but a purpose, keyword and all. */
  datatype Argument = BuildFlags(value: string) | Purpose(value: string) | Other(text: string)

  function ArgText(arg: Argument): string {
    match arg
    case BuildFlags(v) => "BUILD_FLAGS=" + v
    case Purpose(v) => "PURPOSE=" + v
    case Other(text) => text
  }

  function ArgTexts(args: seq<Argument>): seq<string> {
    seq(|args|, i requires 0 <= i < |args| => ArgText(args[i]))
  }

  predicate NoSpace(s: string) {
    forall c | c in s :: !IsSpace(c)
  }

  predicate ArgOk(arg: Argument) {
    match arg
    case Other(text) => IsToken(text) && !("PURPOSE=" <= text)
    case _ => NoSpace(arg.value)
  }

  /** The last purpose among the arguments, empty if there is none. */
  function PrintedPurpose(args: seq<Argument>): string {
    if args == [] then []
    else if args[|args| - 1].Purpose? then args[|args| - 1].value
    else PrintedPurpose(args[..|args| - 1])
  }

  predicate IsLetterOrDigit(c: char) {
    IsDigit(c) || 65 <= c as int <= 90 || 97 <= c as int <= 122
  }

  /** Section 2.4: one to sixteen letters or digits. */
  predicate IsId(id: string) {
    1 <= |id| <= 16 && forall c | c in id :: IsLetterOrDigit(c)
  }

  /** Status words are longer than one letter; path and arguments hold no white space. */
  predicate CircuitOk(c: Circuit) {
    && IsId(c.id)
    && IsToken(c.status) && |c.status| >= 2
    && (c.path == [] || IsToken(c.path))
    && forall a | a in c.args :: ArgOk(a)
  }

  function Tokens(c: Circuit): seq<string> {
    [c.id, c.status] + (if c.path == [] then [] else [c.path]) + ArgTexts(c.args)
  }

  function CircuitLine(c: Circuit): string {
    Spaced(Tokens(c))
  }

  function CircuitLines(cs: seq<Circuit>): seq<string> {
    if cs == [] then [] else [CircuitLine(cs[0])] + CircuitLines(cs[1..])
  }

  /** The data reply to GETINFO circuit-status (section 3.9 of the control specification). */
  function StatusReply(cs: seq<Circuit>): Reply {
    Reply([Data("250", "circuit-status=", CircuitLines(cs))], "250", "OK")
  }

  /** The entry tells of the circuit, whose ID must be a number. */
  predicate Shows(e: CircuitInfo, c: Circuit) {
    && AllDigits(c.id) && e.id == Value(c.id)
    && e.status == c.status && e.path == c.path && e.purpose == PrintedPurpose(c.args)
  }

  /** What the caller does learn: nothing without a number, and without a path the first argument is one. */
  function Seen(c: Circuit): seq<CircuitInfo> {
    if !AllDigits(c.id) then []
    else if c.path == [] && c.args != [] then
      [CircuitInfo(Value(c.id), c.status, ArgText(c.args[0]), PrintedPurpose(c.args[1..]))]
    else [CircuitInfo(Value(c.id), c.status, c.path, PrintedPurpose(c.args))]
  }

  function SeenAll(cs: seq<Circuit>): seq<CircuitInfo> {
    if cs == [] then [] else Seen(cs[0]) + SeenAll(cs[1..])
  }

  /** Entry for circuit, in order, and then the entry of "250 OK". */
  predicate ComesBack(entries: seq<CircuitInfo>, cs: seq<Circuit>) {
    && |entries| == |cs| + 1 && entries[|cs|] == OK_ENTRY
    && forall i | 0 <= i < |cs| :: Shows(entries[i], cs[i])
  }

  /** The entry the "250 OK" line parses to. */
  const OK_ENTRY := CircuitInfo(250, "OK", [], [])

  function Pow10(n: nat): nat {
    if n == 0 then 1 else 10 * Pow10(n - 1)
  }

  lemma {:induction false} ValueBelow(s: string)
    requires AllDigits(s)
    ensures Value(s) < Pow10(|s|)
  {
    if s != [] {
      assert IsDigit(s[|s| - 1]);
      ValueBelow(s[..|s| - 1]);
    }
  }

  lemma {:induction false} Pow10Grows(m: nat, n: nat)
    requires m <= n
    ensures Pow10(m) <= Pow10(n)
    decreases n - m
  {
    if m < n {
      Pow10Grows(m + 1, n);
    }
  }

  /** An ID is a number to `strconv.Atoi` iff it holds digits only: sixteen of them fit. */
  lemma AtoiOfId(id: string)
    requires IsId(id)
    ensures Atoi(id) == if AllDigits(id) then Some(Value(id)) else None
  {
    assert IsLetterOrDigit(id[0]) by {
      assert id[0] in id;
    }
    if AllDigits(id) {
      ValueBelow(id);
      Pow10Grows(|id|, 16);
      assert Pow10(4) == 10000;
      assert Pow10(8) == 10000_0000;
      assert Pow10(12) == 10000_0000_0000;
      assert Pow10(16) == 10000_0000_0000_0000;
    }
  }

  lemma IdIsToken(id: string)
    requires IsId(id)
    ensures IsToken(id)
  {
  }

  lemma ArgIsToken(arg: Argument)
    requires ArgOk(arg)
    ensures IsToken(ArgText(arg))
    ensures HasPrefix(ArgText(arg), PURPOSE) <==> arg.Purpose?
    ensures arg.Purpose? ==> ArgText(arg)[|PURPOSE|..] == arg.value
  {
    var text := ArgText(arg);
    if arg.BuildFlags? {
      assert text[0] == 'B' && forall c | c in "BUILD_FLAGS=" :: !IsSpace(c);
    } else if arg.Purpose? {
      assert text[..8] == "PURPOSE=" && forall c | c in "PURPOSE=" :: !IsSpace(c);
    }
  }

  /** The code's search for the prefix finds the last printed purpose. */
  lemma {:induction false} LastPurposeIsPrinted(args: seq<Argument>)
    requires forall a | a in args :: ArgOk(a)
    ensures LastPurpose(ArgTexts(args)) == PrintedPurpose(args)
  {
    hide ArgOk, ArgText, HasPrefix;
    if args != [] {
      var n := |args| - 1;
      assert args[n] in args;
      ArgIsToken(args[n]);
      LastPurposeIsPrinted(args[..n]);
      assert ArgTexts(args)[..n] == ArgTexts(args[..n]);
    }
  }

  lemma LineIsSeen(c: Circuit)
    requires CircuitOk(c)
    ensures EntryOf(Fields(CircuitLine(c))) == Seen(c)
  {
    hide Fields, Atoi, AllDigits, IsId, Value, IsToken, Spaced, ArgOk, ArgText;
    TokensAreTokens(c);
    FieldsOfSpaced(Tokens(c));
    AtoiOfId(c.id);
    LastPurposeIsPrinted(c.args);
    if c.args != [] {
      LastPurposeIsPrinted(c.args[1..]);
    }
    TokensSeen(c);
  }

  lemma TokensSeen(c: Circuit)
    requires Atoi(c.id) == if AllDigits(c.id) then Some(Value(c.id)) else None
    requires LastPurpose(ArgTexts(c.args)) == PrintedPurpose(c.args)
    requires c.args != [] ==> LastPurpose(ArgTexts(c.args[1..])) == PrintedPurpose(c.args[1..])
    ensures EntryOf(Tokens(c)) == Seen(c)
  {
    var parts, texts := Tokens(c), ArgTexts(c.args);
    hide Atoi, AllDigits, Value, LastPurpose, PrintedPurpose, ArgText;
    if c.path == [] {
      assert parts == [c.id, c.status] + texts;
      if c.args != [] {
        assert texts[1..] == ArgTexts(c.args[1..]);
        assert |parts| > 3 ==> parts[3..] == texts[1..];
        assert |parts| == 3 ==> texts[1..] == [];
      }
    } else {
      assert |parts| > 3 ==> parts[3..] == texts;
      assert |parts| == 3 ==> texts == [];
    }
  }

  lemma SpacedPrefix(tokens: seq<string>)
    requires |tokens| >= 2
    ensures tokens[0] + " " + tokens[1] <= Spaced(tokens)
  {
    var more := tokens[1..];
    assert Spaced(tokens) == tokens[0] + " " + Spaced(more);
    SpacedHead(more);
    hide Spaced;
    PrefixBehind(tokens[0] + " ", tokens[1], Spaced(more));
  }

  lemma SpacedHead(tokens: seq<string>)
    requires tokens != []
    ensures tokens[0] <= Spaced(tokens)
  {
  }

  lemma PrefixBehind(x: string, y: string, z: string)
    requires y <= z
    ensures x + y <= x + z
  {
  }

  /** A circuit line stops the read loop exactly when its ID is three characters wide. */
  lemma LineIsFinal(c: Circuit)
    requires CircuitOk(c)
    ensures Stuffed(CircuitLine(c)) == CircuitLine(c)
    ensures '\n' !in CircuitLine(c)
    ensures IsFinal(CircuitLine(c)) <==> |c.id| == 3
  {
    var line, head := CircuitLine(c), c.id + " " + c.status;
    SpacedPrefix(Tokens(c));
    SpacedNoNewline(Tokens(c), c);
    hide Spaced, CircuitLine, Stuffed;
    assert head <= line;
    assert forall i | 0 <= i < |head| :: line[i] == head[i];
    assert forall i | 0 <= i < |c.id| :: IsLetterOrDigit(c.id[i]);
    OkTestIsRedundant(line);
    assert c.status[0] in c.status && c.status[1] in c.status;
    assert line[3] == head[3];
    StuffedPlain(line);
  }

  lemma StuffedPlain(line: string)
    requires line != [] && line[0] != '.'
    ensures Stuffed(line) == line
  {
  }

  lemma TokensAreTokens(c: Circuit)
    requires CircuitOk(c)
    ensures forall t | t in Tokens(c) :: IsToken(t)
  {
    IdIsToken(c.id);
    hide IsToken, ArgOk, ArgText, IsId;
    forall i | 0 <= i < |c.args|
      ensures IsToken(ArgTexts(c.args)[i])
    {
      assert c.args[i] in c.args;
      ArgIsToken(c.args[i]);
    }
  }

  lemma SpacedNoNewline(tokens: seq<string>, c: Circuit)
    requires CircuitOk(c) && tokens == Tokens(c)
    ensures '\n' !in Spaced(tokens)
  {
    TokensAreTokens(c);
    TokensNoNewline(tokens);
  }

  lemma {:induction false} TokensNoNewline(tokens: seq<string>)
    requires forall t | t in tokens :: IsToken(t)
    ensures '\n' !in Spaced(tokens)
  {
    if tokens != [] {
      assert tokens[0] in tokens;
      assert '\n' in tokens[0] ==> !IsSpace('\n');
      if |tokens| > 1 {
        TokensNoNewline(tokens[1..]);
      }
    }
  }

  lemma {:induction false} LinesAreSeen(cs: seq<Circuit>)
    requires forall c | c in cs :: CircuitOk(c)
    ensures Entries(CircuitLines(cs)) == SeenAll(cs)
  {
    hide EntryOf, Fields, CircuitLine, Seen;
    if cs != [] {
      assert cs[0] in cs;
      LineIsSeen(cs[0]);
      LinesAreSeen(cs[1..]);
      var lines := CircuitLines(cs);
      assert lines[0] == CircuitLine(cs[0]) && lines[1..] == CircuitLines(cs[1..]);
    }
  }

  lemma {:induction false} LinesIndexed(cs: seq<Circuit>)
    requires forall c | c in cs :: CircuitOk(c)
    ensures |CircuitLines(cs)| == |cs|
    ensures forall i | 0 <= i < |cs| :: CircuitLines(cs)[i] == CircuitLine(cs[i])
    ensures NoNewlines(CircuitLines(cs)) && StuffedBlock(CircuitLines(cs)) == CircuitLines(cs)
  {
    hide CircuitLine;
    if cs != [] {
      LinesIndexed(cs[1..]);
      forall i | 0 <= i < |cs|
        ensures CircuitLines(cs)[i] == CircuitLine(cs[i]) && cs[i] in cs
        ensures '\n' !in CircuitLine(cs[i]) && Stuffed(CircuitLine(cs[i])) == CircuitLine(cs[i])
      {
        assert cs[i] in cs;
        LineIsFinal(cs[i]);
      }
    }
  }

  // ---------------------------------------------------------------- end to end

  /** The first circuit whose ID is three characters wide, or the number of circuits. */
  function FirstWide(cs: seq<Circuit>): (i: nat)
    ensures i <= |cs| && (i < |cs| ==> |cs[i].id| == 3)
    ensures forall j | 0 <= j < i :: |cs[j].id| != 3
  {
    if cs == [] || |cs[0].id| == 3 then 0 else 1 + FirstWide(cs[1..])
  }

  const HEAD_LINE := "250+circuit-status="

  lemma StatusReplyLines(cs: seq<Circuit>)
    requires forall c | c in cs :: CircuitOk(c)
    ensures ReplyLines(StatusReply(cs)) == [HEAD_LINE] + CircuitLines(cs) + [".", "250 OK"]
    ensures NoNewlines(ReplyLines(StatusReply(cs)))
  {
    LinesIndexed(cs);
    hide CircuitLines, StuffedBlock, ReplyLines;
    FixedText();
    OneBlock("250", "circuit-status=", CircuitLines(cs), "OK");
  }

  lemma FixedText()
    ensures "250" + "+" + "circuit-status=" == HEAD_LINE && "250" + " " + "OK" == "250 OK"
    ensures '\n' !in HEAD_LINE && '\n' !in "." && '\n' !in "250 OK"
  {
  }

  lemma OneBlock(code: string, text: string, block: seq<string>, end: string)
    ensures ReplyLines(Reply([Data(code, text, block)], code, end))
         == [code + "+" + text] + StuffedBlock(block) + [".", code + " " + end]
  {
    var data := Data(code, text, block);
    assert [data][1..] == [];
    assert InnerLines([data]) == PartLines(data);
  }

  lemma HeadLineIsToken()
    ensures IsToken(HEAD_LINE) && HEAD_LINE[3] == '+'
  {
  }

  lemma HeadLine()
    ensures EntryOf(Fields(HEAD_LINE)) == [] && !IsFinal(HEAD_LINE)
  {
    HeadLineIsToken();
    OkTestIsRedundant(HEAD_LINE);
    hide Fields, IsToken, Spaced, IsFinal;
    OneField(HEAD_LINE);
  }

  lemma OneField(token: string)
    requires IsToken(token)
    ensures EntryOf(Fields(token)) == []
  {
    FieldsOfSpaced([token]);
  }

  lemma DotLine()
    ensures EntryOf(Fields(".")) == [] && !IsFinal(".") && EntryOf(Fields([])) == []
  {
    OkTestIsRedundant(".");
    OneField(".");
    FieldsOfSpaced([]);
  }

  lemma Decimal250()
    ensures Decimal(250) == "250"
  {
    assert Decimal(2) == "2";
    assert Decimal(25) == "25";
  }

  lemma SpacedOk()
    ensures Spaced(["250", "OK"]) == "250 OK" && IsToken("250") && IsToken("OK")
  {
    assert ["250", "OK"][1..] == ["OK"];
    assert Spaced(["OK"]) == "OK";
  }

  lemma OkIsFinal()
    ensures IsFinal("250 OK")
  {
  }

  lemma OkLine()
    ensures EntryOf(Fields("250 OK")) == [OK_ENTRY] && IsFinal("250 OK")
  {
    hide Decimal, Fields, Spaced, Atoi, IsToken, IsFinal;
    OkIsFinal();
    Decimal250();
    AtoiOfDecimal(250);
    SpacedOk();
    FieldsOfSpaced(["250", "OK"]);
  }

  lemma EntriesOfFramed(lines: seq<string>)
    requires NoNewlines(lines)
    ensures Entries(SplitLines(Unlines(lines))) == Entries(lines)
  {
    hide SplitLines, Unlines, EntryOf, Fields;
    SplitLinesOfUnlines(lines);
    EntriesAppend(lines, [[]]);
    EntriesOfOne([]);
    DotLine();
  }

  // The next lemmas speak of any head, dot and end line with the properties of the fixed ones.

  lemma AllRead(head: string, cl: seq<string>, dot: string, ok: string, tail: string)
    requires NoNewlines([head] + cl + [dot, ok]) && IsFinal(ok)
    requires EntryOf(Fields(head)) == [] && EntryOf(Fields(dot)) == [] && EntryOf(Fields(ok)) == [OK_ENTRY]
    requires forall j | 0 <= j <= |cl| + 1 :: !IsFinal(([head] + cl + [dot, ok])[j])
    ensures var f := Frame(Crlf([head] + cl + [dot, ok]) + tail);
            f.complete && f.rest == tail && Entries(SplitLines(f.reply)) == Entries(cl) + [OK_ENTRY]
  {
    hide IsFinal, Frame, SplitLines, EntryOf, Fields;
    var lines := [head] + cl + [dot, ok];
    FramesThroughFirstFinal(lines, |cl| + 2, tail);
    TakeAll(head, cl, dot, ok);
    assert lines[..|cl| + 3] == lines;
    EntriesOfFramed(lines);
    EntriesAppend([head], cl);
    EntriesAppend([head] + cl, [dot, ok]);
    EntriesAppend([dot], [ok]);
    assert [dot] + [ok] == [dot, ok];
    EntriesOfOne(head);
    EntriesOfOne(dot);
    EntriesOfOne(ok);
    assert Crlf([]) + tail == tail;
  }

  lemma CutRead(head: string, cl: seq<string>, dot: string, ok: string, i: nat, tail: string)
    requires NoNewlines([head] + cl + [dot, ok]) && i < |cl| && IsFinal(cl[i])
    requires EntryOf(Fields(head)) == []
    requires forall j | 0 <= j <= i :: !IsFinal(([head] + cl + [dot, ok])[j])
    ensures var f := Frame(Crlf([head] + cl + [dot, ok]) + tail);
            f.complete && f.rest == Crlf(cl[i + 1..] + [dot, ok]) + tail
            && Entries(SplitLines(f.reply)) == Entries(cl[..i + 1])
  {
    hide IsFinal, Frame, SplitLines, EntryOf, Fields;
    var lines := [head] + cl + [dot, ok];
    FramesThroughFirstFinal(lines, i + 1, tail);
    TakeSome(head, cl, dot, ok, i + 1);
    EntriesOfFramed([head] + cl[..i + 1]);
    EntriesAppend([head], cl[..i + 1]);
    EntriesOfOne(head);
  }

  /** Where the first final line of a status reply is: the first wide circuit's, or the last. */
  lemma FirstFinalOfStatus(cs: seq<Circuit>, head: string, cl: seq<string>, dot: string, ok: string, k: nat)
    requires |cl| == |cs| && !IsFinal(head) && !IsFinal(dot) && IsFinal(ok)
    requires forall j | 0 <= j < |cs| :: IsFinal(cl[j]) <==> |cs[j].id| == 3
    requires k == if FirstWide(cs) < |cs| then 1 + FirstWide(cs) else |cs| + 2
    ensures var lines := [head] + cl + [dot, ok];
            k < |lines| && IsFinal(lines[k]) && forall j | 0 <= j < k :: !IsFinal(lines[j])
  {
    hide IsFinal;
    var lines := [head] + cl + [dot, ok];
    assert forall j | 1 <= j <= |cs| :: lines[j] == cl[j - 1];
  }

  lemma CircuitLinesFinal(cs: seq<Circuit>)
    requires forall c | c in cs :: CircuitOk(c)
    ensures |CircuitLines(cs)| == |cs|
    ensures forall j | 0 <= j < |cs| :: IsFinal(CircuitLines(cs)[j]) <==> |cs[j].id| == 3
  {
    LinesIndexed(cs);
    hide IsFinal, CircuitLine, CircuitLines;
    forall j | 0 <= j < |cs|
      ensures IsFinal(CircuitLines(cs)[j]) <==> |cs[j].id| == 3
    {
      assert cs[j] in cs;
      LineIsFinal(cs[j]);
    }
  }

  lemma TakeAll(head: string, cl: seq<string>, dot: string, ok: string)
    ensures var lines := [head] + cl + [dot, ok];
            lines[..|cl| + 3] == [head] + (cl + [dot, ok]) && lines[|cl| + 3..] == []
  {
  }

  lemma TakeSome(head: string, cl: seq<string>, dot: string, ok: string, n: nat)
    requires n <= |cl|
    ensures var lines := [head] + cl + [dot, ok];
            lines[..n + 1] == [head] + cl[..n] && lines[n + 1..] == cl[n..] + [dot, ok]
  {
  }

  lemma StatusOf(cs: seq<Circuit>, head: string, dot: string, ok: string, tail: string)
    requires forall c | c in cs :: CircuitOk(c)
    requires NoNewlines([head] + CircuitLines(cs) + [dot, ok])
    requires !IsFinal(head) && !IsFinal(dot) && IsFinal(ok)
    requires EntryOf(Fields(head)) == [] && EntryOf(Fields(dot)) == [] && EntryOf(Fields(ok)) == [OK_ENTRY]
    ensures StatusRead(cs, Frame(Crlf([head] + CircuitLines(cs) + [dot, ok]) + tail), [dot, ok], tail)
  {
    CircuitLinesFinal(cs);
    hide IsFinal, CircuitLines, CircuitLine, Frame, Entries, SplitLines, EntryOf, Fields, Crlf;
    var i, cl := FirstWide(cs), CircuitLines(cs);
    FirstFinalOfStatus(cs, head, cl, dot, ok, if i < |cs| then 1 + i else |cs| + 2);
    if i == |cs| {
      AllRead(head, cl, dot, ok, tail);
      LinesAreSeen(cs);
    } else {
      CutRead(head, cl, dot, ok, i, tail);
      LinesTake(cs, i + 1);
      LinesAreSeen(cs[..i + 1]);
    }
  }

  /**
   What reading one status reply yields: all circuits and the entry of "250 OK", the stream at the
   next reply; or, from the first ID three characters wide on, neither.
   */
  predicate StatusRead(cs: seq<Circuit>, f: Framed, end: seq<string>, tail: string) {
    var i := FirstWide(cs);
    && f.complete
    && (i == |cs| ==> Entries(SplitLines(f.reply)) == SeenAll(cs) + [OK_ENTRY] && f.rest == tail)
    && (i < |cs| ==>
          && Entries(SplitLines(f.reply)) == SeenAll(cs[..i + 1])
          && i < |CircuitLines(cs)|
          && f.rest == Crlf(CircuitLines(cs)[i + 1..] + end) + tail)
  }

  /** What `GetCircuitInfo` returns and what it leaves unread, for every list of circuits. */
  lemma CircuitStatusEndToEnd(cs: seq<Circuit>, tail: string)
    requires forall c | c in cs :: CircuitOk(c)
    ensures StatusRead(cs, Frame(Crlf(ReplyLines(StatusReply(cs))) + tail), [".", "250 OK"], tail)
  {
    StatusReplyLines(cs);
    HeadLine();
    DotLine();
    OkLine();
    hide IsFinal, CircuitLines, Frame, ReplyLines, StatusReply, EntryOf, Fields, Crlf, StatusRead;
    StatusOf(cs, HEAD_LINE, ".", "250 OK", tail);
  }

  lemma {:induction false} LinesTake(cs: seq<Circuit>, n: nat)
    requires n <= |cs| == |CircuitLines(cs)|
    ensures CircuitLines(cs)[..n] == CircuitLines(cs[..n])
  {
    if n > 0 {
      assert |CircuitLines(cs[1..])| == |cs[1..]|;
      LinesTake(cs[1..], n - 1);
      assert cs[..n][1..] == cs[1..][..n - 1];
    }
  }

  /**
   The list comes back, followed only by the entry of "250 OK", iff every ID is a number not three wide and
   every circuit with arguments has its path.
   */
  lemma CircuitRoundTrip(cs: seq<Circuit>, tail: string)
    requires forall c | c in cs :: CircuitOk(c)
    ensures ComesBack(Entries(SplitLines(Frame(Crlf(ReplyLines(StatusReply(cs))) + tail).reply)), cs)
       <==> forall c | c in cs :: |c.id| != 3 && AllDigits(c.id) && (c.path != [] || c.args == [])
  {
    hide IsFinal, CircuitLines, Frame, Entries, SplitLines, ReplyLines, StatusReply, Crlf, SeenAll, AllDigits;
    hide CircuitOk, ComesBack;
    CircuitStatusEndToEnd(cs, tail);
    var i := FirstWide(cs);
    if i < |cs| {
      assert cs[i] in cs;
      SeenAllShort(cs[..i + 1]);
      TooShortToComeBack(SeenAll(cs[..i + 1]), cs);
    } else {
      assert forall c | c in cs :: |c.id| != 3;
      SeenComesBack(cs);
    }
  }

  lemma TooShortToComeBack(entries: seq<CircuitInfo>, cs: seq<Circuit>)
    requires |entries| <= |cs|
    ensures !ComesBack(entries, cs)
  {
  }

  lemma {:induction false} SeenAllShort(cs: seq<Circuit>)
    ensures |SeenAll(cs)| <= |cs|
    ensures (forall c | c in cs :: AllDigits(c.id)) ==>
              |SeenAll(cs)| == |cs| && forall i | 0 <= i < |cs| :: [SeenAll(cs)[i]] == Seen(cs[i])
  {
    hide Seen;
    if cs != [] {
      SeenLength(cs[0]);
      SeenAllShort(cs[1..]);
      assert cs == [cs[0]] + cs[1..];
    }
  }

  lemma SeenLength(c: Circuit)
    ensures |Seen(c)| == if AllDigits(c.id) then 1 else 0
  {
  }

  lemma SeenShows(c: Circuit)
    requires AllDigits(c.id) && CircuitOk(c)
    ensures |Seen(c)| == 1 && (Shows(Seen(c)[0], c) <==> c.path != [] || c.args == [])
  {
    hide ArgOk, ArgText;
    if c.args != [] {
      assert c.args[0] in c.args;
      ArgIsToken(c.args[0]);
    }
  }

  lemma SeenComesBack(cs: seq<Circuit>)
    requires forall c | c in cs :: CircuitOk(c)
    ensures ComesBack(SeenAll(cs) + [OK_ENTRY], cs)
       <==> forall c | c in cs :: AllDigits(c.id) && (c.path != [] || c.args == [])
  {
    hide SeenAll, Seen, Shows, AllDigits, IsId;
    SeenAllShort(cs);
    var all := SeenAll(cs) + [OK_ENTRY];
    if forall c | c in cs :: AllDigits(c.id) {
      assert forall i | 0 <= i < |cs| :: all[i] == SeenAll(cs)[i];
      forall i | 0 <= i < |cs|
        ensures Shows(all[i], cs[i]) <==> cs[i].path != [] || cs[i].args == []
      {
        assert cs[i] in cs;
        SeenShows(cs[i]);
      }
    } else {
      var c :| c in cs && !AllDigits(c.id);
      ShowsNumbers(all, cs);
    }
  }

  lemma ShowsNumbers(entries: seq<CircuitInfo>, cs: seq<Circuit>)
    ensures ComesBack(entries, cs) ==> forall c | c in cs :: AllDigits(c.id)
  {
    hide AllDigits;
    if ComesBack(entries, cs) {
      forall i | 0 <= i < |cs|
        ensures AllDigits(cs[i].id)
      {
        assert Shows(entries[i], cs[i]);
      }
    }
  }

  /** A circuit with a three-digit ID cuts the list short, and one with a letter in its ID is dropped. */
  lemma OneCircuitBreaksRoundTrip(id: string)
    requires id == "123" || id == "12AB"
    ensures var cs := [Circuit(id, "BUILT", [], [])];
            && (forall c | c in cs :: CircuitOk(c))
            && !ComesBack(Entries(SplitLines(Frame(Crlf(ReplyLines(StatusReply(cs)))).reply)), cs)
  {
    var c := Circuit(id, "BUILT", [], []);
    assert CircuitOk(c);
    assert id == "12AB" ==> 'A' in id && !IsDigit('A');
    hide IsFinal, CircuitLines, Frame, Entries, SplitLines, ReplyLines, StatusReply, Crlf, ComesBack, CircuitOk;
    var wire := Crlf(ReplyLines(StatusReply([c])));
    assert wire + [] == wire;
    assert c in [c];
    CircuitRoundTrip([c], []);
  }

  /** A purpose is the last one printed. */
  lemma LastPurposeWins(before: seq<string>, purpose: string, after_: seq<string>)
    requires forall a | a in after_ :: !HasPrefix(a, "PURPOSE=")
    ensures LastPurpose(before + ["PURPOSE=" + purpose] + after_) == purpose
  {
    var args := before + ["PURPOSE=" + purpose] + after_;
    if after_ == [] {
      assert args[|args| - 1] == PURPOSE + purpose;
    } else {
      assert args[|args| - 1] == after_[|after_| - 1];
      assert args[..|args| - 1] == before + ["PURPOSE=" + purpose] + after_[..|after_| - 1];
      LastPurposeWins(before, purpose, after_[..|after_| - 1]);
    }
  }
}
