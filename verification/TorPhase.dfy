/** The bootstrap-phase reply Tor prints, how it travels, and what the polling loops read in it. */
module TorPhase {
  import opened Basics
  import opened Text
  import opened TorBootstrap
  import R = TorReplies

  datatype Severity = Notice | Warn | Err

  /**
   One bootstrap status as Tor holds it; `more` are the arguments it prints behind the summary when there is
   trouble (WARNING, REASON, COUNT and so on, section 4.1.10 of the control specification).
   */
  datatype Phase = Phase(severity: Severity, pct: nat, tag: string, summary: string, more: string)

  /** Tags are keywords: no blank and no quote. The summary and what follows it are any text. */
  predicate PhaseOk(p: Phase) {
    p.pct <= 100 && ' ' !in p.tag && '"' !in p.tag
  }

  function SeverityWord(s: Severity): string {
    match s
    case Notice => "NOTICE"
    case Warn => "WARN"
    case Err => "ERR"
  }

  /** Up to the progress: section 3.9 of the control specification, and the event's severity. */
  function Head(p: Phase): string {
    KEYWORD + (SeverityWord(p.severity) + " BOOTSTRAP ")
  }

  // Two more pieces; each starts with a word the loops search for.
  function TagPart(p: Phase): string { "TAG=" + p.tag + " " }
  function SummaryPart(p: Phase): string { "SUMMARY=\"" + p.summary + "\"" + (p.more + "\n250 OK\n") }

  /** What stands behind the progress. */
  function Behind(p: Phase): string {
    TagPart(p) + SummaryPart(p)
  }

  /** The whole reply, as `sendCommand` returns it, with the text `d` for the progress. */
  function ReplyWith(p: Phase, d: string): string {
    Head(p) + ("PROGRESS=" + d + " ") + Behind(p)
  }

  function PhaseReply(p: Phase): string {
    ReplyWith(p, Decimal(p.pct))
  }

  // ------------------------------------------------------------------ searching

  /** No '=' right behind a `c`, nor at the start. */
  predicate Apart(s: string, c: char) {
    forall k | 0 <= k < |s| && s[k] == '=' :: k > 0 && s[k - 1] != c
  }

  lemma ApartAppend(x: string, y: string, c: char)
    requires Apart(x, c) && Apart(y, c)
    ensures Apart(x + y, c)
  {
    var s := x + y;
    forall k | 0 <= k < |s| && s[k] == '='
      ensures k > 0 && s[k - 1] != c
    {
      if k >= |x| {
        assert y[k - |x|] == '=';
      }
    }
  }

  lemma ApartPlain(s: string, c: char)
    requires '=' !in s
    ensures Apart(s, c)
  {
  }

  /** `pat` starts first at `at` if its "c=" is nowhere earlier. */
  lemma FirstByPair(before: string, pat: string, rest: string, k: nat)
    requires k + 1 < |pat| && pat[k + 1] == '=' && '=' !in pat[..k + 1] && Apart(before, pat[k])
    ensures Index(before + pat + rest, pat) == |before|
  {
    var s := before + pat + rest;
    assert s[|before|..|before| + |pat|] == pat;
    forall m | 0 <= m < k + 1
      ensures s[|before| + m] == pat[m] != '='
    {
      assert pat[..k + 1][m] == pat[m];
    }
    forall e | 0 < e < |before| + k + 1 && s[e] == '='
      ensures s[e - 1] != pat[k]
    {
      assert e < |before| ==> before[e] == s[e] && before[e - 1] == s[e - 1];
      assert s[e] == s[|before| + (e - |before|)];
    }
    forall j: nat | OccursAt(s, pat, j)
      ensures j >= |before|
    {
      OccursChar(s, pat, j, k);
      OccursChar(s, pat, j, k + 1);
    }
    FirstOccurrence(s, pat, |before|);
  }

  /** `pat` starts first at `at` if its last character is nowhere earlier. */
  lemma FirstByLast(before: string, pat: string, rest: string)
    requires pat != [] && pat[|pat| - 1] !in before && pat[|pat| - 1] !in pat[..|pat| - 1]
    ensures Index(before + pat + rest, pat) == |before|
  {
    var s, n := before + pat + rest, |pat| - 1;
    assert s[|before|..|before| + |pat|] == pat;
    forall m | 0 <= m < |before| + n
      ensures s[m] != pat[n]
    {
      assert s[m] == (before + pat[..n])[m];
    }
    FirstByChar(s, pat, |before|, n);
  }

  const KEYWORD := "250-status/bootstrap-phase="

  lemma KeywordApart()
    ensures Apart(KEYWORD, 'S') && Apart(KEYWORD, 'G') && '"' !in KEYWORD
  {
    assert forall k | 0 <= k < |KEYWORD| && KEYWORD[k] == '=' :: k == 26;
  }

  lemma HeadFacts(p: Phase)
    ensures Apart(Head(p), 'S') && Apart(Head(p), 'G') && '"' !in Head(p)
  {
    KeywordApart();
    var word := SeverityWord(p.severity) + " BOOTSTRAP ";
    assert '=' !in word && '"' !in word;
    assert Head(p) == KEYWORD + word;
    hide Apart, SeverityWord, Head;
    ApartPlain(word, 'S');
    ApartPlain(word, 'G');
    ApartAppend(KEYWORD, word, 'S');
    ApartAppend(KEYWORD, word, 'G');
  }

  lemma ScanDecimal(n: nat)
    requires n <= 100
    ensures ScanInt(Decimal(n)) == Some(n)
  {
    var d := Decimal(n);
    assert d[0] in d;
    assert IsDigit(d[0]);
    SpanIs(d, true, 0);
    assert d[0..] == d;
    AllDigitsSpan(d);
    assert d[..|d|] == d;
    ValueOfDecimal(n);
  }

  lemma {:induction false} AllDigitsSpan(s: string)
    requires AllDigits(s)
    ensures DigitSpan(s) == |s|
  {
    if s != [] {
      assert s[0] in s;
      AllDigitsSpan(s[1..]);
    }
  }

  // -------------------------------------------------------------- reading it back

  lemma PctOfPieces(head: string, d: string, more: string)
    requires Apart(head, 'S') && ' ' !in d
    ensures PctOf(head + ("PROGRESS=" + d + " ") + more) == if ScanInt(d).Some? then ScanInt(d).value else 0
  {
    var reply, rest := head + ("PROGRESS=" + d + " ") + more, d + " " + more;
    Reassociate(head, "PROGRESS=", d, " ", more);
    hide Index, ScanInt, Apart;
    FirstByPair(head, "PROGRESS=", rest, 7);
    assert reply[|head| + 9..] == rest;
    CutAt(d, ' ', more);
  }

  lemma ReadsText(p: Phase, d: string)
    requires ' ' !in d
    ensures PctOf(ReplyWith(p, d)) == if ScanInt(d).Some? then ScanInt(d).value else 0
  {
    HeadFacts(p);
    hide PctOf, ScanInt, Apart, Head, Behind;
    PctOfPieces(Head(p), d, Behind(p));
  }

  lemma ReadsPct(p: Phase)
    requires PhaseOk(p)
    ensures PctOf(PhaseReply(p)) == p.pct
  {
    DigitsPlain(p.pct);
    hide PctOf, Decimal, ScanInt, ReplyWith;
    ReadsText(p, Decimal(p.pct));
    ScanDecimal(p.pct);
  }

  lemma Reassociate(a: string, b: string, c: string, d: string, e: string)
    ensures a + (b + c + d) + e == a + b + (c + d + e)
  {
  }

  /** What stands before the tag. */
  function BeforeTag(p: Phase): string {
    Head(p) + ("PROGRESS=" + Decimal(p.pct) + " ")
  }

  lemma BeforeTagApart(p: Phase)
    ensures Apart(BeforeTag(p), 'G') && '"' !in BeforeTag(p)
  {
    HeadFacts(p);
    DigitsPlain(p.pct);
    assert Apart("PROGRESS=", 'G');
    hide Decimal, Head;
    var d := Decimal(p.pct);
    ApartPlain(d, 'G');
    ApartPlain(" ", 'G');
    ApartAppend("PROGRESS=", d, 'G');
    ApartAppend("PROGRESS=" + d, " ", 'G');
    ApartAppend(Head(p), "PROGRESS=" + d + " ", 'G');
  }

  lemma ReadsTag(p: Phase)
    requires PhaseOk(p)
    ensures TagOf(PhaseReply(p)) == p.tag
  {
    var before, rest := BeforeTag(p), p.tag + " " + SummaryPart(p);
    var reply := PhaseReply(p);
    assert reply == before + (("TAG=" + p.tag + " ") + SummaryPart(p));
    hide Index, Apart, SummaryPart, BeforeTag, ReplyWith;
    assert reply == before + "TAG=" + rest;
    BeforeTagApart(p);
    FirstByPair(before, "TAG=", rest, 2);
    assert reply[|before| + 4..] == rest;
    CutAt(p.tag, ' ', SummaryPart(p));
  }

  lemma OneChar(s: string, c: char, i: nat)
    requires i < |s|
    ensures OccursAt(s, [c], i) <==> s[i] == c
  {
    assert s[i..i + 1] == [s[i]];
  }

  /** The first quote behind `x` ends it, or one inside it does. */
  lemma CutAtQuote(x: string, rest: string)
    ensures 0 <= Index(x + "\"" + rest, "\"") <= |x|
    ensures var read := (x + "\"" + rest)[..Index(x + "\"" + rest, "\"")];
            '"' !in read && read + "\"" <= x + "\""
  {
    var s := x + "\"" + rest;
    var q := Index(s, "\"");
    assert OccursAt(s, "\"", |x|);
    OccursChar(s, "\"", q, 0);
    forall i | 0 <= i < q
      ensures s[i] != '"'
    {
      OneChar(s, '"', i);
    }
    assert (x + "\"")[..q + 1] == s[..q] + "\"";
  }

  /** The summary is read up to its first quote. */
  lemma ReadsSummary(p: Phase)
    requires PhaseOk(p)
    ensures '"' !in SummaryOf(PhaseReply(p)) && SummaryOf(PhaseReply(p)) + "\"" <= p.summary + "\""
  {
    BeforeTagApart(p);
    var before := BeforeTag(p) + TagPart(p);
    assert '"' !in before;
    var tail := p.more + "\n250 OK\n";
    var word, rest := "SUMMARY=\"", p.summary + "\"" + tail;
    Regroup(word, p.summary, "\"", tail);
    assert SummaryPart(p) == word + rest;
    var reply := PhaseReply(p);
    assert reply == BeforeTag(p) + (TagPart(p) + SummaryPart(p));
    hide Index, TagPart, SummaryPart, BeforeTag, ReplyWith;
    assert reply == before + word + rest;
    assert word[..8] == "SUMMARY=";
    FirstByLast(before, word, rest);
    assert reply[|before| + 9..] == rest;
    CutAtQuote(p.summary, tail);
  }

  lemma Regroup(a: string, b: string, c: string, d: string)
    ensures a + b + c + d == a + (b + c + d)
  {
  }

  /**
   The loop reads a printed phase back, of any severity and with any further arguments: always the
   percentage and the tag, and the summary up to its first quote, so all of it iff it holds none.
   */
  lemma ReadingInvertsPrinting(p: Phase)
    requires PhaseOk(p)
    ensures var r := Reading(PhaseReply(p));
            && r.pct == p.pct && r.tag == p.tag
            && '"' !in r.summary && r.summary + "\"" <= p.summary + "\""
            && (r == Progress(p.pct, p.tag, p.summary) <==> '"' !in p.summary)
  {
    ReadsPct(p);
    ReadsTag(p);
    ReadsSummary(p);
    hide PctOf, TagOf, SummaryOf, PhaseReply;
    UpToQuote(SummaryOf(PhaseReply(p)), p.summary);
  }

  lemma UpToQuote(r: string, x: string)
    requires '"' !in r && r + "\"" <= x + "\""
    ensures r == x <==> '"' !in x
  {
    var s, n := x + "\"", |r|;
    assert s[n] == (r + "\"")[n] == '"';
    assert n < |x| ==> x[n] == s[n];
    assert s[..n] == (r + "\"")[..n] == r;
    assert s[..|x|] == x;
  }

  // ------------------------------------------------------------------ completion

  lemma BeforeProgress(head: string, rest: string, j: nat)
    requires Apart(head, 'S') && OccursAt(head + "PROGRESS=" + rest, "PROGRESS=100", j) && j < |head| + 9
    ensures j == |head|
  {
    var s, pat, n := head + "PROGRESS=" + rest, "PROGRESS=100", |head|;
    assert forall k | 0 <= k < n :: s[k] == head[k];
    assert forall k | n <= k < n + 9 :: s[k] == "PROGRESS="[k - n];
    OccursChar(s, pat, j, 0);
    OccursChar(s, pat, j, 7);
    OccursChar(s, pat, j, 8);
  }

  lemma BehindText(x: string, d: string, more: string, j: nat)
    requires 'P' !in d && j >= |x| && OccursAt(x + (d + " " + more), "PROGRESS=100", j)
    ensures j >= |x| + |d| + 1
  {
    var s := x + (d + " " + more);
    assert forall k | 0 <= k < |d| :: s[|x| + k] == d[k] && d[k] in d;
    assert s[|x| + |d|] == ' ';
    OccursChar(s, "PROGRESS=100", j, 0);
  }

  /** Where "PROGRESS=100" can stand in a reply: where the progress does, or behind it. */
  lemma ProgressOccurs(head: string, d: string, more: string, j: nat)
    requires Apart(head, 'S') && 'P' !in d
    requires OccursAt(head + "PROGRESS=" + (d + " " + more), "PROGRESS=100", j)
    ensures j == |head| || (j >= |head| + 10 + |d| && OccursAt(more, "PROGRESS=100", j - |head| - 10 - |d|))
  {
    hide Apart, OccursAt;
    var start := head + "PROGRESS=" + d + " ";
    assert head + "PROGRESS=" + (d + " " + more) == start + more;
    if j < |head| + 9 {
      BeforeProgress(head, d + " " + more, j);
    } else {
      BehindText(head + "PROGRESS=", d, more, j);
      OccursShift(start, more, "PROGRESS=100", j - |start|);
    }
  }

  lemma HundredText(pct: nat, more: string)
    requires pct <= 100
    ensures "100" <= Decimal(pct) + " " + more <==> pct == 100
  {
    DecimalWidth(pct);
    DigitsPlain(pct);
    var d, t := Decimal(pct), Decimal(pct) + " " + more;
    if pct == 100 {
      Decimal100();
    } else {
      assert t[|d|] == ' ' && |d| <= 2;
      assert "100"[|d|] != ' ';
    }
  }

  lemma Decimal100()
    ensures Decimal(100) == "100"
  {
    assert Decimal(1) == "1";
    assert Decimal(10) == "10";
  }

  lemma SameStart(x: string, y: string, z: string)
    ensures x + y == x + z <==> y == z
  {
    assert (x + y)[|x|..] == y && (x + z)[|x|..] == z;
  }

  lemma HundredAtProgress(head: string, rest: string)
    ensures OccursAt(head + "PROGRESS=" + rest, "PROGRESS=100", |head|) <==> "100" <= rest
  {
    var pat, tail := "PROGRESS=100", "PROGRESS=" + rest;
    assert head + "PROGRESS=" + rest == head + tail;
    OccursShift(head, tail, pat, 0);
    if |rest| >= 3 {
      assert tail[0..12] == "PROGRESS=" + rest[..3];
      assert pat == "PROGRESS=" + "100";
      SameStart("PROGRESS=", rest[..3], "100");
    }
  }

  lemma HundredInPieces(head: string, d: string, more: string)
    requires Apart(head, 'S') && 'P' !in d
    ensures var s := head + "PROGRESS=" + (d + " " + more);
            Hundred(s) <==> "100" <= d + " " + more || Contains(more, "PROGRESS=100")
  {
    hide Apart, OccursAt;
    var rest, pat := d + " " + more, "PROGRESS=100";
    var s, start := head + "PROGRESS=" + rest, head + "PROGRESS=" + d + " ";
    HundredAtProgress(head, rest);
    assert s == start + more;
    if Hundred(s) {
      ProgressOccurs(head, d, more, Index(s, pat));
    }
    if Contains(more, pat) {
      OccursShift(start, more, pat, Index(more, pat));
    }
  }

  /** The loops take the phase for complete. */
  predicate Complete(p: Phase) {
    p.pct == 100 || Contains(Behind(p), "PROGRESS=100")
  }

  /** A reply with `d` for the progress completes iff 100 starts there or the text behind repeats the search word. */
  lemma HundredWith(p: Phase, d: string)
    requires 'P' !in d
    ensures Hundred(ReplyWith(p, d)) <==> "100" <= d + " " + Behind(p) || Contains(Behind(p), "PROGRESS=100")
  {
    HeadFacts(p);
    hide Index, Contains, Hundred, Apart, Behind, Head;
    Reassociate(Head(p), "PROGRESS=", d, " ", Behind(p));
    HundredInPieces(Head(p), d, Behind(p));
  }

  lemma NoLetterP(n: nat)
    ensures 'P' !in Decimal(n)
  {
    assert AllDigits(Decimal(n)) && !IsDigit('P');
    hide Decimal;
  }

  /** A printed phase counts as complete iff its percentage is 100 or its own text repeats the search word. */
  lemma HundredExactly(p: Phase)
    requires PhaseOk(p)
    ensures Hundred(PhaseReply(p)) <==> Complete(p)
  {
    hide Contains, Hundred, Decimal, Behind, ReplyWith;
    NoLetterP(p.pct);
    HundredText(p.pct, Behind(p));
    HundredWith(p, Decimal(p.pct));
  }

  // --------------------------------------------------------------------- the wire

  /** Text of one line. */
  predicate OneLine(p: Phase) {
    '\n' !in p.tag && '\n' !in p.summary && '\n' !in p.more
  }

  /** Behind the status code and its hyphen. */
  function LineText(p: Phase, d: string): string {
    "status/bootstrap-phase=" + (SeverityWord(p.severity) + " BOOTSTRAP ") + ("PROGRESS=" + d + " ")
    + (TagPart(p) + ("SUMMARY=\"" + p.summary + "\"" + p.more))
  }

  /** The reply to GETINFO status/bootstrap-phase: a mid line and the end line. */
  function AsReply(p: Phase, d: string): R.Reply {
    R.Reply([R.Mid("250", LineText(p, d))], "250", "OK")
  }

  lemma LinesOfReply(text: string)
    ensures R.ReplyLines(R.Reply([R.Mid("250", text)], "250", "OK")) == ["250-" + text, "250 OK"]
  {
    var mid := R.Mid("250", text);
    assert [mid][1..] == [] && R.InnerLines([]) == [];
    assert "250" + "-" == "250-" && "250" + " " + "OK" == "250 OK";
    assert R.InnerLines([mid]) == R.PartLines(mid) + R.InnerLines([]) == ["250-" + text];
  }

  lemma UnlinesOfTwo(x: string, y: string)
    ensures Unlines([x, y]) == x + "\n" + (y + "\n")
  {
    assert [x, y][1..] == [y] && [y][1..] == [];
    assert Unlines([y]) == y + "\n" + Unlines([]);
  }

  lemma WordsRegroup(
    a: string, b: string, c: string, d: string, e: string, f: string, g: string, h: string)
    ensures a + (b + c + d + (e + (f + g))) + h == a + b + c + d + (e + (f + (g + h)))
  {
  }

  lemma WordsOfReply(p: Phase, d: string)
    ensures "250-" + LineText(p, d) + "\n250 OK\n" == ReplyWith(p, d)
  {
    assert KEYWORD == "250-" + "status/bootstrap-phase=";
    hide SeverityWord;
    var word, progress := SeverityWord(p.severity) + " BOOTSTRAP ", "PROGRESS=" + d + " ";
    var summary := "SUMMARY=\"" + p.summary + "\"";
    WordsRegroup(
      "250-", "status/bootstrap-phase=", word, progress, TagPart(p), summary, p.more, "\n250 OK\n");
    hide TagPart;
    assert KEYWORD + word == "250-" + "status/bootstrap-phase=" + word;
  }

  lemma ReplyText(p: Phase, d: string)
    ensures Unlines(R.ReplyLines(AsReply(p, d))) == ReplyWith(p, d)
  {
    LinesOfReply(LineText(p, d));
    UnlinesOfTwo("250-" + LineText(p, d), "250 OK");
    WordsOfReply(p, d);
    hide LineText, ReplyWith, Unlines, R.ReplyLines;
    var line := "250-" + LineText(p, d);
    assert line + "\n" + ("250 OK" + "\n") == line + "\n250 OK\n";
  }

  lemma ReplyIsQuiet(p: Phase, d: string)
    requires OneLine(p) && '\n' !in d
    ensures R.ReplyOk(AsReply(p, d)) && R.Quiet(AsReply(p, d))
  {
    assert R.IsCode("250");
    var word := SeverityWord(p.severity);
    assert '\n' !in word;
    hide SeverityWord, R.IsCode;
    assert '\n' !in LineText(p, d);
  }

  function AsReplies(phases: seq<Phase>): seq<R.Reply> {
    if phases == [] then [] else [AsReply(phases[0], Decimal(phases[0].pct))] + AsReplies(phases[1..])
  }

  /** What the k-th of as many commands returns is the k-th phase's reply. */
  lemma {:induction false} CommandsReturnPhases(phases: seq<Phase>, tail: string)
    requires forall p | p in phases :: OneLine(p)
    ensures var calls := R.Calls(R.Wire(AsReplies(phases)) + tail, |phases|);
            && |calls| == |phases|
            && (forall i | 0 <= i < |phases| :: calls[i].reply == PhaseReply(phases[i]) && calls[i].complete)
            && (phases != [] ==> calls[|phases| - 1].rest == tail)
  {
    hide OneLine, R.Calls, R.Wire, R.Quiet, R.ReplyOk, AsReply, PhaseReply, R.OwnReplies;
    AsRepliesOk(phases);
    R.CommandsStayInStep(AsReplies(phases), tail);
    OwnPhases(phases, tail);
  }

  lemma {:induction false} AsRepliesOk(phases: seq<Phase>)
    requires forall p | p in phases :: OneLine(p)
    ensures |AsReplies(phases)| == |phases|
    ensures forall r | r in AsReplies(phases) :: R.ReplyOk(r) && R.Quiet(r)
  {
    hide OneLine, R.Quiet, R.ReplyOk, AsReply;
    if phases != [] {
      var p := phases[0];
      assert p in phases && AllDigits(Decimal(p.pct)) && !IsDigit('\n');
      hide Decimal;
      ReplyIsQuiet(p, Decimal(p.pct));
      AsRepliesOk(phases[1..]);
    }
  }

  lemma OwnFirst(r: R.Reply, more: seq<R.Reply>, tail: string)
    ensures R.OwnReplies([r] + more, tail)
         == [R.Framed(Unlines(R.ReplyLines(r)), R.Wire(more) + tail, true)] + R.OwnReplies(more, tail)
    ensures R.Wire([]) + tail == tail
  {
    hide Unlines, R.ReplyLines;
    assert ([r] + more)[1..] == more;
    assert R.Wire([]) == [];
    assert [] + tail == tail;
  }

  lemma {:induction false} OwnPhases(phases: seq<Phase>, tail: string)
    ensures var own := R.OwnReplies(AsReplies(phases), tail);
            && |own| == |phases|
            && (forall i | 0 <= i < |phases| :: own[i].reply == PhaseReply(phases[i]) && own[i].complete)
            && (phases != [] ==> own[|phases| - 1].rest == tail)
  {
    hide AsReply, Unlines, R.ReplyLines, ReplyWith, Decimal;
    if phases != [] {
      var p, more := phases[0], phases[1..];
      ReplyText(p, Decimal(p.pct));
      OwnFirst(AsReply(p, Decimal(p.pct)), AsReplies(more), tail);
      OwnPhases(more, tail);
      assert AsReplies(phases) == [AsReply(p, Decimal(p.pct))] + AsReplies(more);
      hide R.OwnReplies, R.Wire;
      var rest := R.OwnReplies(AsReplies(more), tail);
      assert forall i | 1 <= i < |phases| :: phases[i] == more[i - 1];
      assert more == [] ==> AsReplies(more) == [];
    }
  }

  // ----------------------------------------------- replies other than a printed phase

  lemma {:induction false} ValueAtLeast(s: string)
    requires AllDigits(s) && |s| >= 3 && s[..3] == "100"
    ensures if |s| == 3 then Value(s) == 100 else Value(s) >= 1000
  {
    var before := s[..|s| - 1];
    assert s[|s| - 1] in s;
    if |s| > 3 {
      assert before[..3] == s[..3];
      ValueAtLeast(before);
    } else {
      assert s == "100";
      assert before == "10" && before[..1] == "1" && before[..1][..0] == "";
      assert Value("") == 0 && Value("1") == 1 && Value("10") == 10;
    }
  }

  /** What `Sscanf` makes of a text that starts with 100. */
  lemma ScanHundred(more: string)
    ensures ScanInt("100" + more) == Some(100) <==> more == [] || !IsDigit(more[0])
  {
    var t := "100" + more;
    SpanIs(t, true, 0);
    assert t[0..] == t;
    SpanOfHundred(more);
    var n := DigitSpan(t);
    assert t[..n][..3] == t[..3] == "100";
    ValueAtLeast(t[..n]);
  }

  lemma SpanCons(c: char, rest: string)
    requires IsDigit(c)
    ensures DigitSpan([c] + rest) == 1 + DigitSpan(rest)
  {
    assert ([c] + rest)[1..] == rest;
  }

  lemma SpanOfHundred(more: string)
    ensures DigitSpan("100" + more) == 3 + DigitSpan(more)
  {
    assert "100" + more == ['1'] + (['0'] + (['0'] + more));
    SpanCons('1', ['0'] + (['0'] + more));
    SpanCons('0', ['0'] + more);
    SpanCons('0', more);
  }

  /**
   When the completing reply's first progress is the 100 found, it reads as 100 iff no further digit follows
   and a blank does somewhere; otherwise it reads as another number, or as 0.
   */
  lemma CompletingReads(before: string, rest: string)
    requires Index(before + "PROGRESS=100" + rest, "PROGRESS=") == |before|
    ensures Hundred(before + "PROGRESS=100" + rest)
    ensures PctOf(before + "PROGRESS=100" + rest) == 100 <==> ' ' in rest && !IsDigit(rest[0])
  {
    var reply, text := before + "PROGRESS=100" + rest, "100" + rest;
    assert reply[|before|..|before| + 12] == "PROGRESS=100";
    assert OccursAt(reply, "PROGRESS=100", |before|);
    assert reply[|before| + 9..] == text;
    hide ScanInt;
    if ' ' in rest {
      var k := FirstBlank(rest);
      assert text == ("100" + rest[..k]) + [' '] + rest[k + 1..];
      CutAt("100" + rest[..k], ' ', rest[k + 1..]);
      ScanHundred(rest[..k]);
    } else {
      NoBlank(text);
    }
  }

  lemma NoBlank(s: string)
    ensures Index(s, " ") != -1 ==> ' ' in s
  {
    if Index(s, " ") != -1 {
      OccursChar(s, " ", Index(s, " "), 0);
    }
  }

  lemma {:induction false} FirstBlank(s: string) returns (k: nat)
    requires ' ' in s
    ensures k < |s| && s[k] == ' ' && ' ' !in s[..k]
  {
    if s[0] == ' ' {
      k := 0;
    } else {
      k := FirstBlank(s[1..]);
      assert s[..k + 1] == [s[0]] + s[1..][..k];
      k := k + 1;
    }
  }

  lemma NotIn(s: string, c: char)
    requires c !in s
    ensures Index(s, [c]) == -1
  {
    if Index(s, [c]) != -1 {
      OccursChar(s, [c], Index(s, [c]), 0);
    }
  }

  /** Replies without a word, or cut off behind one. */
  lemma ReadsOtherReplies(before: string, text: string)
    ensures !Contains(text, "PROGRESS=") ==> PctOf(text) == 0 && ProgressText(text) == None
    ensures !Contains(text, "TAG=") ==> TagOf(text) == ""
    ensures !Contains(text, "SUMMARY=\"") ==> SummaryOf(text) == ""
    ensures Index(before + "PROGRESS=" + text, "PROGRESS=") == |before| && ' ' !in text ==>
              PctOf(before + "PROGRESS=" + text) == 0 && ProgressText(before + "PROGRESS=" + text) == Some(text)
    ensures Index(before + "TAG=" + text, "TAG=") == |before| && ' ' !in text ==>
              TagOf(before + "TAG=" + text) == TrimSpace(text)
    ensures Index(before + "SUMMARY=\"" + text, "SUMMARY=\"") == |before| && '"' !in text ==>
              SummaryOf(before + "SUMMARY=\"" + text) == ""
  {
    assert (before + "PROGRESS=" + text)[|before| + 9..] == text;
    assert (before + "TAG=" + text)[|before| + 4..] == text;
    assert (before + "SUMMARY=\"" + text)[|before| + 9..] == text;
    hide Index, ScanInt, TrimSpace;
    if ' ' !in text {
      NotIn(text, ' ');
    }
    if '"' !in text {
      NotIn(text, '"');
    }
  }
}
