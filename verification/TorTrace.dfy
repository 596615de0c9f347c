/** The callback trace of a whole wait, compared with what was polled. */
module TorTrace {
  import opened Basics
  import opened Text
  import opened TorBootstrap
  import opened TorPhase
  import R = TorReplies

  // ------------------------------------------------------------------- any replies

  const DONE := Progress(100, "done", "Done")

  lemma PctsOfDone(reports: seq<Progress>)
    ensures Pcts(reports + [DONE]) == Pcts(reports) + [100]
  {
  }

  /** Consecutive repeats removed. */
  function Squeezed(xs: seq<int>): seq<int> {
    if |xs| <= 1 then xs
    else
      var n := |xs| - 1;
      Squeezed(xs[..n]) + if xs[n] != xs[n - 1] then [xs[n]] else []
  }

  predicate NoneTwice(xs: seq<int>) {
    forall i | 0 < i < |xs| :: xs[i - 1] != xs[i]
  }

  lemma {:induction false} SqueezedEnds(xs: seq<int>)
    ensures xs != [] ==> Squeezed(xs) != [] && Squeezed(xs)[0] == xs[0]
    ensures xs != [] ==> Squeezed(xs)[|Squeezed(xs)| - 1] == xs[|xs| - 1]
    ensures NoneTwice(Squeezed(xs))
  {
    if |xs| > 1 {
      SqueezedEnds(xs[..|xs| - 1]);
    }
  }

  /** The loop starts out from -1: a first -1 is not reported. */
  lemma {:induction false} DedupedIsSqueezed(xs: seq<int>)
    ensures Squeezed(xs) == (if xs != [] && xs[0] == -1 then [-1] else []) + Deduped(xs)
  {
    if |xs| == 1 {
      assert Deduped(xs[..0]) == [];
    } else if |xs| > 1 {
      DedupedIsSqueezed(xs[..|xs| - 1]);
    }
  }

  /** How many of `n` polls brought a reply. */
  function Answered(n: nat, outcome: Outcome): nat
    requires outcome.TimedOut? || n > 0
  {
    if outcome.Failed? then n - 1 else n
  }

  /** Poll `i` ends the wait in success, and the one before it already read 100. */
  ghost predicate Again(polls: nat -> Poll, pause: nat, deadline: int, i: nat) {
    i > 0 && ReportsHundred(polls, pause, deadline, i) && PctOf(TextOf(polls(i - 1))) == 100
  }

  /** Poll `i` ends the wait in success without its percentage being read as 100. */
  ghost predicate Unread(polls: nat -> Poll, pause: nat, deadline: int, i: nat) {
    ReportsHundred(polls, pause, deadline, i) && PctOf(TextOf(polls(i))) != 100
  }

  lemma {:induction false} DedupedNoneTwice(xs: seq<int>)
    ensures NoneTwice(Deduped(xs))
    ensures xs != [] && Deduped(xs) == [] ==> xs[|xs| - 1] == -1
    ensures xs != [] && Deduped(xs) != [] ==> Deduped(xs)[|Deduped(xs)| - 1] == xs[|xs| - 1]
  {
    if xs != [] {
      DedupedNoneTwice(xs[..|xs| - 1]);
    }
  }

  /** The first poll is made and reads -1. */
  ghost predicate StartsUnreported(polls: nat -> Poll, deadline: int) {
    0 < deadline && polls(0).reply.Some? && PctOf(TextOf(polls(0))) == -1
  }

  lemma FirstAnswered(polls: nat -> Poll, pause: nat, deadline: int, n: nat, outcome: Outcome)
    requires Ends(polls, pause, deadline, n, outcome)
    ensures Answered(n, outcome) > 0 <==> 0 < deadline && polls(0).reply.Some?
  {
    hide Hundred, PctOf;
    assert StartOf(polls, pause, 0) == 0;
  }

  lemma OnlyLastCompletes(polls: nat -> Poll, pause: nat, deadline: int, n: nat, outcome: Outcome, i: nat)
    requires Ends(polls, pause, deadline, n, outcome)
    ensures ReportsHundred(polls, pause, deadline, i) <==> outcome == Done && i == n - 1
  {
    hide Hundred, StartOf;
    if ReportsHundred(polls, pause, deadline, i) {
      SuccessExactly(polls, pause, deadline, n, outcome);
    }
  }

  /** The trace ends with 100 whatever the last poll reads. */
  lemma TraceOfDone(polls: nat -> Poll, n: nat)
    requires n > 0
    ensures Pcts(CallbackTrace(polls, n, Done)) == Deduped(Polled(polls, n - 1)) + [100]
  {
    hide PctOf, TagOf, SummaryOf, Reports, Deduped;
    ReportsAreDeduped(polls, n - 1);
    PctsOfDone(Reports(polls, n - 1));
  }

  /**
   On any replies: the trace has no consecutive repeat iff the poll before the successful one did not
   already read 100. It is the polled percentages with consecutive repeats removed iff moreover the
   successful poll itself reads as 100, and the first poll does not read -1.
   */
  lemma {:induction false} TraceOfAnyRun(polls: nat -> Poll, pause: nat, deadline: int, n: nat, outcome: Outcome)
    requires Ends(polls, pause, deadline, n, outcome)
    ensures NoneTwice(Pcts(CallbackTrace(polls, n, outcome)))
       <==> !exists i: nat :: Again(polls, pause, deadline, i)
    ensures Pcts(CallbackTrace(polls, n, outcome)) == Squeezed(Polled(polls, Answered(n, outcome)))
       <==> && !StartsUnreported(polls, deadline)
            && !exists i: nat :: Again(polls, pause, deadline, i) || Unread(polls, pause, deadline, i)
  {
    hide Hundred, PctOf, TagOf, SummaryOf, Reports, Ends, ReportsHundred, Deduped, Squeezed, CallbackTrace;
    forall i: nat
      ensures ReportsHundred(polls, pause, deadline, i) <==> outcome == Done && i == n - 1
    {
      OnlyLastCompletes(polls, pause, deadline, n, outcome, i);
    }
    SomePollWhenDone(polls, pause, deadline, n, outcome);
    FirstAnswered(polls, pause, deadline, n, outcome);
    var polled := Polled(polls, Answered(n, outcome));
    if outcome == Done {
      assert Again(polls, pause, deadline, n - 1) <==> n > 1 && PctOf(TextOf(polls(n - 2))) == 100;
      assert Unread(polls, pause, deadline, n - 1) <==> PctOf(TextOf(polls(n - 1))) != 100;
      TraceOfDone(polls, n);
      DoneTrace(polled);
      assert polled[..n - 1] == Polled(polls, n - 1);
    } else {
      TraceNotDone(polls, n, outcome);
      DedupedNoneTwice(polled);
      DedupedIsSqueezed(polled);
      assert |[-1] + Deduped(polled)| == 1 + |Deduped(polled)|;
      assert [] + Deduped(polled) == Deduped(polled);
    }
  }

  lemma SomePollWhenDone(polls: nat -> Poll, pause: nat, deadline: int, n: nat, outcome: Outcome)
    requires Ends(polls, pause, deadline, n, outcome)
    ensures outcome == TimedOut || n > 0
  {
  }

  lemma TraceNotDone(polls: nat -> Poll, n: nat, outcome: Outcome)
    requires outcome == TimedOut || (outcome == Failed && n > 0)
    ensures Pcts(CallbackTrace(polls, n, outcome)) == Deduped(Polled(polls, Answered(n, outcome)))
  {
    hide PctOf, TagOf, SummaryOf, Reports, Deduped;
    var m := Going(n, outcome);
    ReportsAreDeduped(polls, m);
    assert Reports(polls, m) + [] == Reports(polls, m);
  }

  /** A final 100 in place of the last percentage read. */
  lemma DoneTrace(xs: seq<int>)
    requires xs != []
    ensures var n, trace := |xs| - 1, Deduped(xs[..|xs| - 1]) + [100];
            && (NoneTwice(trace) <==> !(n > 0 && xs[n - 1] == 100))
            && (trace == Squeezed(xs) <==> !(n > 0 && xs[n - 1] == 100) && xs[n] == 100 && xs[0] != -1)
  {
    var n := |xs| - 1;
    hide NoneTwice, Deduped;
    DedupedNoneTwice(xs[..n]);
    NoneTwiceAppend(Deduped(xs[..n]), 100);
    DedupedIsSqueezed(xs[..n]);
    SqueezedEnds(xs[..n]);
    SqueezedStep(xs);
    hide Squeezed;
    var d := Deduped(xs[..n]);
    if xs[0] == -1 {
      SqueezedEnds(xs);
      FirstDiffers(d, n > 0);
    } else {
      assert [] + d == d;
      AppendEqual(d, 100, xs[n]);
    }
  }

  lemma FirstDiffers(d: seq<int>, led: bool)
    requires led ==> NoneTwice([-1] + d)
    requires !led ==> d == []
    ensures (d + [100])[0] != -1
  {
    if d != [] {
      assert ([-1] + d)[0] == -1 && ([-1] + d)[1] == d[0];
    }
  }

  lemma SqueezedStep(xs: seq<int>)
    requires xs != []
    ensures var n := |xs| - 1;
            Squeezed(xs) == Squeezed(xs[..n]) + if n == 0 || xs[n] != xs[n - 1] then [xs[n]] else []
  {
  }

  lemma AppendEqual(d: seq<int>, x: int, y: int)
    ensures d + [x] == d + [y] <==> x == y
    ensures d + [x] != d + []
  {
    assert (d + [x])[|d|] == x && (d + [y])[|d|] == y;
    assert |d + [x]| == |d + []| + 1;
  }

  lemma NoneTwiceAppend(xs: seq<int>, x: int)
    requires NoneTwice(xs)
    ensures NoneTwice(xs + [x]) <==> xs == [] || xs[|xs| - 1] != x
  {
    var all := xs + [x];
    assert forall i | 0 <= i < |xs| :: all[i] == xs[i];
    assert all[|xs|] == x;
  }

  // --------------------------------------------------------------- printed replies

  ghost predicate AllPrinted(polls: nat -> Poll, phases: seq<Phase>, n: nat) {
    && |phases| == n
    && forall i: nat | i < n :: PhaseOk(phases[i]) && polls(i).reply == Some(PhaseReply(phases[i]))
  }

  /** Polls that bring what the commands of a connection return bring the phases printed on it. */
  lemma WireIsPrinted(polls: nat -> Poll, phases: seq<Phase>, tail: string)
    requires forall p | p in phases :: PhaseOk(p) && OneLine(p)
    requires forall i: nat | i < |phases| ::
               i < |R.Calls(R.Wire(AsReplies(phases)) + tail, |phases|)|
               && polls(i).reply == Some(R.Calls(R.Wire(AsReplies(phases)) + tail, |phases|)[i].reply)
    ensures AllPrinted(polls, phases, |phases|)
  {
    hide PhaseOk, OneLine, R.Calls, R.Wire, AsReplies, PhaseReply;
    CommandsReturnPhases(phases, tail);
    assert forall i | 0 <= i < |phases| :: phases[i] in phases;
  }

  function PhasePcts(phases: seq<Phase>): seq<int> {
    seq(|phases|, i requires 0 <= i < |phases| => phases[i].pct)
  }

  /** Taken for complete below 100 percent. */
  predicate Misread(p: Phase) {
    Complete(p) && p.pct != 100
  }

  lemma PrintedPolls(polls: nat -> Poll, phases: seq<Phase>, n: nat)
    requires AllPrinted(polls, phases, n)
    ensures forall i: nat | i < n ::
              PctOf(TextOf(polls(i))) == phases[i].pct && (Hundred(TextOf(polls(i))) <==> Complete(phases[i]))
    ensures Polled(polls, n) == PhasePcts(phases)
  {
    hide Hundred, PctOf, PhaseReply, Complete;
    forall i: nat | i < n
      ensures PctOf(TextOf(polls(i))) == phases[i].pct
      ensures Hundred(TextOf(polls(i))) <==> Complete(phases[i])
    {
      ReadsPct(phases[i]);
      HundredExactly(phases[i]);
    }
  }

  /**
   When every reply is a printed phase, success is a last phase that is complete, and the trace then ends
   with 100. The trace is the polled percentages with consecutive repeats removed iff no phase below 100 is
   taken for complete. It is strictly increasing if the percentage never decreases.
   */
  lemma {:induction false} PrintedRun(
    polls: nat -> Poll, phases: seq<Phase>, pause: nat, deadline: int, n: nat, outcome: Outcome)
    requires AllPrinted(polls, phases, n)
    requires Ends(polls, pause, deadline, n, outcome)
    ensures Pcts(CallbackTrace(polls, n, outcome)) == Squeezed(PhasePcts(phases))
       <==> forall p | p in phases :: !Misread(p)
    ensures outcome == Done <==> n > 0 && Complete(phases[n - 1])
    ensures forall i | 0 <= i < n - 1 :: !Complete(phases[i])
    ensures outcome == Done ==> CallbackTrace(polls, n, outcome)[|CallbackTrace(polls, n, outcome)| - 1].pct == 100
    ensures NonDecreasing(PhasePcts(phases)) ==> StrictlyIncreasing(Pcts(CallbackTrace(polls, n, outcome)))
  {
    hide Hundred, PctOf, PhaseReply, Contains, CallbackTrace, StartOf, Squeezed, Complete, Deduped;
    PrintedPolls(polls, phases, n);
    assert forall i: nat | i < n :: TextOf(polls(i)) == polls(i).reply.value;
    assert outcome == Done <==> n > 0 && Complete(phases[n - 1]);
    PrintedTrace(polls, phases, pause, deadline, n, outcome);
    forall i | 0 <= i < n - 1
      ensures phases[i].pct < 100
    {
      BelowHundred(phases[i]);
    }
    PrintedIncreases(polls, phases, n, outcome);
    if outcome == Done {
      LastOfDone(polls, n);
    }
  }

  lemma BelowHundred(p: Phase)
    requires PhaseOk(p) && !Complete(p)
    ensures p.pct < 100
  {
  }

  lemma LastOfDone(polls: nat -> Poll, n: nat)
    requires n > 0
    ensures var trace := CallbackTrace(polls, n, Done); trace[|trace| - 1].pct == 100
  {
  }

  lemma PrintedTrace(
    polls: nat -> Poll, phases: seq<Phase>, pause: nat, deadline: int, n: nat, outcome: Outcome)
    requires Ends(polls, pause, deadline, n, outcome)
    requires |phases| == n && Polled(polls, n) == PhasePcts(phases)
    requires forall i: nat | i < n ::
               polls(i).reply.Some? && (Hundred(TextOf(polls(i))) <==> Complete(phases[i]))
               && PctOf(TextOf(polls(i))) == phases[i].pct
    requires forall i | 0 <= i < n - 1 :: !Complete(phases[i])
    requires outcome == Done <==> n > 0 && Complete(phases[n - 1])
    ensures Pcts(CallbackTrace(polls, n, outcome)) == Squeezed(PhasePcts(phases))
       <==> forall p | p in phases :: !Misread(p)
  {
    hide Hundred, PctOf, CallbackTrace, StartOf, Squeezed, ReportsHundred, Contains;
    assert outcome != Failed;
    TraceOfAnyRun(polls, pause, deadline, n, outcome);
    forall i: nat
      ensures ReportsHundred(polls, pause, deadline, i) <==> outcome == Done && i == n - 1
    {
      OnlyLastCompletes(polls, pause, deadline, n, outcome, i);
    }
    FirstAnswered(polls, pause, deadline, n, outcome);
    hide Ends;
    assert forall i: nat :: !Again(polls, pause, deadline, i);
    assert outcome == Done ==> (Unread(polls, pause, deadline, n - 1) <==> Misread(phases[n - 1]));
    assert forall i | 0 <= i < n :: Misread(phases[i]) ==> i == n - 1 && phases[i] in phases;
  }

  lemma PrintedIncreases(polls: nat -> Poll, phases: seq<Phase>, n: nat, outcome: Outcome)
    requires outcome == TimedOut || n > 0
    requires |phases| == n && Polled(polls, n) == PhasePcts(phases)
    requires outcome == Done ==> forall i | 0 <= i < n - 1 :: phases[i].pct < 100
    ensures NonDecreasing(PhasePcts(phases)) ==> StrictlyIncreasing(Pcts(CallbackTrace(polls, n, outcome)))
  {
    hide PctOf, Deduped, Reports, StrictlyIncreasing;
    var m, pcts := Going(n, outcome), PhasePcts(phases);
    if NonDecreasing(pcts) {
      assert Polled(polls, m) == pcts[..m];
      DedupedIncreases(pcts[..m]);
      ReportsAreDeduped(polls, m);
      if outcome == Done {
        PctsOfDone(Reports(polls, m));
        assert m > 0 ==> pcts[..m][m - 1] == phases[m - 1].pct;
        IncreasingAppend(Deduped(pcts[..m]), 100);
      } else {
        assert CallbackTrace(polls, n, outcome) == Reports(polls, m);
      }
    }
  }

  /** The percentage is another than before. */
  predicate NewPct(phases: seq<Phase>, k: nat)
    requires k < |phases|
  {
    k == 0 || phases[k].pct != phases[k - 1].pct
  }

  /**
   On printed phases without quotes in their summaries the callback sees, in order, percentage, tag and summary
   of exactly those that did not end the wait and changed the percentage, and after a success
   (100, "done", "Done").
   */
  lemma {:induction false} PrintedEntries(
    polls: nat -> Poll, phases: seq<Phase>, pause: nat, deadline: int, n: nat, outcome: Outcome)
    returns (ks: seq<nat>)
    requires AllPrinted(polls, phases, n) && forall p | p in phases :: '"' !in p.summary
    requires Ends(polls, pause, deadline, n, outcome)
    ensures var m, trace := if outcome == Done then n - 1 else n, CallbackTrace(polls, n, outcome);
            && (forall i | 0 <= i < |ks| :: ks[i] < m)
            && (forall i, j | 0 <= i < j < |ks| :: ks[i] < ks[j])
            && (forall k: nat | k < m :: k in ks <==> NewPct(phases, k))
            && |trace| == |ks| + (if outcome == Done then 1 else 0)
            && (forall i | 0 <= i < |ks| ::
                  trace[i] == Progress(phases[ks[i]].pct, phases[ks[i]].tag, phases[ks[i]].summary))
            && (outcome == Done ==> trace[|ks|] == Progress(100, "done", "Done"))
  {
    hide PctOf, TagOf, SummaryOf, PhaseReply, Hundred, CallbackTrace, StartOf;
    forall k: nat | k < n
      ensures Reading(TextOf(polls(k))) == Progress(phases[k].pct, phases[k].tag, phases[k].summary)
    {
      assert phases[k] in phases;
      ReadingInvertsPrinting(phases[k]);
    }
    SomePollWhenDone(polls, pause, deadline, n, outcome);
    assert outcome != Failed;
    ks := TraceEntries(polls, n, outcome);
    var m, trace := if outcome == Done then n - 1 else n, CallbackTrace(polls, n, outcome);
    forall k: nat | k < m
      ensures Changes(polls, k) <==> NewPct(phases, k)
    {
    }
    assert forall i | 0 <= i < |ks| :: trace[..|ks|][i] == trace[i];
  }

  // ------------------------------------------------------- what the plain loop logs

  lemma ReadsProgressText(p: Phase)
    requires PhaseOk(p)
    ensures ProgressText(PhaseReply(p)) == Some(Decimal(p.pct))
  {
    HeadFacts(p);
    DigitsPlain(p.pct);
    hide Index, Apart, Head, Behind, Decimal;
    var d, more := Decimal(p.pct), Behind(p);
    var rest := d + " " + more;
    Reassociate(Head(p), "PROGRESS=", d, " ", more);
    FirstByPair(Head(p), "PROGRESS=", rest, 7);
    assert PhaseReply(p)[|Head(p)| + 9..] == rest;
    CutAt(d, ' ', more);
  }

  lemma DecimalTells(m: nat, n: nat)
    ensures Decimal(m) == Decimal(n) <==> m == n
  {
    hide Decimal, Value;
    ValueOfDecimal(m);
    ValueOfDecimal(n);
  }

  lemma {:induction false} LastTextOfPrinted(polls: nat -> Poll, phases: seq<Phase>, n: nat, m: nat)
    requires AllPrinted(polls, phases, n) && m <= n
    ensures LastText(polls, m) == if m == 0 then [] else Decimal(phases[m - 1].pct)
  {
    hide ProgressText, PhaseReply, PhaseOk;
    if m > 0 {
      ReadsProgressText(phases[m - 1]);
    }
  }

  /** The plain loop logs the percentage of exactly the printed phases that changed it, in order. */
  lemma {:induction false} PrintedLog(polls: nat -> Poll, phases: seq<Phase>, n: nat, m: nat) returns (ks: seq<nat>)
    requires AllPrinted(polls, phases, n) && m <= n
    ensures (forall i | 0 <= i < |ks| :: ks[i] < m) && (forall i, j | 0 <= i < j < |ks| :: ks[i] < ks[j])
    ensures forall k: nat | k < m :: k in ks <==> NewPct(phases, k)
    ensures |Logged(polls, m)| == |ks|
    ensures forall i | 0 <= i < |ks| :: Logged(polls, m)[i] == Decimal(phases[ks[i]].pct)
    decreases m
  {
    hide ProgressText, PhaseReply, PhaseOk, Decimal, LastText;
    ks := [];
    if m > 0 {
      var k := m - 1;
      ks := PrintedLog(polls, phases, n, k);
      ReadsProgressText(phases[k]);
      LastTextOfPrinted(polls, phases, n, k);
      if k > 0 {
        DecimalTells(phases[k].pct, phases[k - 1].pct);
      }
      assert k !in ks;
      if NewPct(phases, k) {
        ks := ks + [k];
      }
    }
  }

  // ------------------------------------------------------------------- failing inputs

  /** The end of a bootstrap, and a warning at 50 percent whose text repeats the search word. */
  const DONE_PHASE := Phase(Notice, 100, "done", "Done", "")
  const TROUBLE := Phase(Warn, 50, "conn", "Connecting", " WARNING=\"" + "PROGRESS=100" + "\"")

  lemma DonePhase()
    ensures PhaseOk(DONE_PHASE) && OneLine(DONE_PHASE) && !Contains(Behind(DONE_PHASE), "PROGRESS=100")
  {
    var s := Behind(DONE_PHASE);
    assert 'P' !in s;
    if Contains(s, "PROGRESS=100") {
      OccursChar(s, "PROGRESS=100", Index(s, "PROGRESS=100"), 0);
    }
  }

  lemma ContainsMiddle(x: string, pat: string, y: string)
    ensures Contains(x + pat + y, pat)
  {
    assert x + pat + y == x + (pat + y);
    OccursShift(x, pat + y, pat, 0);
    assert (pat + y)[0..|pat|] == pat;
  }

  lemma BehindContains(p: Phase, x: string, pat: string, y: string)
    requires p.more == x + pat + y
    ensures Contains(Behind(p), pat)
  {
    hide Contains, TagPart;
    var before := TagPart(p) + ("SUMMARY=\"" + p.summary + "\"") + x;
    assert Behind(p) == before + pat + (y + "\n250 OK\n");
    ContainsMiddle(before, pat, y + "\n250 OK\n");
  }

  lemma TroubleIsMisread()
    ensures PhaseOk(TROUBLE) && OneLine(TROUBLE) && Misread(TROUBLE)
  {
    hide Contains, Behind;
    BehindContains(TROUBLE, " WARNING=\"", "PROGRESS=100", "\"");
  }

  /** A wait whose one poll brings the trouble at 50 percent: it succeeds, and the callback sees only 100. */
  lemma TroubleCompletes(polls: nat -> Poll)
    requires polls(0).reply == Some(PhaseReply(TROUBLE))
    ensures AllPrinted(polls, [TROUBLE], 1) && Ends(polls, 5, Deadline(60), 1, Done)
    ensures Pcts(CallbackTrace(polls, 1, Done)) == [100] && Polled(polls, 1) == [50]
  {
    hide PhaseReply, Hundred, PctOf, CallbackTrace, Deduped;
    TroubleIsMisread();
    HundredExactly(TROUBLE);
    PrintedPolls(polls, [TROUBLE], 1);
    assert StartOf(polls, 5, 0) == 0;
    TraceOfDone(polls, 1);
    NothingDeduped(polls);
  }

  lemma NothingDeduped(polls: nat -> Poll)
    ensures Deduped(Polled(polls, 0)) == [] && [] + [100] == [100]
  {
  }

  lemma ScanPlusHundred()
    ensures ScanInt("+100") == Some(100) && ' ' !in "+100" && 'P' !in "+100"
  {
    var t := "+100";
    SpanIs(t, true, 0);
    assert t[0..] == t && t[1..] == "100";
    assert "100" + "" == "100";
    SpanOfHundred("");
    assert "100"[..3] == "100";
    ValueAtLeast("100");
  }

  lemma ScanMinusOne()
    ensures ScanInt("-1") == Some(-1) && ' ' !in "-1" && 'P' !in "-1"
  {
    var t := "-1";
    SpanIs(t, true, 0);
    assert t[0..] == t && t[1..] == "1";
    assert ['1'] + "" == "1";
    SpanCons('1', "");
    assert "1"[..1] == "1" && "1"[..0] == "";
    assert Value("") == 0 && Value("1") == 1;
  }

  /** Of the text `d` in place of 100, only what `Sscanf` makes of it is read, and nothing completes. */
  lemma DoneWith(d: string)
    requires ' ' !in d && 'P' !in d && d != [] && d[0] != '1'
    ensures !Hundred(ReplyWith(DONE_PHASE, d))
    ensures PctOf(ReplyWith(DONE_PHASE, d)) == if ScanInt(d).Some? then ScanInt(d).value else 0
  {
    hide Hundred, PctOf, ReplyWith, ScanInt, Behind, Contains;
    DonePhase();
    HundredWith(DONE_PHASE, d);
    ReadsText(DONE_PHASE, d);
    assert (d + " " + Behind(DONE_PHASE))[0] == d[0] && "100"[0] == '1';
  }

  lemma DedupedOne(x: int)
    requires x != -1
    ensures Deduped([x]) == [x]
  {
    assert [x][..0] == [];
  }

  /** Two polls: one with a signed 100, one with the plain one; the callback sees 100 twice. */
  lemma TraceCanRepeat(polls: nat -> Poll)
    requires polls(0) == Poll(0, Some(ReplyWith(DONE_PHASE, "+100")), 0)
    requires polls(1).reply == Some(PhaseReply(DONE_PHASE))
    ensures Ends(polls, 5, Deadline(60), 2, Done)
    ensures Pcts(CallbackTrace(polls, 2, Done)) == [100, 100]
  {
    hide PctOf, Hundred, CallbackTrace, Deduped, ReplyWith, ScanInt, Contains;
    ScanPlusHundred();
    DoneWith("+100");
    DonePhase();
    HundredExactly(DONE_PHASE);
    assert StartOf(polls, 5, 0) == 0 && StartOf(polls, 5, 1) == 5 * SECOND;
    TraceOfDone(polls, 2);
    assert TextOf(polls(0)) == ReplyWith(DONE_PHASE, "+100");
    assert Polled(polls, 1) == [PctOf(TextOf(polls(0)))] == [100];
    DedupedOne(100);
    assert [100] + [100] == [100, 100];
  }

  /** One poll with -1, and no time for another: the callback sees nothing. */
  lemma TraceCanMissFirst(polls: nat -> Poll)
    requires polls(0) == Poll(0, Some(ReplyWith(DONE_PHASE, "-1")), 0)
    ensures Ends(polls, 5, Deadline(1), 1, TimedOut)
    ensures CallbackTrace(polls, 1, TimedOut) == [] && Squeezed(Polled(polls, 1)) == [-1]
  {
    hide PctOf, Hundred, ReplyWith, ScanInt, Contains;
    ScanMinusOne();
    DoneWith("-1");
    assert StartOf(polls, 5, 0) == 0 && StartOf(polls, 5, 1) == 5 * SECOND;
    assert TextOf(polls(0)) == ReplyWith(DONE_PHASE, "-1");
    assert Reports(polls, 0) == [] && Reports(polls, 1) == [];
  }

  /** All these replies can be received: a phase on one line, with any text of one line for its progress. */
  lemma RepliesAreReceived(p: Phase, d: string, tail: string)
    requires OneLine(p) && '\n' !in d
    ensures R.Frame(R.Crlf(R.ReplyLines(AsReply(p, d))) + tail)
         == R.Framed(ReplyWith(p, d), tail, true)
  {
    hide AsReply, ReplyWith, R.Frame, R.Quiet, R.ReplyOk, R.ReplyLines, OneLine;
    ReplyIsQuiet(p, d);
    ReplyText(p, d);
    R.OneReply(AsReply(p, d), tail);
  }
}
