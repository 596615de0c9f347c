/**
 The two bootstrap polling loops. `polls(i)` is what the i-th GETINFO brings: the time it takes, the
 reply or an error, and how much longer than asked the following sleep lasts. Times are nanoseconds
 since the call.
 */
module TorBootstrap {
  import opened Basics
  import opened Text

  datatype Poll = Poll(took: nat, reply: Option<string>, overslept: nat)

  datatype Outcome = Done | Failed | TimedOut

  datatype Progress = Progress(pct: int, tag: string, summary: string)

  // --------------------------------------------------------- reading one reply

  function DigitSpan(s: string): (n: nat)
    ensures n <= |s| && AllDigits(s[..n])
  {
    if s == [] || !IsDigit(s[0]) then 0
    else
      var n := 1 + DigitSpan(s[1..]);
      assert s[..n] == [s[0]] + s[1..][..n - 1];
      n
  }

  /** `fmt.Sscanf(s, "%d", &n)`: blanks, a sign, digits, then anything; `None` leaves n alone. */
  function ScanInt(s: string): Option<int> {
    var blanks := Span(s, true);
    var t := s[blanks..];
    var body := if t != [] && (t[0] == '+' || t[0] == '-') then t[1..] else t;
    var n := DigitSpan(body);
    if '\n' in s[..blanks] || n == 0 then None
    else
      var v: int := if t[0] == '-' then 0 - Value(body[..n]) else Value(body[..n]);
      if MIN_INT <= v <= MAX_INT then Some(v) else None
  }

  predicate Hundred(reply: string) {
    Contains(reply, "PROGRESS=100")
  }

  function PctOf(reply: string): int {
    var i := Index(reply, "PROGRESS=");
    if i == -1 then 0
    else
      var s := reply[i + 9..];
      var sp := Index(s, " ");
      if sp == -1 || ScanInt(s[..sp]).None? then 0 else ScanInt(s[..sp]).value
  }

  function TagOf(reply: string): string {
    var i := Index(reply, "TAG=");
    if i == -1 then []
    else
      var s := reply[i + 4..];
      var sp := Index(s, " ");
      if sp != -1 then s[..sp] else TrimSpace(s)
  }

  function SummaryOf(reply: string): string {
    var i := Index(reply, "SUMMARY=\"");
    if i == -1 then []
    else
      var s := reply[i + 9..];
      var eq := Index(s, "\"");
      if eq == -1 then [] else s[..eq]
  }

  function Reading(reply: string): Progress {
    Progress(PctOf(reply), TagOf(reply), SummaryOf(reply))
  }

  // ------------------------------------------------------------- a whole wait

  /** When the i-th poll starts, sleeping `pause` seconds after each one before it. */
  function StartOf(polls: nat -> Poll, pause: nat, i: nat): nat {
    if i == 0 then 0
    else StartOf(polls, pause, i - 1) + polls(i - 1).took + pause * SECOND + polls(i - 1).overslept
  }

  /** The reply, or nothing when the command failed. */
  function TextOf(poll: Poll): string {
    if poll.reply.Some? then poll.reply.value else []
  }

  predicate Goes(poll: Poll) {
    poll.reply.Some? && !Hundred(poll.reply.value)
  }

  function Deadline(timeoutSecs: int): int {
    Wrap64(timeoutSecs * SECOND)
  }

  /** The first `n` polls all start before the deadline and none of them ends the wait. */
  ghost predicate GoesOn(polls: nat -> Poll, pause: nat, deadline: int, n: nat) {
    && (forall i: nat | i < n :: StartOf(polls, pause, i) < deadline)
    && (forall i: nat | i < n :: Goes(polls(i)))
  }

  /** The wait makes exactly `n` polls, all before the deadline, and ends with `outcome`. */
  ghost predicate Ends(polls: nat -> Poll, pause: nat, deadline: int, n: nat, outcome: Outcome) {
    match outcome
    case TimedOut => GoesOn(polls, pause, deadline, n) && StartOf(polls, pause, n) >= deadline
    case Done =>
      && n > 0 && GoesOn(polls, pause, deadline, n - 1) && StartOf(polls, pause, n - 1) < deadline
      && polls(n - 1).reply.Some? && Hundred(polls(n - 1).reply.value)
    case Failed =>
      && n > 0 && GoesOn(polls, pause, deadline, n - 1) && StartOf(polls, pause, n - 1) < deadline
      && polls(n - 1).reply.None?
  }

  /** What the first `n` polls report when each change of percentage is reported. */
  function Reports(polls: nat -> Poll, n: nat): seq<Progress>
  {
    if n == 0 then []
    else
      var now := Reading(TextOf(polls(n - 1)));
      var last := if n == 1 then -1 else PctOf(TextOf(polls(n - 2)));
      Reports(polls, n - 1) + if now.pct != last then [now] else []
  }

  lemma OnePollMore(polls: nat -> Poll, pause: nat, deadline: int, n: nat)
    requires GoesOn(polls, pause, deadline, n) && StartOf(polls, pause, n) < deadline && Goes(polls(n))
    ensures GoesOn(polls, pause, deadline, n + 1)
    ensures StartOf(polls, pause, n + 1)
         == StartOf(polls, pause, n) + polls(n).took + pause * SECOND + polls(n).overslept
  {
  }

  lemma NoPollYet(polls: nat -> Poll, pause: nat, deadline: int)
    ensures GoesOn(polls, pause, deadline, 0) && StartOf(polls, pause, 0) == 0
  {
  }

  /** How many of `n` polls did not end the wait. */
  function Going(n: nat, outcome: Outcome): nat
    requires outcome.TimedOut? || n > 0
  {
    if outcome.TimedOut? then n else n - 1
  }

  function CallbackTrace(polls: nat -> Poll, n: nat, outcome: Outcome): seq<Progress>
    requires outcome.TimedOut? || n > 0
  {
    Reports(polls, Going(n, outcome)) + if outcome.Done? then [Progress(100, "done", "Done")] else []
  }

  method WaitForBootstrapWithCallback(timeoutSecs: int, polls: nat -> Poll, hasCallback: bool)
    returns (outcome: Outcome, calls: seq<Progress>, n: nat)
    ensures Ends(polls, 5, Deadline(timeoutSecs), n, outcome)
    ensures calls == if hasCallback then CallbackTrace(polls, n, outcome) else []
  {
    hide Hundred, PctOf, TagOf, SummaryOf, GoesOn, StartOf, Deadline;
    var deadline := Deadline(timeoutSecs);
    var now := 0;
    var lastPct := -1;
    calls := [];
    n := 0;
    NoPollYet(polls, 5, deadline);
    while now < deadline
      invariant now == StartOf(polls, 5, n)
      invariant GoesOn(polls, 5, deadline, n)
      invariant calls == if hasCallback then Reports(polls, n) else []
      invariant lastPct == if n == 0 || !hasCallback then -1 else PctOf(TextOf(polls(n - 1)))
      decreases deadline - now
    {
      var poll := polls(n);
      n := n + 1;
      if poll.reply.None? {
        return Failed, calls, n;
      }
      var reply := poll.reply.value;
      if Hundred(reply) {
        if hasCallback {
          calls := calls + [Progress(100, "done", "Done")];
        }
        return Done, calls, n;
      }
      var pct, tag, summary := PctOf(reply), TagOf(reply), SummaryOf(reply);
      if pct != lastPct && hasCallback {
        calls := calls + [Progress(pct, tag, summary)];
        lastPct := pct;
      }
      OnePollMore(polls, 5, deadline, n - 1);
      now := now + poll.took + 5 * SECOND + poll.overslept;
    }
    return TimedOut, calls, n;
  }

  /** The text after "PROGRESS=", up to a blank; `None` when there is no progress in the reply. */
  function ProgressText(reply: string): Option<string> {
    var i := Index(reply, "PROGRESS=");
    if i == -1 then None
    else
      var s := reply[i + 9..];
      var sp := Index(s, " ");
      Some(if sp != -1 then s[..sp] else s)
  }

  /** The last progress text among the first `n` polls, initially empty. */
  function LastText(polls: nat -> Poll, n: nat): string
  {
    if n == 0 then []
    else
      match ProgressText(TextOf(polls(n - 1)))
      case Some(text) => text
      case None => LastText(polls, n - 1)
  }

  function Logged(polls: nat -> Poll, n: nat): seq<string>
  {
    if n == 0 then []
    else
      match ProgressText(TextOf(polls(n - 1)))
      case None => Logged(polls, n - 1)
      case Some(text) => Logged(polls, n - 1) + if text != LastText(polls, n - 1) then [text] else []
  }

  method WaitForBootstrap(timeoutSecs: int, polls: nat -> Poll) returns (outcome: Outcome, logged: seq<string>, n: nat)
    ensures Ends(polls, 10, Deadline(timeoutSecs), n, outcome)
    ensures logged == Logged(polls, Going(n, outcome))
  {
    hide Hundred, ProgressText, GoesOn, StartOf, Deadline;
    var deadline := Deadline(timeoutSecs);
    var now := 0;
    var lastProgress := "";
    logged := [];
    n := 0;
    NoPollYet(polls, 10, deadline);
    while now < deadline
      invariant now == StartOf(polls, 10, n)
      invariant GoesOn(polls, 10, deadline, n)
      invariant logged == Logged(polls, n)
      invariant lastProgress == LastText(polls, n)
      decreases deadline - now
    {
      var poll := polls(n);
      n := n + 1;
      if poll.reply.None? {
        return Failed, logged, n;
      }
      var reply := poll.reply.value;
      if Hundred(reply) {
        return Done, logged, n;
      }
      var progress := ProgressText(reply);
      if progress.Some? && progress.value != lastProgress {
        logged := logged + [progress.value];
        lastProgress := progress.value;
      }
      OnePollMore(polls, 10, deadline, n - 1);
      now := now + poll.took + 10 * SECOND + poll.overslept;
    }
    return TimedOut, logged, n;
  }

  // ------------------------------------------------- what the specification means

  /** What passes between the starts of two polls: the poll itself, the pause in full, and any oversleeping. */
  lemma StartsAdd(polls: nat -> Poll, pause: nat, i: nat)
    ensures StartOf(polls, pause, 0) == 0
    ensures StartOf(polls, pause, i + 1) - StartOf(polls, pause, i)
         == polls(i).took + pause * 1000000000 + polls(i).overslept
  {
  }

  lemma {:induction false} StartsAreApart(polls: nat -> Poll, pause: nat, i: nat)
    ensures StartOf(polls, pause, i) >= i * (pause * SECOND)
  {
    if i > 0 {
      StartsAreApart(polls, pause, i - 1);
      assert i * (pause * SECOND) == (i - 1) * (pause * SECOND) + pause * SECOND;
    }
  }

  lemma {:induction false} StartsGrow(polls: nat -> Poll, pause: nat, i: nat, j: nat)
    requires i <= j
    ensures StartOf(polls, pause, i) <= StartOf(polls, pause, j)
    decreases j
  {
    if i < j {
      StartsGrow(polls, pause, i, j - 1);
    }
  }

  /** Success iff some poll before the deadline reports 100 and every poll before it goes on. */
  lemma SuccessExactly(polls: nat -> Poll, pause: nat, deadline: int, n: nat, outcome: Outcome)
    requires Ends(polls, pause, deadline, n, outcome)
    ensures outcome == Done <==> exists i: nat :: ReportsHundred(polls, pause, deadline, i)
  {
    if outcome == Done {
      assert ReportsHundred(polls, pause, deadline, n - 1);
    }
    if i: nat :| ReportsHundred(polls, pause, deadline, i) {
      if n <= i {
        StartsGrow(polls, pause, n, i);
      }
    }
  }

  ghost predicate ReportsHundred(polls: nat -> Poll, pause: nat, deadline: int, i: nat) {
    && StartOf(polls, pause, i) < deadline
    && polls(i).reply.Some? && Hundred(polls(i).reply.value)
    && forall j: nat | j < i :: Goes(polls(j))
  }

  /** Failure iff some poll before the deadline brings no reply and every poll before it goes on. */
  lemma {:induction false} FailureExactly(
    polls: nat -> Poll, pause: nat, deadline: int, n: nat, outcome: Outcome)
    requires Ends(polls, pause, deadline, n, outcome)
    ensures outcome == Failed <==> exists i: nat :: BringsNothing(polls, pause, deadline, i)
    ensures forall i: nat | BringsNothing(polls, pause, deadline, i) :: n == i + 1
  {
    hide StartOf;
    if outcome == Failed {
      assert BringsNothing(polls, pause, deadline, n - 1);
    }
    forall i: nat | BringsNothing(polls, pause, deadline, i)
      ensures outcome == Failed && n == i + 1
    {
      if n <= i {
        StartsGrow(polls, pause, n, i);
      }
    }
  }

  ghost predicate BringsNothing(polls: nat -> Poll, pause: nat, deadline: int, i: nat) {
    && StartOf(polls, pause, i) < deadline
    && polls(i).reply == None
    && forall j: nat | j < i :: polls(j).reply.Some? && !Contains(polls(j).reply.value, "PROGRESS=100")
  }

  /** Which polls are reported: each whose percentage differs from that of the one before it. */
  predicate Changes(polls: nat -> Poll, k: nat) {
    PctOf(TextOf(polls(k))) != if k == 0 then -1 else PctOf(TextOf(polls(k - 1)))
  }

  /** `ks` are the reported ones of the first `n` polls; each report is percentage, tag and summary of its poll. */
  ghost predicate ReportedPolls(polls: nat -> Poll, n: nat, ks: seq<nat>, reports: seq<Progress>) {
    && |ks| == |reports|
    && (forall i | 0 <= i < |ks| :: ks[i] < n)
    && (forall i, j | 0 <= i < j < |ks| :: ks[i] < ks[j])
    && (forall k: nat | k < n :: k in ks <==> Changes(polls, k))
    && (forall i | 0 <= i < |ks| ::
          && reports[i].pct == PctOf(TextOf(polls(ks[i])))
          && reports[i].tag == TagOf(TextOf(polls(ks[i])))
          && reports[i].summary == SummaryOf(TextOf(polls(ks[i]))))
  }

  lemma {:induction false} ReportsAreReported(polls: nat -> Poll, n: nat) returns (ks: seq<nat>)
    ensures ReportedPolls(polls, n, ks, Reports(polls, n))
  {
    hide PctOf, TagOf, SummaryOf, TextOf;
    ks := [];
    if n > 0 {
      ks := ReportsAreReported(polls, n - 1);
      assert n - 1 !in ks;
      if Changes(polls, n - 1) {
        ks := ks + [n - 1];
      }
    }
  }

  /**
   On any replies the callback sees percentage, tag and summary of exactly the polls whose percentage differs
   from that of the poll before, in order, and after a success (100, "done", "Done").
   */
  lemma {:induction false} TraceEntries(polls: nat -> Poll, n: nat, outcome: Outcome) returns (ks: seq<nat>)
    requires outcome.TimedOut? || n > 0
    ensures var m, trace := if outcome.TimedOut? then n else n - 1, CallbackTrace(polls, n, outcome);
            && |trace| == |ks| + (if outcome == Done then 1 else 0)
            && ReportedPolls(polls, m, ks, trace[..|ks|])
            && (outcome == Done ==>
                  trace[|ks|].pct == 100 && trace[|ks|].tag == "done" && trace[|ks|].summary == "Done")
  {
    hide ReportedPolls, Reports;
    ks := ReportsAreReported(polls, Going(n, outcome));
    ReportedLength(polls, Going(n, outcome), ks, Reports(polls, Going(n, outcome)));
    assert CallbackTrace(polls, n, outcome)[..|ks|] == Reports(polls, Going(n, outcome));
  }

  lemma ReportedLength(polls: nat -> Poll, n: nat, ks: seq<nat>, reports: seq<Progress>)
    requires ReportedPolls(polls, n, ks, reports)
    ensures |ks| == |reports|
  {
  }

  /**
   At most ceil(deadline / pause) polls are made, whatever the replies and delays. That is at most
   ceil(timeout / pause) iff no timeout below zero wraps around to a deadline ahead.
   */
  lemma PollsBounded(polls: nat -> Poll, pause: nat, timeoutSecs: int, n: nat, outcome: Outcome)
    requires Ends(polls, pause, Deadline(timeoutSecs), n, outcome) && pause > 0
    ensures n <= CeilDiv(Deadline(timeoutSecs), pause * SECOND)
    ensures n <= CeilDiv(timeoutSecs, pause) <==> timeoutSecs > 0 || Deadline(timeoutSecs) <= 0
  {
    PollsBefore(polls, pause, Deadline(timeoutSecs), n, outcome);
    if n > 0 && timeoutSecs > 0 {
      StartsAreApart(polls, pause, n - 1);
      Regroup(n - 1, pause);
      DivAtLeast(timeoutSecs + pause - 1, pause, n);
    }
  }

  lemma PollsBefore(polls: nat -> Poll, pause: nat, deadline: int, n: nat, outcome: Outcome)
    requires Ends(polls, pause, deadline, n, outcome) && pause > 0
    ensures n <= CeilDiv(deadline, pause * SECOND) && (n == 0 <==> deadline <= 0)
    ensures n > 0 ==> StartOf(polls, pause, n - 1) < deadline
  {
    if n > 0 {
      StartsAreApart(polls, pause, n - 1);
      var unit := pause * SECOND;
      assert (n - 1) * unit + unit == n * unit;
      DivAtLeast(deadline + unit - 1, unit, n);
    }
  }

  /** A negative timeout can wrap around to a deadline far ahead, and every such wait makes polls. */
  lemma TimeoutCanWrap(polls: nat -> Poll, pause: nat, n: nat, outcome: Outcome)
    requires Ends(polls, pause, Deadline(-9223372037), n, outcome) && pause > 0
    ensures Deadline(-9223372037) > 9223372000 * SECOND
    ensures n > CeilDiv(-9223372037, pause)
  {
    hide Ends;
    PollsBounded(polls, pause, -9223372037, n, outcome);
  }

  /** At least 0 and a division rounded up. */
  function CeilDiv(x: int, d: nat): nat
    requires d > 0
  {
    if x <= 0 then 0 else (x + d - 1) / d
  }

  lemma Regroup(k: nat, pause: nat)
    ensures k * (pause * SECOND) == (k * pause) * SECOND
    ensures (k + 1) * pause == k * pause + pause
  {
  }

  lemma DivAtLeast(a: int, d: int, q: nat)
    requires d > 0 && q * d <= a
    ensures q <= a / d
  {
    var k := a / d;
    assert a < (k + 1) * d;
    MulMonotone(k + 1, q, d);
  }

  lemma MulMonotone(x: int, y: int, d: int)
    requires d > 0
    ensures x <= y ==> x * d <= y * d
  {
  }

  function Pcts(ps: seq<Progress>): seq<int> {
    seq(|ps|, i requires 0 <= i < |ps| => ps[i].pct)
  }

  /** The percentages of the first `n` polls. */
  function Polled(polls: nat -> Poll, n: nat): seq<int>
  {
    seq(n, i requires 0 <= i < n => PctOf(TextOf(polls(i))))
  }

  /** Consecutive repeats removed, starting from -1. */
  function Deduped(xs: seq<int>): seq<int> {
    if xs == [] then []
    else
      var n := |xs| - 1;
      Deduped(xs[..n]) + if xs[n] != (if n == 0 then -1 else xs[n - 1]) then [xs[n]] else []
  }

  /** The callback sees the polled percentages with consecutive repeats removed. */
  lemma {:induction false} ReportsAreDeduped(polls: nat -> Poll, n: nat)
    ensures Pcts(Reports(polls, n)) == Deduped(Polled(polls, n))
  {
    hide PctOf, TagOf, SummaryOf, Goes;
    if n > 0 {
      ReportsAreDeduped(polls, n - 1);
      assert Polled(polls, n)[..n - 1] == Polled(polls, n - 1);
    }
  }

  predicate NonDecreasing(xs: seq<int>) {
    forall i, j | 0 <= i < j < |xs| :: xs[i] <= xs[j]
  }

  predicate StrictlyIncreasing(xs: seq<int>) {
    forall i, j | 0 <= i < j < |xs| :: xs[i] < xs[j]
  }

  lemma IncreasingAppend(xs: seq<int>, x: int)
    requires StrictlyIncreasing(xs) && forall y | y in xs :: y < x
    ensures StrictlyIncreasing(xs + [x])
  {
    assert forall i | 0 <= i < |xs| :: xs[i] in xs;
  }

  lemma NonDecreasingLast(xs: seq<int>, n: nat)
    requires NonDecreasing(xs) && n + 1 == |xs|
    ensures NonDecreasing(xs[..n]) && (n > 0 ==> xs[n - 1] <= xs[n])
  {
  }

  lemma {:induction false} DedupedIncreases(xs: seq<int>)
    requires NonDecreasing(xs)
    ensures StrictlyIncreasing(Deduped(xs))
    ensures forall x | x in Deduped(xs) :: xs != [] && x <= xs[|xs| - 1]
  {
    if xs != [] {
      var n := |xs| - 1;
      NonDecreasingLast(xs, n);
      hide StrictlyIncreasing, NonDecreasing;
      DedupedIncreases(xs[..n]);
      var d := Deduped(xs[..n]);
      if xs[n] != (if n == 0 then -1 else xs[n - 1]) {
        IncreasingAppend(d, xs[n]);
      } else {
        assert d + [] == d;
      }
    }
  }
}
