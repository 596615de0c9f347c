/**
 The resolver as it runs: any number of query handlers, each in its own goroutine, share the cache
 with the purge loop while the clock advances. A step is one stretch of code between two points
 where another goroutine can run; `sent` records the replies.
 */
module DnsServer {
  import opened Basics
  import opened DnsWire
  import opened DnsCache

  // ------------------------------------------------------ answers of the DoH server

  datatype DohAnswer = DohAnswer(rtype: int, ttl: int, data: Address)

  /** What `resolveDoH` gets back: no usable JSON body, or a decoded one. */
  datatype DohBody = NoBody | Body(status: int, answers: seq<DohAnswer>)

  datatype Resolved = Failed | Answers(addrs: seq<Address>, ttl: int)

  predicate IsAddress(a: DohAnswer) {
    a.rtype == 1 || a.rtype == 28
  }

  function Addresses(answers: seq<DohAnswer>): seq<Address> {
    if answers == [] then []
    else
      var before, last := answers[..|answers| - 1], answers[|answers| - 1];
      Addresses(before) + if IsAddress(last) then [last.data] else []
  }

  /** The last positive TTL of an address record, else five minutes. */
  function Ttl(answers: seq<DohAnswer>): int {
    if answers == [] then 300
    else
      var before, last := answers[..|answers| - 1], answers[|answers| - 1];
      if IsAddress(last) && last.ttl > 0 then last.ttl else Ttl(before)
  }

  function DohResult(body: DohBody): Resolved {
    if body.NoBody? || body.status != 0 || Addresses(body.answers) == [] then Failed
    else Answers(Addresses(body.answers), Ttl(body.answers))
  }

  method ParseDoHResponse(body: DohBody) returns (r: Resolved)
    ensures r == DohResult(body)
  {
    if body.NoBody? {
      return Failed;
    }
    if body.status != 0 {
      return Failed;
    }
    var addrs: seq<Address> := [];
    var ttl := 300;
    for i := 0 to |body.answers|
      invariant addrs == Addresses(body.answers[..i])
      invariant ttl == Ttl(body.answers[..i])
    {
      var a := body.answers[i];
      assert body.answers[..i + 1][..i] == body.answers[..i];
      if a.rtype == 1 || a.rtype == 28 {
        addrs := addrs + [a.data];
        if a.ttl > 0 {
          ttl := a.ttl;
        }
      }
    }
    assert body.answers[..|body.answers|] == body.answers;
    if |addrs| == 0 {
      return Failed;
    }
    return Answers(addrs, ttl);
  }

  /** The TTL chosen is positive: that of the last address record with a positive one, or 300. */
  lemma {:induction false} TtlIsLastPositive(answers: seq<DohAnswer>)
    ensures Ttl(answers) > 0
    ensures (exists i | 0 <= i < |answers| :: LastPositive(answers, i) && Ttl(answers) == answers[i].ttl)
            || (Ttl(answers) == 300 && forall i | 0 <= i < |answers| :: IsAddress(answers[i]) ==> answers[i].ttl <= 0)
  {
    if answers != [] {
      var n := |answers| - 1;
      var before := answers[..n];
      TtlIsLastPositive(before);
      if IsAddress(answers[n]) && answers[n].ttl > 0 {
        assert LastPositive(answers, n);
      } else if i :| 0 <= i < |before| && LastPositive(before, i) && Ttl(before) == before[i].ttl {
        assert LastPositive(answers, i);
      }
    }
  }

  /** `addrs` are the data of the answers at the places `from`, in order, which are all the address records. */
  ghost predicate InOrder(answers: seq<DohAnswer>, addrs: seq<Address>, from: seq<nat>) {
    && |from| == |addrs|
    && (forall i | 0 <= i < |from| :: from[i] < |answers| && addrs[i] == answers[from[i]].data)
    && (forall i, j | 0 <= i < j < |from| :: from[i] < from[j])
    && (forall k: nat | k < |answers| :: IsAddress(answers[k]) <==> k in from)
  }

  lemma InOrderStep(before: seq<DohAnswer>, last: DohAnswer, addrs: seq<Address>, from: seq<nat>)
    requires InOrder(before, addrs, from)
    ensures IsAddress(last) ==> InOrder(before + [last], addrs + [last.data], from + [|before|])
    ensures !IsAddress(last) ==> InOrder(before + [last], addrs, from)
  {
    hide IsAddress;
    assert |before| !in from;
    assert forall k: nat | k < |before| :: (before + [last])[k] == before[k];
  }

  lemma {:induction false} AddressesInOrder(answers: seq<DohAnswer>) returns (from: seq<nat>)
    ensures InOrder(answers, Addresses(answers), from)
  {
    hide IsAddress;
    if answers == [] {
      from := [];
    } else {
      var n := |answers| - 1;
      from := AddressesInOrder(answers[..n]);
      hide InOrder;
      InOrderStep(answers[..n], answers[n], Addresses(answers[..n]), from);
      assert answers[..n] + [answers[n]] == answers;
      if IsAddress(answers[n]) {
        from := from + [n];
      }
    }
  }

  ghost predicate LastPositive(answers: seq<DohAnswer>, i: nat)
    requires i < |answers|
  {
    && IsAddress(answers[i]) && answers[i].ttl > 0
    && forall j | i < j < |answers| :: IsAddress(answers[j]) ==> answers[j].ttl <= 0
  }

  /** `from` are the places of the A and AAAA records, in order. */
  ghost predicate AddressPlaces(answers: seq<DohAnswer>, from: seq<nat>) {
    && (forall i | 0 <= i < |from| :: from[i] < |answers|)
    && (forall i, j | 0 <= i < j < |from| :: from[i] < from[j])
    && (forall k: nat | k < |answers| :: k in from <==> answers[k].rtype == 1 || answers[k].rtype == 28)
  }

  /** The TTL of the last of them with a positive one, else 300. */
  ghost predicate LastPositiveTtl(answers: seq<DohAnswer>, from: seq<nat>, ttl: int)
    requires AddressPlaces(answers, from)
  {
    || (ttl == 300 && forall i | 0 <= i < |from| :: answers[from[i]].ttl <= 0)
    || (exists i | 0 <= i < |from| ::
          && ttl == answers[from[i]].ttl > 0
          && forall j | i < j < |from| :: answers[from[j]].ttl <= 0)
  }

  /** From the literal record types alone: when a resolve succeeds, and with which addresses and TTL. */
  lemma {:induction false} DohResultExactly(body: DohBody) returns (from: seq<nat>)
    ensures body.Body? ==> AddressPlaces(body.answers, from)
    ensures DohResult(body).Answers? <==> body.Body? && body.status == 0 && from != []
    ensures DohResult(body).Answers? ==>
              && |DohResult(body).addrs| == |from|
              && (forall i | 0 <= i < |from| :: DohResult(body).addrs[i] == body.answers[from[i]].data)
              && LastPositiveTtl(body.answers, from, DohResult(body).ttl)
  {
    from := [];
    if body.Body? {
      from := AddressesInOrder(body.answers);
      TtlIsLastPositive(body.answers);
      assert AddressPlaces(body.answers, from);
      TtlOfPlaces(body.answers, from);
      hide Ttl, Addresses, LastPositiveTtl;
    }
  }

  lemma TtlOfPlaces(answers: seq<DohAnswer>, from: seq<nat>)
    requires AddressPlaces(answers, from)
    ensures LastPositiveTtl(answers, from, Ttl(answers))
  {
    TtlIsLastPositive(answers);
    hide Ttl;
    assert forall i | 0 <= i < |from| :: from[i] in from && IsAddress(answers[from[i]]);
    if k :| 0 <= k < |answers| && LastPositive(answers, k) && Ttl(answers) == answers[k].ttl {
      assert k in from;
      var i :| 0 <= i < |from| && from[i] == k;
    }
  }

  // ------------------------------------------------------------------ the machine

  /** Where a handler stands in `handleQuery`. */
  datatype Phase =
    | Arrived
    | LookingUp(q: Question)
    | Resolving(q: Question)
    | Storing(q: Question, addrs: seq<Address>, ttl: int)
    | AnsweringHit(q: Question, addrs: seq<Address>, lookedUp: int)
    | AnsweringFresh(q: Question, addrs: seq<Address>, ttl: int)
    | Failing(q: Question)
    | Finished

  datatype Handler = Handler(packet: Bytes, phase: Phase)

  /** What a successful resolve returned, and for which question. */
  datatype Resolution = Resolution(q: Question, addrs: seq<Address>, ttl: int)

  /** `origin` is the phase of the handler that wrote the reply. */
  datatype Reply = Reply(handler: nat, bytes: Bytes, origin: Phase)

  datatype State = State(clock: int, cache: Entries, handlers: map<nat, Handler>, sent: seq<Reply>)

  datatype Step =
    | Arrive(h: nat, packet: Bytes)
    | Tick(elapsed: nat)
    | Purge
    | Parse(h: nat)
    | Get(h: nat)
    | Resolve(h: nat, body: DohBody)
    | Put(h: nat)
    | Write(h: nat)

  predicate Enabled(s: State, step: Step) {
    match step
    case Arrive(h, _) => h !in s.handlers
    case Tick(_) => true
    case Purge => true
    case Parse(h) => h in s.handlers && s.handlers[h].phase.Arrived?
    case Get(h) => h in s.handlers && s.handlers[h].phase.LookingUp?
    case Resolve(h, _) => h in s.handlers && s.handlers[h].phase.Resolving?
    case Put(h) => h in s.handlers && s.handlers[h].phase.Storing?
    case Write(h) =>
      && h in s.handlers
      && Answering(s.handlers[h].phase)
      && |s.handlers[h].packet| >= 12
  }

  function MoveTo(s: State, h: nat, phase: Phase): State
    requires h in s.handlers
  {
    s.(handlers := s.handlers[h := s.handlers[h].(phase := phase)])
  }

  predicate Answering(phase: Phase) {
    phase.AnsweringHit? || phase.AnsweringFresh? || phase.Failing?
  }

  function ReplyBytes(packet: Bytes, phase: Phase): Bytes
    requires Answering(phase) && |packet| >= 12
  {
    if phase.Failing? then ServFail(packet) else Response(packet, phase.addrs)
  }

  function Next(s: State, step: Step): State
    requires Enabled(s, step)
  {
    match step
    case Arrive(h, packet) => s.(handlers := s.handlers[h := Handler(packet, Arrived)])
    case Tick(elapsed) => s.(clock := s.clock + elapsed)
    case Purge => s.(cache := Purged(s.cache, s.clock))
    case Parse(h) =>
      (match QuestionOf(s.handlers[h].packet)
       case Rejected(_) => MoveTo(s, h, Finished)
       case Parsed(q) => MoveTo(s, h, LookingUp(q)))
    case Get(h) =>
      var q := s.handlers[h].phase.q;
      (match Lookup(s.cache, CacheKey(q), s.clock)
       case Some(addrs) => MoveTo(s, h, AnsweringHit(q, addrs, s.clock))
       case None => MoveTo(s, h, Resolving(q)))
    case Resolve(h, body) =>
      var q := s.handlers[h].phase.q;
      (match DohResult(body)
       case Failed => MoveTo(s, h, Failing(q))
       case Answers(addrs, ttl) => MoveTo(s, h, Storing(q, addrs, ttl)))
    case Put(h) =>
      var Storing(q, addrs, ttl) := s.handlers[h].phase;
      MoveTo(s, h, AnsweringFresh(q, addrs, ttl)).(
      cache := Store(s.cache, CacheKey(q), addrs, TtlNanos(ttl), s.clock))
    case Write(h) =>
      var Handler(packet, phase) := s.handlers[h];
      MoveTo(s, h, Finished).(sent := s.sent + [Reply(h, ReplyBytes(packet, phase), phase)])
  }

  const INITIAL := State(0, map[], map[], [])

  /** The state an interleaving leads to; `None` when some step of it was not enabled. */
  function Reached(steps: seq<Step>): Option<State> {
    if steps == [] then Some(INITIAL)
    else
      var before, last := Reached(steps[..|steps| - 1]), steps[|steps| - 1];
      if before.None? || !Enabled(before.value, last) then None else Some(Next(before.value, last))
  }

  // --------------------------------------------------------------- what every run keeps

  function RepliesTo(sent: seq<Reply>, h: nat): nat {
    if sent == [] then 0
    else RepliesTo(sent[..|sent| - 1], h) + if sent[|sent| - 1].handler == h then 1 else 0
  }

  ghost predicate HandlerOk(s: State, h: nat)
    requires h in s.handlers
  {
    var Handler(packet, phase) := s.handlers[h];
    var replies := RepliesTo(s.sent, h);
    && (phase.Arrived? ==> replies == 0)
    && (phase.Finished? ==> replies == if QuestionOf(packet).Parsed? then 1 else 0)
    && (!phase.Arrived? && !phase.Finished? ==> replies == 0 && QuestionOf(packet) == Parsed(phase.q))
  }

  /** A reply answers its own packet: the ID, the question, and the bytes its origin calls for. */
  ghost predicate AnswersPacket(r: Reply, packet: Bytes) {
    && Answering(r.origin) && |packet| >= 12
    && QuestionOf(r.bytes) == QuestionOf(packet) == Parsed(r.origin.q)
    && r.bytes[..2] == packet[..2]
    && r.bytes == ReplyBytes(packet, r.origin)
  }

  ghost predicate ReplyOk(s: State, r: Reply) {
    r.handler in s.handlers && AnswersPacket(r, s.handlers[r.handler].packet)
  }

  ghost predicate Inv(s: State) {
    && (forall h | h in s.handlers :: HandlerOk(s, h))
    && (forall h: nat | h !in s.handlers :: RepliesTo(s.sent, h) == 0)
    && (forall r | r in s.sent :: ReplyOk(s, r))
  }

  lemma {:induction false} RepliesAppend(sent: seq<Reply>, r: Reply, h: nat)
    ensures RepliesTo(sent + [r], h) == RepliesTo(sent, h) + if r.handler == h then 1 else 0
  {
    assert (sent + [r])[..|sent|] == sent;
  }

  /** The handler a step is about. */
  lemma OwnHandler(s: State, step: Step)
    requires Enabled(s, step) && Inv(s) && !step.Arrive? && !step.Tick? && !step.Purge?
    ensures HandlerOk(Next(s, step), step.h)
  {
    hide QuestionOf, CacheKey, TtlNanos, DohResult, ReplyBytes, Lookup, Store;
    assert HandlerOk(s, step.h);
    if step.Write? {
      var Handler(packet, phase) := s.handlers[step.h];
      RepliesAppend(s.sent, Reply(step.h, ReplyBytes(packet, phase), phase), step.h);
    }
  }

  lemma NewReply(s: State, h: nat)
    requires Enabled(s, Write(h)) && Inv(s)
    ensures var Handler(packet, phase) := s.handlers[h];
            AnswersPacket(Reply(h, ReplyBytes(packet, phase), phase), packet)
  {
    var Handler(packet, phase) := s.handlers[h];
    assert HandlerOk(s, h);
    QuestionStable(packet, if phase.Failing? then [] else phase.addrs);
    hide QuestionOf, Response, ServFail;
  }

  lemma HandlersStep(s: State, step: Step, h: nat)
    requires Enabled(s, step) && Inv(s)
    ensures h in Next(s, step).handlers ==> HandlerOk(Next(s, step), h)
    ensures h !in Next(s, step).handlers ==> RepliesTo(Next(s, step).sent, h) == 0
  {
    hide QuestionOf, CacheKey, TtlNanos, DohResult, ReplyBytes, Lookup, Store, RepliesTo;
    if !step.Arrive? && !step.Tick? && !step.Purge? && step.h == h {
      OwnHandler(s, step);
    } else {
      assert h in s.handlers ==> HandlerOk(s, h);
      if step.Write? {
        var Handler(packet, phase) := s.handlers[step.h];
        RepliesAppend(s.sent, Reply(step.h, ReplyBytes(packet, phase), phase), h);
      }
    }
  }

  lemma RepliesStep(s: State, step: Step, r: Reply)
    requires Enabled(s, step) && Inv(s) && r in Next(s, step).sent
    ensures ReplyOk(Next(s, step), r)
  {
    hide CacheKey, TtlNanos, DohResult, ReplyBytes, Lookup, Store, AnswersPacket;
    if r in s.sent {
      assert ReplyOk(s, r);
    } else {
      NewReply(s, step.h);
    }
  }

  lemma InvStep(s: State, step: Step)
    requires Enabled(s, step) && Inv(s)
    ensures Inv(Next(s, step))
  {
    hide Next, HandlerOk, ReplyOk, RepliesTo;
    var t := Next(s, step);
    forall h: nat
      ensures h in t.handlers ==> HandlerOk(t, h)
      ensures h !in t.handlers ==> RepliesTo(t.sent, h) == 0
    {
      HandlersStep(s, step, h);
    }
    forall r | r in t.sent
      ensures ReplyOk(t, r)
    {
      RepliesStep(s, step, r);
    }
  }

  /** The invariant of handlers and replies holds in every interleaving. */
  lemma {:induction false} EveryRunIsSafe(steps: seq<Step>)
    requires Reached(steps).Some?
    ensures Inv(Reached(steps).value)
  {
    hide Inv, Next, Enabled;
    if steps == [] {
      EmptyIsSafe();
    } else {
      EveryRunIsSafe(steps[..|steps| - 1]);
      InvStep(Reached(steps[..|steps| - 1]).value, steps[|steps| - 1]);
    }
  }

  lemma EmptyIsSafe()
    ensures Inv(INITIAL)
  {
  }

  // ----------------------------------------------------- where answers come from, in the run

  /** The state before step `i`. */
  function Before(steps: seq<Step>, i: nat): Option<State>
    requires i <= |steps|
  {
    Reached(steps[..i])
  }

  /** Handler `h` was in `phase` just before step `i`. */
  predicate WasIn(steps: seq<Step>, i: nat, h: nat, phase: Phase) {
    && i <= |steps| && Before(steps, i).Some?
    && h in Before(steps, i).value.handlers && Before(steps, i).value.handlers[h].phase == phase
  }

  /** At step `i` handler `h` resolved the question `r.q` and got `r`. */
  predicate ResolvedAt(steps: seq<Step>, i: nat, h: nat, r: Resolution) {
    && i < |steps| && WasIn(steps, i, h, Resolving(r.q))
    && steps[i].Resolve? && steps[i].h == h && DohResult(steps[i].body) == Answers(r.addrs, r.ttl)
  }

  /** At step `i` handler `h` tried to resolve `q` in vain. */
  predicate FailedAt(steps: seq<Step>, i: nat, h: nat, q: Question) {
    && i < |steps| && WasIn(steps, i, h, Resolving(q))
    && steps[i].Resolve? && steps[i].h == h && DohResult(steps[i].body) == Failed
  }

  /** At step `j` handler `h` stored what it had resolved at step `i`. */
  predicate StoredAt(steps: seq<Step>, i: nat, j: nat, h: nat, r: Resolution) {
    && i < j < |steps| && ResolvedAt(steps, i, h, r)
    && WasIn(steps, j, h, Storing(r.q, r.addrs, r.ttl)) && steps[j] == Put(h)
  }

  /** Step `m` stores an answer under key `k`. */
  predicate PutsUnder(steps: seq<Step>, m: nat, k: Bytes) {
    && m < |steps| && steps[m].Put? && Before(steps, m).Some?
    && var s, h := Before(steps, m).value, steps[m].h;
    h in s.handlers && s.handlers[h].phase.Storing? && CacheKey(s.handlers[h].phase.q) == k
  }

  /** No step from behind `j` to before `g` stores an answer under `k`. */
  ghost predicate LastPut(steps: seq<Step>, j: nat, g: nat, k: Bytes) {
    forall m: nat | j < m < g :: !PutsUnder(steps, m, k)
  }

  /**
   The entry under `k` is `r`, which handler `h` resolved at step `i` and stored at step `j`, the last one to
   store under `k`; it expires its TTL after that step.
   */
  ghost predicate Cached(steps: seq<Step>, k: Bytes, i: nat, j: nat, h: nat, r: Resolution) {
    && StoredAt(steps, i, j, h, r) && CacheKey(r.q) == k
    && Reached(steps).Some? && k in Reached(steps).value.cache
    && Reached(steps).value.cache[k] == Entry(r.addrs, Before(steps, j).value.clock + TtlNanos(r.ttl))
    && LastPut(steps, j, |steps|, k)
  }

  /**
   At step `g` handler `h` found `addrs` in the cache: `f` had stored them at `j`, nobody had stored another
   answer to `q` since, and they were no older than their TTL.
   */
  ghost predicate FoundAt(
    steps: seq<Step>, g: nat, h: nat, q: Question, addrs: seq<Address>, i: nat, j: nat, f: nat, ttl: int)
  {
    && j < g < |steps| && WasIn(steps, g, h, LookingUp(q)) && steps[g] == Get(h)
    && StoredAt(steps, i, j, f, Resolution(q, addrs, ttl)) && LastPut(steps, j, g, CacheKey(q))
    && Before(steps, j).value.clock <= Before(steps, g).value.clock
    && Before(steps, g).value.clock <= Before(steps, j).value.clock + TtlNanos(ttl)
  }

  /** How a handler came to answer: out of the cache, by its own resolve, or by its own failure to. */
  ghost predicate Story(steps: seq<Step>, h: nat, phase: Phase) {
    match phase
    case Storing(q, addrs, ttl) => exists i :: ResolvedAt(steps, i, h, Resolution(q, addrs, ttl))
    case AnsweringFresh(q, addrs, ttl) => exists i, j :: StoredAt(steps, i, j, h, Resolution(q, addrs, ttl))
    case AnsweringHit(q, addrs, t) =>
      exists g, i, j, f, ttl :: FoundAt(steps, g, h, q, addrs, i, j, f, ttl) && Before(steps, g).value.clock == t
    case Failing(q) => exists i :: FailedAt(steps, i, h, q)
    case _ => true
  }

  // What happened in a run happened in every longer one.
  lemma PrefixBefore(steps: seq<Step>, n: nat, i: nat)
    requires i <= n <= |steps|
    ensures Before(steps[..n], i) == Before(steps, i)
  {
    assert steps[..n][..i] == steps[..i];
  }

  lemma PrefixResolved(steps: seq<Step>, n: nat, i: nat, h: nat, r: Resolution)
    requires n <= |steps| && ResolvedAt(steps[..n], i, h, r)
    ensures ResolvedAt(steps, i, h, r)
  {
    hide Before;
    PrefixBefore(steps, n, i);
  }

  lemma PrefixStored(steps: seq<Step>, n: nat, i: nat, j: nat, h: nat, r: Resolution)
    requires n <= |steps| && StoredAt(steps[..n], i, j, h, r)
    ensures StoredAt(steps, i, j, h, r) && Before(steps[..n], j) == Before(steps, j)
  {
    hide Before, ResolvedAt;
    PrefixBefore(steps, n, j);
    PrefixResolved(steps, n, i, h, r);
  }

  lemma PrefixLastPut(steps: seq<Step>, n: nat, j: nat, g: nat, k: Bytes)
    requires g <= n <= |steps| && LastPut(steps[..n], j, g, k)
    ensures LastPut(steps, j, g, k)
  {
    hide Before, CacheKey;
    forall m: nat | j < m < g
      ensures !PutsUnder(steps, m, k)
    {
      assert !PutsUnder(steps[..n], m, k);
      PrefixBefore(steps, n, m);
    }
  }

  lemma PrefixStory(steps: seq<Step>, n: nat, h: nat, phase: Phase)
    requires n <= |steps| && Story(steps[..n], h, phase)
    ensures Story(steps, h, phase)
  {
    hide Before, ResolvedAt, StoredAt, LastPut, CacheKey;
    var before := steps[..n];
    match phase
    case Storing(q, addrs, ttl) =>
      var i :| ResolvedAt(before, i, h, Resolution(q, addrs, ttl));
      PrefixResolved(steps, n, i, h, Resolution(q, addrs, ttl));
    case AnsweringFresh(q, addrs, ttl) =>
      var i, j :| StoredAt(before, i, j, h, Resolution(q, addrs, ttl));
      PrefixStored(steps, n, i, j, h, Resolution(q, addrs, ttl));
    case AnsweringHit(q, addrs, t) =>
      var g, i, j, f, ttl :| FoundAt(before, g, h, q, addrs, i, j, f, ttl) && Before(before, g).value.clock == t;
      PrefixBefore(steps, n, g);
      PrefixStored(steps, n, i, j, f, Resolution(q, addrs, ttl));
      PrefixLastPut(steps, n, j, g, CacheKey(q));
      assert FoundAt(steps, g, h, q, addrs, i, j, f, ttl);
    case Failing(q) =>
      var i :| FailedAt(before, i, h, q);
      PrefixBefore(steps, n, i);
      assert FailedAt(steps, i, h, q);
    case _ =>
  }

  /** The last step of a run. */
  lemma LastStep(steps: seq<Step>)
    requires Reached(steps).Some? && steps != []
    ensures var n := |steps| - 1;
            && Before(steps, n) == Reached(steps[..n]) && Before(steps, n).Some?
            && Enabled(Before(steps, n).value, steps[n])
            && Reached(steps).value == Next(Before(steps, n).value, steps[n])
  {
  }

  lemma {:induction false} ClockGrows(steps: seq<Step>, i: nat)
    requires Reached(steps).Some? && i <= |steps|
    ensures Before(steps, i).Some? && Before(steps, i).value.clock <= Reached(steps).value.clock
    decreases |steps|
  {
    if i == |steps| {
      assert steps[..i] == steps;
    } else {
      var n := |steps| - 1;
      LastStep(steps);
      ClockGrows(steps[..n], i);
      PrefixBefore(steps, n, i);
      hide Reached, Before;
      ClockStep(Before(steps, n).value, steps[n]);
    }
  }

  lemma ClockStep(s: State, step: Step)
    requires Enabled(s, step)
    ensures s.clock <= Next(s, step).clock
  {
    hide QuestionOf, CacheKey, TtlNanos, DohResult, ReplyBytes, Lookup, Store, Purged;
  }

  /** Who changes a handler's phase, and how. */
  lemma PhaseStep(s: State, step: Step, h: nat)
    requires Enabled(s, step) && h in Next(s, step).handlers
    ensures var now := Next(s, step).handlers[h].phase;
            || (h in s.handlers && s.handlers[h].phase == now)
            || now.Arrived? || now.LookingUp? || now.Resolving? || now.Finished?
            || (step.Resolve? && step.h == h && h in s.handlers
                && (now.Storing? || now.Failing?) && s.handlers[h].phase == Resolving(now.q)
                && DohResult(step.body) == if now.Failing? then Failed else Answers(now.addrs, now.ttl))
            || (step == Put(h) && h in s.handlers && now.AnsweringFresh?
                && s.handlers[h].phase == Storing(now.q, now.addrs, now.ttl))
            || (step == Get(h) && h in s.handlers && now.AnsweringHit? && s.handlers[h].phase == LookingUp(now.q)
                && Lookup(s.cache, CacheKey(now.q), s.clock) == Some(now.addrs) && now.lookedUp == s.clock)
  {
    hide QuestionOf, CacheKey, TtlNanos, DohResult, ReplyBytes, Lookup, Store, Purged;
  }

  lemma NewlyResolved(steps: seq<Step>, h: nat, now: Phase)
    requires steps != [] && (now.Storing? || now.Failing?)
    requires var n := |steps| - 1;
             && WasIn(steps, n, h, Resolving(now.q)) && steps[n].Resolve? && steps[n].h == h
             && DohResult(steps[n].body) == if now.Failing? then Failed else Answers(now.addrs, now.ttl)
    ensures Story(steps, h, now)
  {
    hide Before, DohResult;
    var n := |steps| - 1;
    if now.Failing? {
      assert FailedAt(steps, n, h, now.q);
    } else {
      assert ResolvedAt(steps, n, h, Resolution(now.q, now.addrs, now.ttl));
    }
  }

  lemma NewlyStored(steps: seq<Step>, h: nat, now: Phase)
    requires steps != [] && now.AnsweringFresh?
    requires var n := |steps| - 1;
             && steps[n] == Put(h) && WasIn(steps, n, h, Storing(now.q, now.addrs, now.ttl))
             && Story(steps[..n], h, Storing(now.q, now.addrs, now.ttl))
    ensures Story(steps, h, now)
  {
    hide Before, DohResult, ResolvedAt, WasIn;
    var n, r := |steps| - 1, Resolution(now.q, now.addrs, now.ttl);
    var i :| ResolvedAt(steps[..n], i, h, r);
    ResolvedEarlier(steps[..n], i, h, r);
    PrefixResolved(steps, n, i, h, r);
    assert StoredAt(steps, i, n, h, r);
  }

  lemma ResolvedEarlier(steps: seq<Step>, i: nat, h: nat, r: Resolution)
    requires ResolvedAt(steps, i, h, r)
    ensures i < |steps|
  {
  }

  /** A hit comes from an entry of the same question: cache keys are injective. */
  lemma NewlyFound(steps: seq<Step>, h: nat, now: Phase, i: nat, j: nat, f: nat, r: Resolution)
    requires steps != [] && now.AnsweringHit?
    requires var n := |steps| - 1;
             && steps[n] == Get(h) && WasIn(steps, n, h, LookingUp(now.q))
             && var s := Before(steps, n).value;
             && Lookup(s.cache, CacheKey(now.q), s.clock) == Some(now.addrs) && now.lookedUp == s.clock
             && Cached(steps[..n], CacheKey(now.q), i, j, f, r)
    ensures Story(steps, h, now)
  {
    hide StoredAt, CacheKey, TtlNanos, Reached, LastPut;
    var n := |steps| - 1;
    CacheKeyInjective(r.q, now.q);
    StoredEarlier(steps[..n], i, j, f, r);
    PrefixStored(steps, n, i, j, f, r);
    PrefixLastPut(steps, n, j, n, CacheKey(now.q));
    ClockGrows(steps[..n], j);
    assert FoundAt(steps, n, h, now.q, now.addrs, i, j, f, r.ttl);
  }

  lemma StoredEarlier(steps: seq<Step>, i: nat, j: nat, h: nat, r: Resolution)
    requires StoredAt(steps, i, j, h, r)
    ensures i < j < |steps|
  {
  }

  /** In every interleaving a handler's phase has its story. */
  lemma {:induction false} EveryPhaseHasItsStory(steps: seq<Step>, h: nat)
    requires Reached(steps).Some? && h in Reached(steps).value.handlers
    ensures Story(steps, h, Reached(steps).value.handlers[h].phase)
    decreases |steps|
  {
    hide Story, Next, Enabled, Lookup, CacheKey, DohResult, Cached;
    LastStep(steps);
    var n := |steps| - 1;
    var s, now := Before(steps, n).value, Reached(steps).value.handlers[h].phase;
    PhaseStep(s, steps[n], h);
    if h in s.handlers && s.handlers[h].phase == now {
      EveryPhaseHasItsStory(steps[..n], h);
      PrefixStory(steps, n, h, now);
    } else if now.Storing? || now.Failing? {
      NewlyResolved(steps, h, now);
    } else if now.AnsweringFresh? {
      EveryPhaseHasItsStory(steps[..n], h);
      NewlyStored(steps, h, now);
    } else if now.AnsweringHit? {
      HitIsThere(s.cache, CacheKey(now.q), s.clock);
      var i, j, f, r := CacheIsFetched(steps[..n], CacheKey(now.q));
      NewlyFound(steps, h, now, i, j, f, r);
    } else {
      EarlyPhases(steps, h, now);
    }
  }

  lemma HitIsThere(m: Entries, k: Bytes, now: int)
    ensures Lookup(m, k, now).Some? ==> k in m
  {
  }

  lemma EarlyPhases(steps: seq<Step>, h: nat, phase: Phase)
    requires phase.Arrived? || phase.LookingUp? || phase.Resolving? || phase.Finished?
    ensures Story(steps, h, phase)
  {
  }

  /** Who changes a cache entry. */
  lemma EntryStep(s: State, step: Step, k: Bytes)
    requires Enabled(s, step) && k in Next(s, step).cache
    ensures if step.Put? && CacheKey(s.handlers[step.h].phase.q) == k then
              var Storing(_, addrs, ttl) := s.handlers[step.h].phase;
              Next(s, step).cache[k] == Entry(addrs, s.clock + TtlNanos(ttl))
            else k in s.cache && s.cache[k] == Next(s, step).cache[k]
  {
    hide QuestionOf, CacheKey, TtlNanos, DohResult, ReplyBytes, Lookup;
  }

  /** In every interleaving every cache entry was resolved and then stored by some handler, and not since. */
  lemma {:induction false} CacheIsFetched(steps: seq<Step>, k: Bytes)
    returns (i: nat, j: nat, h: nat, r: Resolution)
    requires Reached(steps).Some? && k in Reached(steps).value.cache
    ensures Cached(steps, k, i, j, h, r)
    decreases |steps|
  {
    hide Next, CacheKey, TtlNanos, Story, Cached;
    LastStep(steps);
    var n := |steps| - 1;
    var s, step := Before(steps, n).value, steps[n];
    EntryStep(s, step, k);
    if step.Put? && CacheKey(s.handlers[step.h].phase.q) == k {
      h := step.h;
      var phase := s.handlers[h].phase;
      r, j := Resolution(phase.q, phase.addrs, phase.ttl), n;
      EveryPhaseHasItsStory(steps[..n], h);
      i := StoresNow(steps, h, r);
      hide Reached, Enabled;
      assert Cached(steps, k, i, j, h, r) by { JustCached(steps, k, i, h, r); }
    } else {
      i, j, h, r := CacheIsFetched(steps[..n], k);
      hide Reached, Enabled;
      StillCached(steps, k, i, j, h, r);
    }
  }

  lemma StoresNow(steps: seq<Step>, h: nat, r: Resolution) returns (i: nat)
    requires steps != []
    requires steps[|steps| - 1] == Put(h)
    requires WasIn(steps, |steps| - 1, h, Storing(r.q, r.addrs, r.ttl))
    requires Story(steps[..|steps| - 1], h, Storing(r.q, r.addrs, r.ttl))
    ensures StoredAt(steps, i, |steps| - 1, h, r)
  {
    hide Before, ResolvedAt, WasIn;
    var n := |steps| - 1;
    i :| ResolvedAt(steps[..n], i, h, r);
    ResolvedEarlier(steps[..n], i, h, r);
    PrefixResolved(steps, n, i, h, r);
  }

  lemma JustCached(steps: seq<Step>, k: Bytes, i: nat, h: nat, r: Resolution)
    requires steps != [] && StoredAt(steps, i, |steps| - 1, h, r) && CacheKey(r.q) == k
    requires Reached(steps).Some? && k in Reached(steps).value.cache
    requires Reached(steps).value.cache[k]
          == Entry(r.addrs, Before(steps, |steps| - 1).value.clock + TtlNanos(r.ttl))
    ensures Cached(steps, k, i, |steps| - 1, h, r)
  {
    hide Reached, Before, CacheKey, TtlNanos, PutsUnder;
  }

  lemma StillCached(steps: seq<Step>, k: Bytes, i: nat, j: nat, h: nat, r: Resolution)
    requires Reached(steps).Some? && steps != [] && Cached(steps[..|steps| - 1], k, i, j, h, r)
    requires k in Reached(steps).value.cache
    requires Reached(steps).value.cache[k] == Before(steps, |steps| - 1).value.cache[k]
    requires !PutsUnder(steps, |steps| - 1, k)
    ensures Cached(steps, k, i, j, h, r)
  {
    hide Reached, CacheKey, TtlNanos, StoredAt;
    var n := |steps| - 1;
    PrefixStored(steps, n, i, j, h, r);
    PrefixLastPut(steps, n, j, n, k);
    hide PutsUnder;
  }

  /** The purge step removes exactly the expired entries. */
  lemma PurgeStepRemovesExpired(s: State, k: Bytes)
    ensures k in Next(s, Purge).cache <==> k in s.cache && s.clock <= s.cache[k].expires
    ensures k in Next(s, Purge).cache ==> Next(s, Purge).cache[k] == s.cache[k]
    ensures Next(s, Purge) == s.(cache := Next(s, Purge).cache)
  {
  }

  // ------------------------------------------------------------- when the cache answers

  /** Step `j` stored `addrs` for `q`, the last store for it before step `g`. */
  ghost predicate LastStore(steps: seq<Step>, j: nat, g: nat, q: Question, addrs: seq<Address>, ttl: int) {
    && j < g <= |steps| && steps[j].Put?
    && WasIn(steps, j, steps[j].h, Storing(q, addrs, ttl))
    && LastPut(steps, j, g, CacheKey(q))
  }

  lemma StepKeepsEntry(s: State, step: Step, k: Bytes)
    requires Enabled(s, step) && k in s.cache && k !in Next(s, step).cache
    ensures step.Purge? && s.cache[k].expires < s.clock
  {
    hide QuestionOf, CacheKey, TtlNanos, DohResult, ReplyBytes, Lookup;
  }

  lemma LastPutIsOne(steps: seq<Step>, i: nat, j: nat, g: nat, k: Bytes)
    requires i < g && j < g && PutsUnder(steps, i, k) && PutsUnder(steps, j, k)
    requires LastPut(steps, i, g, k) && LastPut(steps, j, g, k)
    ensures i == j
  {
    hide PutsUnder;
  }

  lemma StorePutsUnder(steps: seq<Step>, j: nat, g: nat, q: Question, addrs: seq<Address>, ttl: int)
    requires LastStore(steps, j, g, q, addrs, ttl)
    ensures PutsUnder(steps, j, CacheKey(q))
  {
    hide CacheKey, LastPut, Before;
  }

  lemma CachedPutsUnder(steps: seq<Step>, k: Bytes, i: nat, j: nat, h: nat, r: Resolution)
    requires Cached(steps, k, i, j, h, r)
    ensures PutsUnder(steps, j, k) && LastPut(steps, j, |steps|, k) && j < |steps|
    ensures WasIn(steps, j, steps[j].h, Storing(r.q, r.addrs, r.ttl))
  {
    hide CacheKey, LastPut, Before;
  }

  /** An entry is what the last store of its question put there. */
  lemma EntryIsLastStore(steps: seq<Step>, j: nat, q: Question, addrs: seq<Address>, ttl: int)
    requires Reached(steps).Some? && LastStore(steps, j, |steps|, q, addrs, ttl)
    requires CacheKey(q) in Reached(steps).value.cache
    ensures Before(steps, j).Some?
    ensures Reached(steps).value.cache[CacheKey(q)] == Entry(addrs, Before(steps, j).value.clock + TtlNanos(ttl))
  {
    hide Reached, CacheKey, TtlNanos, PutsUnder, LastPut;
    var i, j', h, r := CacheIsFetched(steps, CacheKey(q));
    CachedPutsUnder(steps, CacheKey(q), i, j', h, r);
    StorePutsUnder(steps, j, |steps|, q, addrs, ttl);
    LastPutIsOne(steps, j, j', |steps|, CacheKey(q));
    hide Before;
  }

  /** After a store, its entry is missing only once it has expired. */
  lemma {:induction false} MissingIsExpired(steps: seq<Step>, j: nat, q: Question, addrs: seq<Address>, ttl: int)
    requires Reached(steps).Some? && LastStore(steps, j, |steps|, q, addrs, ttl)
    requires CacheKey(q) !in Reached(steps).value.cache
    ensures Before(steps, j).Some?
    ensures Before(steps, j).value.clock + TtlNanos(ttl) < Reached(steps).value.clock
    decreases |steps|
  {
    hide Next, CacheKey, TtlNanos, LastPut, PutsUnder, Enabled;
    LastStep(steps);
    var n, k := |steps| - 1, CacheKey(q);
    var s := Before(steps, n).value;
    hide Reached;
    if j == n {
      StoreIsThere(s, steps[n], q, addrs, ttl);
    } else {
      LastStoreEarlier(steps, j, q, addrs, ttl);
      PrefixBefore(steps, n, j);
      ClockStep(s, steps[n]);
      if k in s.cache {
        EntryIsLastStore(steps[..n], j, q, addrs, ttl);
        StepKeepsEntry(s, steps[n], k);
      } else {
        MissingIsExpired(steps[..n], j, q, addrs, ttl);
      }
    }
  }

  lemma StoreIsThere(s: State, step: Step, q: Question, addrs: seq<Address>, ttl: int)
    requires Enabled(s, step) && step.Put? && s.handlers[step.h].phase == Storing(q, addrs, ttl)
    ensures CacheKey(q) in Next(s, step).cache
  {
    hide QuestionOf, CacheKey, TtlNanos, DohResult, ReplyBytes, Lookup;
  }

  lemma LastStoreEarlier(steps: seq<Step>, j: nat, q: Question, addrs: seq<Address>, ttl: int)
    requires LastStore(steps, j, |steps|, q, addrs, ttl) && j + 1 < |steps|
    ensures LastStore(steps[..|steps| - 1], j, |steps| - 1, q, addrs, ttl)
  {
    hide CacheKey;
    var n := |steps| - 1;
    PrefixBefore(steps, n, j);
    forall m: nat | j < m < n
      ensures !PutsUnder(steps[..n], m, CacheKey(q))
    {
      assert !PutsUnder(steps, m, CacheKey(q));
      PrefixBefore(steps, n, m);
    }
  }

  lemma LookupOfPresent(m: Entries, k: Bytes, now: int)
    ensures Lookup(m, k, now) == if k in m && now <= m[k].expires then Some(m[k].addrs) else None
  {
  }

  /**
   In every interleaving the cache answers a question exactly when the last answer stored for it has not
   outlived its TTL, and then with that answer.
   */
  lemma {:induction false} LookupExactly(steps: seq<Step>, q: Question)
    requires Reached(steps).Some?
    ensures var s := Reached(steps).value;
            && (forall j, addrs, ttl | LastStore(steps, j, |steps|, q, addrs, ttl) ::
                  Lookup(s.cache, CacheKey(q), s.clock)
                  == if s.clock <= Before(steps, j).value.clock + TtlNanos(ttl) then Some(addrs) else None)
            && ((!exists j, addrs, ttl :: LastStore(steps, j, |steps|, q, addrs, ttl)) ==>
                  Lookup(s.cache, CacheKey(q), s.clock) == None)
  {
    hide Reached, Before, CacheKey, TtlNanos, LastPut, PutsUnder, Cached, Lookup;
    var s := Reached(steps).value;
    LookupOfPresent(s.cache, CacheKey(q), s.clock);
    forall j, addrs, ttl | LastStore(steps, j, |steps|, q, addrs, ttl)
      ensures Lookup(s.cache, CacheKey(q), s.clock)
           == if s.clock <= Before(steps, j).value.clock + TtlNanos(ttl) then Some(addrs) else None
    {
      if CacheKey(q) in s.cache {
        EntryIsLastStore(steps, j, q, addrs, ttl);
      } else {
        MissingIsExpired(steps, j, q, addrs, ttl);
      }
    }
    if CacheKey(q) in s.cache {
      var i, j, h, r := CacheIsFetched(steps, CacheKey(q));
      CachedIsLastStore(steps, q, i, j, h, r);
    }
  }

  lemma CachedIsLastStore(steps: seq<Step>, q: Question, i: nat, j: nat, h: nat, r: Resolution)
    requires Cached(steps, CacheKey(q), i, j, h, r)
    ensures LastStore(steps, j, |steps|, q, r.addrs, r.ttl)
  {
    CachedPutsUnder(steps, CacheKey(q), i, j, h, r);
    hide Reached, CacheKey, TtlNanos, LastPut, WasIn, PutsUnder, ResolvedAt;
    CacheKeyInjective(r.q, q);
  }

  /**
   So a handler that looks up its question at step `g` answers from the cache iff the last answer stored for
   it is fresh, with that answer; otherwise it goes on to resolve.
   */
  lemma {:induction false} GetExactly(steps: seq<Step>, g: nat, h: nat, q: Question)
    requires Reached(steps).Some? && g < |steps| && steps[g] == Get(h) && WasIn(steps, g, h, LookingUp(q))
    ensures forall j, addrs, ttl | LastStore(steps[..g], j, g, q, addrs, ttl) ::
              WasIn(steps, g + 1, h,
                    if Before(steps, g).value.clock <= Before(steps[..g], j).value.clock + TtlNanos(ttl)
                    then AnsweringHit(q, addrs, Before(steps, g).value.clock) else Resolving(q))
    ensures (!exists j, addrs, ttl :: LastStore(steps[..g], j, g, q, addrs, ttl)) ==>
              WasIn(steps, g + 1, h, Resolving(q))
  {
    ClockGrows(steps, g + 1);
    LastStep(steps[..g + 1]);
    PrefixBefore(steps, g + 1, g);
    LookupExactly(steps[..g], q);
    GetStep(Before(steps, g).value, h, q);
    hide Reached, CacheKey, TtlNanos, LastStore, Lookup, Next, Enabled;
  }

  lemma GetStep(s: State, h: nat, q: Question)
    requires h in s.handlers && s.handlers[h].phase == LookingUp(q)
    ensures Enabled(s, Get(h)) && h in Next(s, Get(h)).handlers
    ensures Next(s, Get(h)).handlers[h].phase
         == match Lookup(s.cache, CacheKey(q), s.clock)
            case Some(addrs) => AnsweringHit(q, addrs, s.clock)
            case None => Resolving(q)
  {
    hide QuestionOf, CacheKey, TtlNanos, DohResult, ReplyBytes, Lookup, Store, Purged;
  }

  lemma ResolutionIsPositive(body: DohBody, addrs: seq<Address>, ttl: int)
    requires DohResult(body) == Answers(addrs, ttl)
    ensures ttl > 0 && addrs != []
  {
    TtlIsLastPositive(body.answers);
  }

  /**
   In every interleaving, what the cache holds for `q` is a non-empty answer that step `i`, a successful
   resolve of exactly `q`, returned, and that step `j` stored, the last store for `q`. It expires its positive
   TTL after that step; that is the TTL in seconds whenever it is at most 9223372036.
   */
  lemma {:induction false} CachedAnswersAreResolved(steps: seq<Step>, q: Question)
    returns (i: nat, j: nat, h: nat, r: Resolution)
    requires Reached(steps).Some? && CacheKey(q) in Reached(steps).value.cache
    ensures Cached(steps, CacheKey(q), i, j, h, r) && r.q == q
    ensures r.addrs != [] && r.ttl > 0 && (TtlNanos(r.ttl) == r.ttl * SECOND <==> r.ttl <= 9223372036)
  {
    hide Reached, CacheKey, TtlNanos, DohResult, PutsUnder;
    i, j, h, r := CacheIsFetched(steps, CacheKey(q));
    CacheKeyInjective(r.q, q);
    ResolutionIsPositive(steps[i].body, r.addrs, r.ttl);
    TtlExactIffItFits(r.ttl);
  }

  /** Step `w` wrote the reply, out of an answering phase with its story. */
  ghost predicate SentAt(steps: seq<Step>, w: nat, r: Reply) {
    && w < |steps| && steps[w] == Write(r.handler)
    && WasIn(steps, w, r.handler, r.origin) && Story(steps[..w], r.handler, r.origin)
  }

  lemma SentStep(s: State, step: Step, r: Reply)
    requires Enabled(s, step) && r in Next(s, step).sent && r !in s.sent
    ensures step == Write(r.handler) && r.handler in s.handlers && s.handlers[r.handler].phase == r.origin
  {
    hide QuestionOf, CacheKey, TtlNanos, DohResult, ReplyBytes, Lookup, Store, Purged;
  }

  lemma {:induction false} EveryReplyWasWritten(steps: seq<Step>, r: Reply) returns (w: nat)
    requires Reached(steps).Some? && r in Reached(steps).value.sent
    ensures SentAt(steps, w, r)
    decreases |steps|
  {
    hide Next, Story, Enabled;
    LastStep(steps);
    var n := |steps| - 1;
    var s := Before(steps, n).value;
    if r in s.sent {
      w := EveryReplyWasWritten(steps[..n], r);
      PrefixBefore(steps, n, w);
      assert steps[..n][..w] == steps[..w];
    } else {
      SentStep(s, steps[n], r);
      EveryPhaseHasItsStory(steps[..n], r.handler);
      w := n;
    }
  }

  /**
   In every interleaving a finished handler has sent exactly one reply if its packet parses and none
   otherwise, an unfinished one none. Every reply carries its packet's ID and question, and was written by its
   handler with an answer it had before found in the cache, the last one stored and fresh, or had resolved and
   stored itself, or after its own failed resolve.
   */
  lemma {:induction false} RepliesAreExact(steps: seq<Step>)
    requires Reached(steps).Some?
    ensures var s := Reached(steps).value;
            && (forall h | h in s.handlers ::
                  RepliesTo(s.sent, h)
                  == if s.handlers[h].phase.Finished? && QuestionOf(s.handlers[h].packet).Parsed? then 1 else 0)
            && (forall r | r in s.sent ::
                  && r.handler in s.handlers && AnswersPacket(r, s.handlers[r.handler].packet)
                  && exists w :: SentAt(steps, w, r))
  {
    EveryRunIsSafe(steps);
    hide QuestionOf, ReplyBytes, Reached, SentAt;
    var s := Reached(steps).value;
    forall h | h in s.handlers
      ensures RepliesTo(s.sent, h)
           == if s.handlers[h].phase.Finished? && QuestionOf(s.handlers[h].packet).Parsed? then 1 else 0
    {
      assert HandlerOk(s, h);
    }
    forall r | r in s.sent
      ensures exists w :: SentAt(steps, w, r)
    {
      var w := EveryReplyWasWritten(steps, r);
    }
  }

  lemma Extend(steps: seq<Step>, step: Step)
    requires Reached(steps).Some? && Enabled(Reached(steps).value, step)
    ensures Reached(steps + [step]) == Some(Next(Reached(steps).value, step))
  {
    assert (steps + [step])[..|steps|] == steps;
  }

  function Rank(phase: Phase): nat {
    match phase
    case Arrived => 5
    case LookingUp(_) => 4
    case Resolving(_) => 3
    case Storing(_, _, _) => 2
    case AnsweringHit(_, _, _) => 1
    case AnsweringFresh(_, _, _) => 1
    case Failing(_) => 1
    case Finished => 0
  }

  /** The handler's own next step. */
  function OwnStep(phase: Phase, h: nat, body: DohBody): Step
    requires !phase.Finished?
  {
    match phase
    case Arrived => Parse(h)
    case LookingUp(_) => Get(h)
    case Resolving(_) => Resolve(h, body)
    case Storing(_, _, _) => Put(h)
    case _ => Write(h)
  }

  lemma OwnStepProgress(s: State, h: nat, body: DohBody)
    requires Inv(s) && h in s.handlers && !s.handlers[h].phase.Finished?
    ensures var step := OwnStep(s.handlers[h].phase, h, body);
            && Enabled(s, step) && h in Next(s, step).handlers
            && Rank(Next(s, step).handlers[h].phase) < Rank(s.handlers[h].phase)
  {
    assert HandlerOk(s, h);
    ParsedIsLong(s.handlers[h].packet);
    hide Inv, HandlerOk, DohResult, CacheKey, TtlNanos, ReplyBytes, Lookup, Store, QuestionOf;
  }

  /** No handler is ever stuck: from every reachable state its own steps alone finish it. */
  lemma {:induction false} HandlerCanFinish(steps: seq<Step>, h: nat, body: DohBody) returns (rest: seq<Step>)
    requires Reached(steps).Some? && h in Reached(steps).value.handlers
    ensures |rest| <= Rank(Reached(steps).value.handlers[h].phase)
    ensures Reached(steps + rest).Some?
    ensures h in Reached(steps + rest).value.handlers
    ensures Reached(steps + rest).value.handlers[h].phase.Finished?
    decreases Rank(Reached(steps).value.handlers[h].phase)
  {
    hide Reached, Inv, Next, Enabled, OwnStep;
    var s := Reached(steps).value;
    EveryRunIsSafe(steps);
    if s.handlers[h].phase.Finished? {
      rest := [];
      assert steps + rest == steps;
    } else {
      var step := OwnStep(s.handlers[h].phase, h, body);
      OwnStepProgress(s, h, body);
      Extend(steps, step);
      var more := HandlerCanFinish(steps + [step], h, body);
      rest := [step] + more;
      assert steps + rest == (steps + [step]) + more;
    }
  }

  // ------------------------------------------------ the handler as the program runs it

  /** What one handler does to the cache and sends when nothing runs beside it. */
  function HandledAlone(m: Entries, packet: Bytes, body: DohBody, got: int, put: int): (Entries, seq<Bytes>) {
    match QuestionOf(packet)
    case Rejected(_) => (m, [])
    case Parsed(q) =>
      match Lookup(m, CacheKey(q), got)
      case Some(addrs) => (m, [Response(packet, addrs)])
      case None =>
        match DohResult(body)
        case Failed => (m, [ServFail(packet)])
        case Answers(addrs, ttl) => (Store(m, CacheKey(q), addrs, TtlNanos(ttl), put), [Response(packet, addrs)])
  }

  class Server {
    const cache: Cache
    var sent: seq<Bytes>

    constructor ()
      ensures fresh(cache) && cache.entries == map[] && sent == []
    {
      cache := new Cache();
      sent := [];
    }

    /** `body` is what the DoH server would answer; `got` and `put` are the two clock readings. */
    method HandleQuery(packet: array<byte>, body: DohBody, got: int, put: int)
      modifies this, cache
      ensures cache.entries == HandledAlone(old(cache.entries), packet[..], body, got, put).0
      ensures sent == old(sent) + HandledAlone(old(cache.entries), packet[..], body, got, put).1
    {
      var parsed := ParseQuestion(packet);
      if parsed.Rejected? {
        return;
      }
      var cacheKey := CacheKey(parsed.question);
      var cached, ok := cache.Get(cacheKey, got);
      if ok {
        var reply := BuildResponse(packet, cached);
        sent := sent + [reply];
        return;
      }
      var resolved := ParseDoHResponse(body);
      if resolved.Failed? {
        var reply := BuildServFail(packet);
        sent := sent + [reply];
        return;
      }
      cache.Set(cacheKey, resolved.addrs, TtlNanos(resolved.ttl), put);
      var reply := BuildResponse(packet, resolved.addrs);
      sent := sent + [reply];
    }
  }

  /** `t` is `s` after handler `h` alone has run to its end and sent `bytes`. */
  ghost predicate FinishedAlone(s: State, t: State, h: nat, packet: Bytes, cache: Entries, bytes: seq<Bytes>) {
    && h in t.handlers && t.handlers[h] == Handler(packet, Finished)
    && t.cache == cache
    && |t.sent| == |s.sent| + |bytes| && t.sent[..|s.sent|] == s.sent
    && forall r | r in t.sent[|s.sent|..] :: r.handler == h && [r.bytes] == bytes
  }

  /** The machine's steps of one handler, run without interruption, are what `HandleQuery` does. */
  lemma HandlerStepsAreHandleQuery(steps: seq<Step>, h: nat, packet: Bytes, body: DohBody)
    returns (all: seq<Step>)
    requires Reached(steps).Some? && h !in Reached(steps).value.handlers
    ensures steps <= all && Reached(all).Some?
    ensures var s, t := Reached(steps).value, Reached(all).value;
            var alone := HandledAlone(s.cache, packet, body, s.clock, s.clock);
            FinishedAlone(s, t, h, packet, alone.0, alone.1)
  {
    hide DohResult, CacheKey, TtlNanos, Response, ServFail, QuestionOf, Reached, Lookup, Store;
    Extend(steps, Arrive(h, packet));
    all := steps + [Arrive(h, packet)];
    Extend(all, Parse(h));
    all := all + [Parse(h)];
    if QuestionOf(packet).Parsed? {
      ParsedIsLong(packet);
      all := AnswerAlone(all, h, body);
    }
  }

  /** The steps of a handler that looks up its question, up to the reply. */
  lemma AnswerAlone(steps: seq<Step>, h: nat, body: DohBody) returns (all: seq<Step>)
    requires Reached(steps).Some? && h in Reached(steps).value.handlers
    requires var Handler(packet, phase) := Reached(steps).value.handlers[h];
             |packet| >= 12 && phase.LookingUp? && QuestionOf(packet) == Parsed(phase.q)
    ensures steps <= all && Reached(all).Some?
    ensures var s, t := Reached(steps).value, Reached(all).value;
            var packet := s.handlers[h].packet;
            var alone := HandledAlone(s.cache, packet, body, s.clock, s.clock);
            && h in t.handlers && t.handlers[h] == Handler(packet, Finished) && t.cache == alone.0
            && |t.sent| == |s.sent| + 1 && t.sent[..|s.sent|] == s.sent
            && t.sent[|s.sent|].handler == h && [t.sent[|s.sent|].bytes] == alone.1
  {
    hide DohResult, CacheKey, TtlNanos, Response, ServFail, QuestionOf, Reached, Lookup, Store;
    var s := Reached(steps).value;
    var q := s.handlers[h].phase.q;
    Extend(steps, Get(h));
    all := steps + [Get(h)];
    if Lookup(s.cache, CacheKey(q), s.clock).None? {
      Extend(all, Resolve(h, body));
      all := all + [Resolve(h, body)];
      if DohResult(body).Answers? {
        Extend(all, Put(h));
        all := all + [Put(h)];
      }
    }
    Extend(all, Write(h));
    all := all + [Write(h)];
  }

  lemma ParsedIsLong(packet: Bytes)
    ensures QuestionOf(packet).Parsed? ==> |packet| >= 12
  {
  }
}
