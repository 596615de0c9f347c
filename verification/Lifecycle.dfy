/**
 Connecting and disconnecting. Each GUI command runs `connect` in a goroutine of its own, which holds
 the lock only while it enters and while it publishes its components; `disconnect` runs under the lock.
 A step is what happens between two points where another goroutine can run.
 */
module Lifecycle {
  import opened Basics

  /** In the order `connect` starts them. */
  datatype Kind = Tor | Circuits | Dns | Tun

  function Rank(kind: Kind): nat {
    match kind
    case Tor => 0
    case Circuits => 1
    case Dns => 2
    case Tun => 3
  }

  const ORDER := [Tor, Circuits, Dns, Tun]

  /** A component, named after the connect attempt that started it. */
  datatype Comp = Comp(attempt: nat, kind: Kind)

  /** Where an attempt is: `Up(k)` and `Down(k)` hold the first k components; `Ended` holds none. */
  datatype Pc = Up(k: nat) | Down(k: nat) | Ended

  /** `begun` counts the components the attempt has started. */
  datatype Attempt = Attempt(pc: Pc, begun: nat)

  datatype Mode = Disconnected | Connecting | Connected

  /** The fields of `App`, the attempts, and two records: every Stop or Close, every handle overwritten. */
  datatype State = State(
    mode: Mode,
    tor: Option<Comp>, dns: Option<Comp>, tun: Option<Comp>, circuits: Option<Comp>,
    attempts: map<nat, Attempt>,
    stops: seq<Comp>,
    overwritten: set<Comp>)

  const INITIAL := State(Disconnected, None, None, None, None, map[], [], {})

  /** `ok` is whether the component constructor called at this point succeeds. */
  datatype Step = Connect(a: nat) | Advance(a: nat, ok: bool) | Disconnect

  predicate Enabled(s: State, step: Step) {
    match step
    case Connect(a) => a !in s.attempts
    case Advance(a, _) => a in s.attempts && !s.attempts[a].pc.Ended? && (s.attempts[a].pc.k <= 4)
    case Disconnect => true
  }

  function Handle(h: Option<Comp>): set<Comp> {
    if h.Some? then {h.value} else {}
  }

  function Held(s: State): set<Comp> {
    Handle(s.tor) + Handle(s.dns) + Handle(s.tun) + Handle(s.circuits)
  }

  function One(h: Option<Comp>): seq<Comp> {
    if h.Some? then [h.value] else []
  }

  function Set(s: State, a: nat, pc: Pc, begun: nat): State {
    s.(attempts := s.attempts[a := Attempt(pc, begun)])
  }

  /** The next thing attempt `a` does. */
  function AdvanceOne(s: State, a: nat, ok: bool): State
    requires Enabled(s, Advance(a, ok))
  {
    var Attempt(pc, begun) := s.attempts[a];
    match pc
    case Up(k) =>
      if k == 4 then
        Set(s, a, Ended, begun).(
        mode := Connected,
        tor := Some(Comp(a, Tor)), dns := Some(Comp(a, Dns)),
        tun := Some(Comp(a, Tun)), circuits := Some(Comp(a, Circuits)),
        overwritten := s.overwritten + Held(s))
      else if ok || k == 1 then Set(s, a, Up(k + 1), begun + 1)  // a failed bootstrap is ignored
      else Set(s, a, Down(k), begun)
    case Down(k) =>
      if k > 0 then Set(s, a, Down(k - 1), begun).(stops := s.stops + [Comp(a, ORDER[k - 1])])
      else Set(s, a, Ended, begun).(mode := Disconnected)
  }

  function Next(s: State, step: Step): State
    requires Enabled(s, step)
  {
    match step
    case Connect(a) =>
      if s.mode != Disconnected then s else Set(s, a, Up(0), 0).(mode := Connecting)
    case Advance(a, ok) => AdvanceOne(s, a, ok)
    case Disconnect =>
      if s.mode == Disconnected then s
      else s.(
           mode := Disconnected, tor := None, dns := None, tun := None, circuits := None,
           stops := s.stops + One(s.tun) + One(s.dns) + One(s.circuits) + One(s.tor))
  }

  /** The state a run leads to from `s`; `None` when some step of it was not enabled. */
  function Run(s: State, steps: seq<Step>): Option<State> {
    if steps == [] then Some(s)
    else
      match Run(s, steps[..|steps| - 1])
      case None => None
      case Some(t) =>
        var last := steps[|steps| - 1];
        if Enabled(t, last) then Some(Next(t, last)) else None
  }

  // --------------------------------------------------------------------- owners

  predicate Started(s: State, c: Comp) {
    c.attempt in s.attempts && Rank(c.kind) < s.attempts[c.attempt].begun
  }

  predicate InFlight(s: State, c: Comp) {
    c.attempt in s.attempts && !s.attempts[c.attempt].pc.Ended? && Rank(c.kind) < s.attempts[c.attempt].pc.k
  }

  /** How many components of attempt `a` have not been stopped: always the first so many. */
  function Live(s: State, a: nat): nat
    requires a in s.attempts
  {
    var Attempt(pc, begun) := s.attempts[a];
    if !pc.Ended? then pc.k
    else if s.tor == Some(Comp(a, Tor)) || Comp(a, Tor) in s.overwritten then begun
    else 0
  }

  function StopsOf(stops: seq<Comp>, a: nat): seq<Comp> {
    if stops == [] then []
    else
      var n := |stops| - 1;
      StopsOf(stops[..n], a) + if stops[n].attempt == a then [stops[n]] else []
  }

  /** Components `from - 1` down to `to` of attempt `a`: the reverse of the order they start in. */
  function Backwards(a: nat, from: nat, to: nat): seq<Comp>
    requires to <= from <= 4
  {
    seq(from - to, i requires 0 <= i < from - to => Comp(a, ORDER[from - 1 - i]))
  }

  /** An attempt's stops so far are its last starts, undone in reverse. */
  ghost predicate AttemptOk(s: State, a: nat)
    requires a in s.attempts
  {
    var Attempt(pc, begun) := s.attempts[a];
    && begun <= 4
    && (pc.Up? ==> pc.k == begun)
    && (!pc.Ended? ==> pc.k <= begun)
    && StopsOf(s.stops, a) == Backwards(a, begun, Live(s, a))
  }

  /** The four handles are all nil or all of one attempt that has published them. */
  ghost predicate HandlesOk(s: State) {
    || (s.tor == s.dns == s.tun == s.circuits == None)
    || (s.tor.Some? && HandlesOf(s, s.tor.value.attempt))
  }

  ghost predicate HandlesOf(s: State, a: nat) {
    && s.tor == Some(Comp(a, Tor)) && s.dns == Some(Comp(a, Dns))
    && s.tun == Some(Comp(a, Tun)) && s.circuits == Some(Comp(a, Circuits))
    && a in s.attempts && s.attempts[a] == Attempt(Ended, 4)
    && Comp(a, Tor) !in s.overwritten
  }

  ghost predicate OverwrittenOk(s: State) {
    forall c | c in s.overwritten ::
      && c.attempt in s.attempts && s.attempts[c.attempt] == Attempt(Ended, 4)
      && Comp(c.attempt, Tor) in s.overwritten
  }

  ghost predicate Inv(s: State) {
    && HandlesOk(s)
    && OverwrittenOk(s)
    && (s.mode == Connected ==> s.tor.Some?)
    && (forall a | a in s.attempts :: AttemptOk(s, a))
    && (forall c | c in s.stops :: c.attempt in s.attempts)
    && (forall a, kind | Comp(a, Tor) in s.overwritten :: Comp(a, kind) in s.overwritten)
  }

  lemma StopsAppend(stops: seq<Comp>, c: Comp, a: nat)
    ensures StopsOf(stops + [c], a) == StopsOf(stops, a) + if c.attempt == a then [c] else []
  {
    assert (stops + [c])[..|stops|] == stops;
  }

  lemma {:induction false} NoStops(stops: seq<Comp>, a: nat)
    requires forall c | c in stops :: c.attempt != a
    ensures StopsOf(stops, a) == []
  {
    if stops != [] {
      NoStops(stops[..|stops| - 1], a);
    }
  }

  lemma ConnectKeeps(s: State, a: nat, x: nat)
    requires Inv(s) && a !in s.attempts && s.mode == Disconnected
    requires x in Next(s, Connect(a)).attempts
    ensures AttemptOk(Next(s, Connect(a)), x)
  {
    if x == a {
      NoStops(s.stops, a);
    } else {
      assert AttemptOk(s, x);
    }
  }

  lemma AdvanceKeepsOthers(s: State, a: nat, ok: bool, x: nat)
    requires Inv(s) && Enabled(s, Advance(a, ok)) && x in s.attempts && x != a
    ensures AttemptOk(AdvanceOne(s, a, ok), x)
  {
    hide Backwards, StopsOf;
    var t := AdvanceOne(s, a, ok);
    assert AttemptOk(s, x);
    if s.attempts[a].pc.Down? && s.attempts[a].pc.k > 0 {
      StopsAppend(s.stops, Comp(a, ORDER[s.attempts[a].pc.k - 1]), x);
    }
    assert Live(t, x) == Live(s, x);
  }

  lemma AdvanceKeepsOwn(s: State, a: nat, ok: bool)
    requires Inv(s) && Enabled(s, Advance(a, ok))
    ensures AttemptOk(AdvanceOne(s, a, ok), a)
  {
    hide StopsOf, Held;
    assert AttemptOk(s, a);
    var Attempt(pc, begun) := s.attempts[a];
    if pc.Down? && pc.k > 0 {
      StopsAppend(s.stops, Comp(a, ORDER[pc.k - 1]), a);
      BackwardsStep(a, begun, pc.k);
    } else if pc.Down? {
      assert Live(AdvanceOne(s, a, ok), a) == 0;
    }
  }

  lemma BackwardsStep(a: nat, from: nat, to: nat)
    requires 0 < to <= from <= 4
    ensures Backwards(a, from, to - 1) == Backwards(a, from, to) + [Comp(a, ORDER[to - 1])]
  {
  }

  /** The components App holds. */
  lemma HeldAre(s: State)
    requires HandlesOk(s)
    ensures forall c | c in Held(s) :: s.tor.Some? && c.attempt == s.tor.value.attempt
    ensures s.tor.Some? ==> forall kind :: Comp(s.tor.value.attempt, kind) in Held(s)
  {
    if s.tor.Some? {
      var a := s.tor.value.attempt;
      forall kind: Kind
        ensures Comp(a, kind) in Held(s)
      {
        assert kind.Tor? || kind.Circuits? || kind.Dns? || kind.Tun?;
      }
    }
  }

  lemma StopAll(s: State, a: nat, x: nat)
    requires HandlesOf(s, a)
    ensures StopsOf(Next(s, Disconnect).stops, x)
         == StopsOf(s.stops, x) + if s.mode != Disconnected && x == a then Backwards(a, 4, 0) else []
  {
    hide StopsOf;
    if s.mode != Disconnected {
      var s0 := s.stops;
      var s1 := s0 + [Comp(a, Tun)];
      var s2 := s1 + [Comp(a, Dns)];
      var s3 := s2 + [Comp(a, Circuits)];
      StopsAppend(s0, Comp(a, Tun), x);
      StopsAppend(s1, Comp(a, Dns), x);
      StopsAppend(s2, Comp(a, Circuits), x);
      StopsAppend(s3, Comp(a, Tor), x);
      assert Next(s, Disconnect).stops == s3 + [Comp(a, Tor)];
      assert Backwards(a, 4, 0) == [Comp(a, Tun), Comp(a, Dns), Comp(a, Circuits), Comp(a, Tor)];
    }
  }

  lemma DisconnectKeeps(s: State, x: nat)
    requires Inv(s) && x in s.attempts
    ensures AttemptOk(Next(s, Disconnect), x)
  {
    hide Held, StopsOf;
    var t := Next(s, Disconnect);
    assert AttemptOk(s, x);
    if s.tor.Some? {
      var a := s.tor.value.attempt;
      StopAll(s, a, x);
      assert AttemptOk(s, a);
    } else {
      assert t.stops == s.stops;
    }
  }

  lemma InvStep(s: State, step: Step)
    requires Inv(s) && Enabled(s, step)
    ensures Inv(Next(s, step))
  {
    hide AttemptOk, HandlesOk, OverwrittenOk;
    var t := Next(s, step);
    forall x | x in t.attempts
      ensures AttemptOk(t, x)
    {
      match step
      case Connect(a) =>
        if s.mode == Disconnected {
          ConnectKeeps(s, a, x);
        }
      case Advance(a, ok) =>
        if x == a {
          AdvanceKeepsOwn(s, a, ok);
        } else {
          AdvanceKeepsOthers(s, a, ok, x);
        }
      case Disconnect => DisconnectKeeps(s, x);
    }
    RestStep(s, step);
  }

  lemma RestStep(s: State, step: Step)
    requires Inv(s) && Enabled(s, step)
    ensures HandlesOk(Next(s, step)) && OverwrittenOk(Next(s, step))
    ensures Next(s, step).mode == Connected ==> Next(s, step).tor.Some?
    ensures forall c | c in Next(s, step).stops :: c.attempt in Next(s, step).attempts
    ensures forall a, kind | Comp(a, Tor) in Next(s, step).overwritten :: Comp(a, kind) in Next(s, step).overwritten
  {
    if step.Advance? {
      RestAdvance(s, step.a, step.ok);
    } else {
      hide StopsOf, Backwards, AttemptOk;
      HeldAre(s);
    }
  }

  lemma RestAdvance(s: State, a: nat, ok: bool)
    requires Inv(s) && Enabled(s, Advance(a, ok))
    ensures HandlesOk(AdvanceOne(s, a, ok)) && OverwrittenOk(AdvanceOne(s, a, ok))
    ensures AdvanceOne(s, a, ok).mode == Connected ==> AdvanceOne(s, a, ok).tor.Some?
    ensures forall c | c in AdvanceOne(s, a, ok).stops :: c.attempt in AdvanceOne(s, a, ok).attempts
    ensures forall b, kind | Comp(b, Tor) in AdvanceOne(s, a, ok).overwritten ::
              Comp(b, kind) in AdvanceOne(s, a, ok).overwritten
  {
    hide Held, StopsOf, Backwards, AttemptOk;
    if s.attempts[a].pc == Up(4) {
      PublishKeeps(s, a, ok);
    }
  }

  lemma PublishKeeps(s: State, a: nat, ok: bool)
    requires Inv(s) && a in s.attempts && s.attempts[a].pc == Up(4)
    ensures HandlesOk(AdvanceOne(s, a, ok)) && OverwrittenOk(AdvanceOne(s, a, ok))
    ensures forall b, kind | Comp(b, Tor) in AdvanceOne(s, a, ok).overwritten ::
              Comp(b, kind) in AdvanceOne(s, a, ok).overwritten
  {
    HeldAre(s);
    assert AttemptOk(s, a);
    hide Held, StopsOf, Backwards, AttemptOk;
  }

  /** What every interleaving of connects and disconnects keeps. */
  lemma {:induction false} EveryRunKeeps(steps: seq<Step>)
    requires Run(INITIAL, steps).Some?
    ensures Inv(Run(INITIAL, steps).value)
  {
    if steps != [] {
      EveryRunKeeps(steps[..|steps| - 1]);
      InvStep(Run(INITIAL, steps[..|steps| - 1]).value, steps[|steps| - 1]);
    }
  }

  // --------------------------------------------------- ownership, in every interleaving

  lemma {:induction false} StopsOfMember(stops: seq<Comp>, c: Comp)
    ensures c in StopsOf(stops, c.attempt) <==> c in stops
  {
    if stops != [] {
      var n := |stops| - 1;
      StopsOfMember(stops[..n], c);
      assert stops == stops[..n] + [stops[n]];
    }
  }

  lemma InBackwards(a: nat, from: nat, to: nat, kind: Kind)
    requires to <= from <= 4
    ensures Comp(a, kind) in Backwards(a, from, to) <==> to <= Rank(kind) < from
  {
    var b := Backwards(a, from, to);
    assert ORDER[Rank(kind)] == kind;
    if to <= Rank(kind) < from {
      assert b[from - 1 - Rank(kind)] == Comp(a, kind);
    }
    assert Rank(ORDER[0]) == 0 && Rank(ORDER[1]) == 1 && Rank(ORDER[2]) == 2 && Rank(ORDER[3]) == 3;
    forall i | 0 <= i < |b|
      ensures Rank(b[i].kind) == from - 1 - i
    {
      var j := from - 1 - i;
      assert j == 0 || j == 1 || j == 2 || j == 3;
    }
  }

  /** Exactly the started components that are no longer live have been stopped. */
  lemma StoppedExactly(s: State, c: Comp)
    requires Inv(s)
    ensures c in s.stops <==> Started(s, c) && Rank(c.kind) >= Live(s, c.attempt)
  {
    StopsOfMember(s.stops, c);
    if c.attempt in s.attempts {
      assert AttemptOk(s, c.attempt);
      InBackwards(c.attempt, s.attempts[c.attempt].begun, Live(s, c.attempt), c.kind);
    }
  }

  /** In how many of these hands a component is: an attempt in flight, App, the stopped, the overwritten. */
  function Owners(s: State, c: Comp): nat {
    (if InFlight(s, c) then 1 else 0) + (if c in Held(s) then 1 else 0)
    + (if c in s.stops then 1 else 0) + (if c in s.overwritten then 1 else 0)
  }

  /** In every interleaving a started component has exactly one owner, and any other has none. */
  lemma {:induction false} SingleOwner(steps: seq<Step>, c: Comp)
    requires Run(INITIAL, steps).Some?
    ensures var s := Run(INITIAL, steps).value;
            Owners(s, c) == if Started(s, c) then 1 else 0
  {
    EveryRunKeeps(steps);
    OwnersInState(Run(INITIAL, steps).value, c);
  }

  lemma OwnersInState(s: State, c: Comp)
    requires Inv(s)
    ensures Owners(s, c) == if Started(s, c) then 1 else 0
  {
    hide Held, StopsOf, Backwards;
    StoppedExactly(s, c);
    HeldAre(s);
    var a := c.attempt;
    assert c == Comp(a, c.kind);
    assert c in Held(s) <==> s.tor == Some(Comp(a, Tor));
    assert c in s.overwritten <==> Comp(a, Tor) in s.overwritten;
    if a in s.attempts {
      assert AttemptOk(s, a);
    }
  }

  /** No component is stopped or closed twice. */
  predicate NoRepeats(stops: seq<Comp>) {
    forall i, j | 0 <= i < j < |stops| :: stops[i] != stops[j]
  }

  lemma NoRepeatsAppend(stops: seq<Comp>, more: seq<Comp>)
    requires NoRepeats(stops) && NoRepeats(more) && forall c | c in more :: c !in stops
    ensures NoRepeats(stops + more)
  {
    var all := stops + more;
    forall i, j | 0 <= i < j < |all|
      ensures all[i] != all[j]
    {
      if j >= |stops| {
        assert all[j] == more[j - |stops|] && all[j] in more;
      }
    }
  }

  lemma NoRepeatsStep(s: State, step: Step)
    requires Inv(s) && Enabled(s, step) && NoRepeats(s.stops)
    ensures NoRepeats(Next(s, step).stops)
  {
    hide NoRepeats, Inv, HandlesOk;
    match step
    case Connect(_) =>
    case Advance(a, _) =>
      if s.attempts[a].pc.Down? && s.attempts[a].pc.k > 0 {
        NoRepeatsDown(s, a);
      }
    case Disconnect =>
      if s.mode != Disconnected {
        NoRepeatsDisconnect(s);
      }
  }

  lemma NoRepeatsDown(s: State, a: nat)
    requires Inv(s) && NoRepeats(s.stops) && a in s.attempts
    requires s.attempts[a].pc.Down? && 0 < s.attempts[a].pc.k <= 4
    ensures NoRepeats(s.stops + [Comp(a, ORDER[s.attempts[a].pc.k - 1])])
  {
    hide Inv, NoRepeats;
    var c := Comp(a, ORDER[s.attempts[a].pc.k - 1]);
    StoppedExactly(s, c);
    assert Rank(c.kind) < Live(s, a);
    OnlyOne(c);
    NoRepeatsAppend(s.stops, [c]);
  }

  lemma OnlyOne(c: Comp)
    ensures NoRepeats([c])
  {
  }

  lemma NoRepeatsDisconnect(s: State)
    requires Inv(s) && NoRepeats(s.stops) && s.mode != Disconnected
    ensures NoRepeats(Next(s, Disconnect).stops)
  {
    hide NoRepeats, StopsOf, AttemptOk, OverwrittenOk;
    if s.tor.Some? {
      var a := s.tor.value.attempt;
      var more := [Comp(a, Tun), Comp(a, Dns), Comp(a, Circuits), Comp(a, Tor)];
      HeldNotStopped(s, a);
      assert NoRepeats(more) by { FourDiffer(a); }
      NoRepeatsAppend(s.stops, more);
      assert s.stops + One(s.tun) + One(s.dns) + One(s.circuits) + One(s.tor) == s.stops + more;
    } else {
      assert s.stops + [] + [] + [] + [] == s.stops;
    }
  }

  lemma FourDiffer(a: nat)
    ensures NoRepeats([Comp(a, Tun), Comp(a, Dns), Comp(a, Circuits), Comp(a, Tor)])
  {
  }

  lemma HeldNotStopped(s: State, a: nat)
    requires Inv(s) && HandlesOf(s, a)
    ensures forall kind :: Comp(a, kind) !in s.stops
  {
    hide Inv;
    forall kind: Kind
      ensures Comp(a, kind) !in s.stops
    {
      StoppedExactly(s, Comp(a, kind));
    }
  }

  lemma {:induction false} NothingStoppedTwice(steps: seq<Step>)
    requires Run(INITIAL, steps).Some?
    ensures NoRepeats(Run(INITIAL, steps).value.stops)
  {
    if steps != [] {
      var n := |steps| - 1;
      NothingStoppedTwice(steps[..n]);
      EveryRunKeeps(steps[..n]);
      NoRepeatsStep(Run(INITIAL, steps[..n]).value, steps[n]);
    }
  }

  /** The handles are all nil or all of one attempt, and "connected" means they are set. */
  lemma HandlesTogether(steps: seq<Step>)
    requires Run(INITIAL, steps).Some?
    ensures var s := Run(INITIAL, steps).value;
            && (s.mode == Connected ==> s.tor.Some?)
            && ((s.tor == s.dns == s.tun == s.circuits == None)
                || exists a :: HandlesOf(s, a))
  {
    EveryRunKeeps(steps);
  }

  /** Once none of its components is live, an attempt's stops are its starts in exactly reverse order. */
  lemma StopsReverseStarts(steps: seq<Step>, a: nat)
    requires Run(INITIAL, steps).Some? && a in Run(INITIAL, steps).value.attempts
    ensures var s := Run(INITIAL, steps).value;
            && s.attempts[a].begun <= 4 && Live(s, a) <= s.attempts[a].begun
            && StopsOf(s.stops, a) == Backwards(a, s.attempts[a].begun, Live(s, a))
  {
    EveryRunKeeps(steps);
    assert AttemptOk(Run(INITIAL, steps).value, a);
  }

  // ------------------------------------------------------------------------ leaks

  /** No step of the run is a disconnect accepted while connecting. */
  ghost predicate Calm(steps: seq<Step>) {
    forall i | 0 <= i < |steps| && steps[i] == Disconnect ::
      Run(INITIAL, steps[..i]).Some? ==> Run(INITIAL, steps[..i]).value.mode != Connecting
  }

  predicate Flying(s: State, a: nat) {
    a in s.attempts && !s.attempts[a].pc.Ended?
  }

  /** Nothing overwritten, handles set iff "connected", at most one attempt in flight. */
  ghost predicate OneAtATime(s: State) {
    && s.overwritten == {}
    && (s.tor.Some? <==> s.mode == Connected)
    && (forall a, b | Flying(s, a) && Flying(s, b) :: a == b)
  }

  /** One at a time, and "connecting" means that one is in flight. */
  ghost predicate CalmInv(s: State) {
    OneAtATime(s) && (s.mode == Connecting <==> exists a :: Flying(s, a))
  }

  lemma CalmStep(s: State, step: Step)
    requires Inv(s) && CalmInv(s) && Enabled(s, step)
    requires step == Disconnect ==> s.mode != Connecting
    ensures CalmInv(Next(s, step))
  {
    hide StopsOf, Backwards;
    var t := Next(s, step);
    match step
    case Connect(a) =>
      assert s.mode == Disconnected ==> Flying(t, a);
      assert forall x | Flying(t, x) :: Flying(s, x) || (s.mode == Disconnected && x == a);
    case Advance(a, _) =>
      assert Flying(s, a) && AttemptOk(s, a);
      assert Held(s) == {};
      assert Flying(t, a) || t.attempts[a].pc.Ended?;
      assert forall x | Flying(t, x) :: x == a || Flying(s, x);
    case Disconnect =>
      assert forall x | Flying(t, x) :: Flying(s, x);
  }

  lemma {:induction false} CalmRunsKeep(steps: seq<Step>)
    requires Run(INITIAL, steps).Some? && Calm(steps)
    ensures Inv(Run(INITIAL, steps).value) && CalmInv(Run(INITIAL, steps).value)
  {
    EveryRunKeeps(steps);
    if steps != [] {
      var n := |steps| - 1;
      assert forall i | 0 <= i < n :: steps[..n][..i] == steps[..i];
      CalmRunsKeep(steps[..n]);
      CalmStep(Run(INITIAL, steps[..n]).value, steps[n]);
    }
  }

  /**
   Without a disconnect while connecting nothing leaks: no handle is overwritten, every started component
   is stopped, in flight or held, and "disconnected" means that all of them have been stopped.
   */
  lemma CalmRunsDoNotLeak(steps: seq<Step>, c: Comp)
    requires Run(INITIAL, steps).Some? && Calm(steps)
    ensures var s := Run(INITIAL, steps).value;
            && s.overwritten == {}
            && (Started(s, c) <==> c in s.stops || InFlight(s, c) || c in Held(s))
            && (s.mode == Disconnected ==> !InFlight(s, c) && c !in Held(s))
            && (s.mode == Connecting <==> exists a :: Flying(s, a))
  {
    hide Held, Run, StopsOf, Backwards, AttemptOk;
    CalmRunsKeep(steps);
    var s := Run(INITIAL, steps).value;
    SingleOwner(steps, c);
    HeldAre(s);
    assert InFlight(s, c) ==> Flying(s, c.attempt);
  }

  /** A component runs that no future stop can reach while the state stays as it is. */
  predicate Leaked(s: State) {
    s.overwritten != {} || (s.mode == Disconnected && Held(s) != {})
  }

  lemma Extend(s: State, steps: seq<Step>, step: Step)
    requires Run(s, steps).Some? && Enabled(Run(s, steps).value, step)
    ensures Run(s, steps + [step]) == Some(Next(Run(s, steps).value, step))
  {
    assert (steps + [step])[..|steps|] == steps;
  }

  /** No further command of the user. */
  predicate OnlyAdvances(steps: seq<Step>) {
    forall step | step in steps :: step.Advance?
  }

  /** An attempt in flight with k components can go on to publish, or to give up. */
  lemma {:induction false} CanEnd(s: State, before: seq<Step>, a: nat) returns (steps: seq<Step>)
    requires Run(s, before).Some? && Flying(Run(s, before).value, a)
    requires var at := Run(s, before).value.attempts[a]; at.pc.k <= 4
    ensures before <= steps && Run(s, steps).Some? && OnlyAdvances(steps[|before|..])
    ensures var u, t := Run(s, before).value, Run(s, steps).value;
            && a in t.attempts && t.attempts[a].pc.Ended? && t.attempts == u.attempts[a := t.attempts[a]]
            && (u.attempts[a].pc.Up? ==>
                  t.mode == Connected && t.tor == Some(Comp(a, Tor)) && Handle(u.tor) <= t.overwritten)
            && (u.attempts[a].pc.Down? ==>
                  t.mode == Disconnected && t.tor == u.tor && t.overwritten == u.overwritten)
    decreases var at := Run(s, before).value.attempts[a];
              if at.pc.Up? then 4 - at.pc.k else at.pc.k
  {
    var u := Run(s, before).value;
    hide Run;
    Extend(s, before, Advance(a, true));
    steps := before + [Advance(a, true)];
    var v := Next(u, Advance(a, true));
    if !v.attempts[a].pc.Ended? {
      steps := CanEnd(s, steps, a);
    }
  }

  predicate LeakingRun(steps: seq<Step>) {
    Run(INITIAL, steps).Some? && Leaked(Run(INITIAL, steps).value)
  }

  // ---------------------------------------------------- exactly when a leak can follow

  /** The attempts in flight can bring about a leak: one that may publish, or give up, beside handles in use. */
  ghost predicate AtRisk(s: State) {
    || Leaked(s)
    || (Held(s) != {} && exists a :: Flying(s, a))
    || (exists a, b :: a != b && Flying(s, a) && Flying(s, b) && s.attempts[a].pc.Up?)
  }

  lemma NoRiskStep(s: State, a: nat, ok: bool)
    requires Inv(s) && !AtRisk(s) && Enabled(s, Advance(a, ok))
    ensures !AtRisk(AdvanceOne(s, a, ok))
  {
    hide AttemptOk, StopsOf, Backwards, HandlesOk, OverwrittenOk;
    var t := AdvanceOne(s, a, ok);
    assert Flying(s, a);
    assert forall x | Flying(t, x) :: Flying(s, x);
    assert forall x | x != a && Flying(t, x) :: t.attempts[x] == s.attempts[x];
    assert t.attempts[a].pc.Up? ==> s.attempts[a].pc.Up?;
  }

  lemma {:induction false} NoRiskStays(steps: seq<Step>, more: seq<Step>)
    requires Run(INITIAL, steps).Some? && !AtRisk(Run(INITIAL, steps).value)
    requires OnlyAdvances(more) && Run(INITIAL, steps + more).Some?
    ensures !AtRisk(Run(INITIAL, steps + more).value)
    decreases |more|
  {
    hide AtRisk, Inv, Next, Enabled;
    if more == [] {
      assert steps + more == steps;
    } else {
      var n := |more| - 1;
      assert (steps + more)[..|steps + more| - 1] == steps + more[..n];
      assert more[n] in more;
      NoRiskStays(steps, more[..n]);
      EveryRunKeeps(steps + more[..n]);
      OneMoreAdvance(Run(INITIAL, steps + more[..n]).value, more[n]);
    }
  }

  lemma OneMoreAdvance(s: State, step: Step)
    requires Inv(s) && !AtRisk(s) && step.Advance? && Enabled(s, step)
    ensures !AtRisk(Next(s, step))
  {
    hide Inv, AtRisk;
    NoRiskStep(s, step.a, step.ok);
  }

  /** With handles in use, any attempt in flight leaks when it ends. */
  lemma EndLeaks(steps: seq<Step>, a: nat) returns (all: seq<Step>)
    requires Run(INITIAL, steps).Some? && Flying(Run(INITIAL, steps).value, a)
    requires Held(Run(INITIAL, steps).value) != {}
    ensures steps <= all && OnlyAdvances(all[|steps|..]) && LeakingRun(all)
  {
    EveryRunKeeps(steps);
    var s := Run(INITIAL, steps).value;
    assert AttemptOk(s, a);
    hide Run, AttemptOk, OverwrittenOk;
    assert s.tor.Some?;
    all := CanEnd(INITIAL, steps, a);
    var t := Run(INITIAL, all).value;
    assert s.tor.value in Handle(s.tor) && t.tor.value in Held(t);
  }

  /** Of two attempts in flight one that may publish does, and the other then ends. */
  lemma TwoLeak(steps: seq<Step>, a: nat, b: nat) returns (all: seq<Step>)
    requires Run(INITIAL, steps).Some?
    requires var s := Run(INITIAL, steps).value; a != b && Flying(s, a) && Flying(s, b) && s.attempts[a].pc.Up?
    ensures steps <= all && OnlyAdvances(all[|steps|..]) && LeakingRun(all)
  {
    EveryRunKeeps(steps);
    assert AttemptOk(Run(INITIAL, steps).value, a);
    hide Run, Inv, AttemptOk, LeakingRun;
    var one := CanEnd(INITIAL, steps, a);
    var t := Run(INITIAL, one).value;
    assert t.tor.value in Held(t);
    all := EndLeaks(one, b);
    assert all[|steps|..] == one[|steps|..] + all[|one|..];
  }

  lemma RiskLeaks(steps: seq<Step>) returns (more: seq<Step>)
    requires Run(INITIAL, steps).Some? && AtRisk(Run(INITIAL, steps).value)
    ensures OnlyAdvances(more) && LeakingRun(steps + more)
  {
    hide Run, Held;
    var s := Run(INITIAL, steps).value;
    var all := steps;
    if Leaked(s) {
    } else if Held(s) != {} {
      var a :| Flying(s, a);
      all := EndLeaks(steps, a);
    } else {
      var a, b :| a != b && Flying(s, a) && Flying(s, b) && s.attempts[a].pc.Up?;
      all := TwoLeak(steps, a, b);
    }
    more := all[|steps|..];
    assert steps + more == all;
  }

  /** The run has a continuation that leaks, without any further command. */
  ghost predicate CanLeak(steps: seq<Step>) {
    exists more :: OnlyAdvances(more) && LeakingRun(steps + more)
  }

  /** In every interleaving: a leak can follow without any further command iff the state is at risk. */
  lemma {:induction false} CanLeakExactly(steps: seq<Step>)
    requires Run(INITIAL, steps).Some?
    ensures CanLeak(steps) <==> AtRisk(Run(INITIAL, steps).value)
  {
    hide Run, Leaked, AtRisk;
    if AtRisk(Run(INITIAL, steps).value) {
      var more := RiskLeaks(steps);
    } else if more :| OnlyAdvances(more) && LeakingRun(steps + more) {
      NoRiskStays(steps, more);
      LeakIsRisk(Run(INITIAL, steps + more).value);
    }
  }

  lemma LeakIsRisk(s: State)
    ensures Leaked(s) ==> AtRisk(s)
  {
  }

  /** No connect is accepted while an attempt is in flight. */
  ghost predicate Sole(steps: seq<Step>) {
    forall i | 0 <= i < |steps| && steps[i].Connect? :: !Overlaps(steps[..i])
  }

  /** The mode is "disconnected" with an attempt in flight; a connect accepted now would run beside it. */
  ghost predicate Overlaps(steps: seq<Step>) {
    && Run(INITIAL, steps).Some? && Run(INITIAL, steps).value.mode == Disconnected
    && exists a :: Flying(Run(INITIAL, steps).value, a)
  }

  /** One at a time, and none while the handles are in use. */
  ghost predicate SoleInv(s: State) {
    OneAtATime(s) && (s.mode == Connected ==> forall a :: !Flying(s, a))
  }

  lemma SoleStep(s: State, step: Step)
    requires Inv(s) && SoleInv(s) && Enabled(s, step)
    requires step.Connect? && s.mode == Disconnected ==> forall a :: !Flying(s, a)
    ensures SoleInv(Next(s, step))
  {
    hide StopsOf, Backwards, AttemptOk, OverwrittenOk;
    var t := Next(s, step);
    match step
    case Connect(a) =>
      assert forall x | Flying(t, x) :: Flying(s, x) || (s.mode == Disconnected && x == a);
    case Advance(a, _) =>
      assert Flying(s, a) && Held(s) == {};
      assert forall x | Flying(t, x) :: Flying(s, x);
    case Disconnect =>
      assert forall x | Flying(t, x) :: Flying(s, x);
  }

  lemma {:induction false} SoleRunsKeep(steps: seq<Step>)
    requires Run(INITIAL, steps).Some? && Sole(steps)
    ensures SoleInv(Run(INITIAL, steps).value)
  {
    hide Inv, SoleInv, Next, Enabled;
    if steps == [] {
      assert SoleInv(INITIAL) by { NothingFlies(); }
    } else {
      var n := |steps| - 1;
      assert forall i | 0 <= i < n :: steps[..n][..i] == steps[..i];
      SoleRunsKeep(steps[..n]);
      EveryRunKeeps(steps[..n]);
      assert steps[n].Connect? ==> !Overlaps(steps[..n]);
      SoleStep(Run(INITIAL, steps[..n]).value, steps[n]);
    }
  }

  lemma NothingFlies()
    ensures SoleInv(INITIAL) && CalmInv(INITIAL)
  {
  }

  lemma SoleIsNoRisk(s: State)
    requires Inv(s) && SoleInv(s)
    ensures !AtRisk(s)
  {
    hide AttemptOk, OverwrittenOk, StopsOf;
    assert s.mode != Connected ==> Held(s) == {};
  }

  /** Every prefix of a run is a run. */
  lemma {:induction false} RunPrefix(steps: seq<Step>, i: nat)
    requires Run(INITIAL, steps).Some? && i <= |steps|
    ensures Run(INITIAL, steps[..i]).Some?
    decreases |steps| - i
  {
    if i < |steps| {
      RunPrefix(steps, i + 1);
      assert steps[..i + 1][..i] == steps[..i];
    } else {
      assert steps[..i] == steps;
    }
  }

  /** One step further into a run. */
  lemma RunStep(steps: seq<Step>, i: nat)
    requires Run(INITIAL, steps).Some? && i < |steps|
    ensures Run(INITIAL, steps[..i]).Some? && Enabled(Run(INITIAL, steps[..i]).value, steps[i])
    ensures Run(INITIAL, steps[..i + 1]) == Some(Next(Run(INITIAL, steps[..i]).value, steps[i]))
  {
    hide Next, Enabled;
    RunPrefix(steps, i);
    RunPrefix(steps, i + 1);
    assert steps[..i + 1][..i] == steps[..i];
  }

  lemma OverlapIsRisk(steps: seq<Step>, i: nat)
    requires Run(INITIAL, steps).Some? && i < |steps| && steps[i].Connect? && Overlaps(steps[..i])
    ensures Run(INITIAL, steps[..i + 1]).Some? && AtRisk(Run(INITIAL, steps[..i + 1]).value)
  {
    RunStep(steps, i);
    var s, b := Run(INITIAL, steps[..i]).value, steps[i].a;
    hide Run, Leaked, Held;
    var a :| Flying(s, a);
    var t := Next(s, steps[i]);
    assert a != b && Flying(t, b) && Flying(t, a) && t.attempts[b].pc.Up?;
  }

  /**
   The exact condition. A run is never, at any point, able to leak without a further command iff no connect
   is accepted while an earlier attempt is still in flight.
   */
  lemma {:induction false} LeakFreeExactly(steps: seq<Step>)
    requires Run(INITIAL, steps).Some?
    ensures Sole(steps) <==> forall i: nat | i <= |steps| :: !CanLeak(steps[..i])
  {
    hide Run, AtRisk, SoleInv, Inv, CanLeak, Overlaps;
    if Sole(steps) {
      forall i: nat | i <= |steps|
        ensures !CanLeak(steps[..i])
      {
        RunPrefix(steps, i);
        assert forall j | 0 <= j < i :: steps[..i][..j] == steps[..j];
        SoleRunsKeep(steps[..i]);
        EveryRunKeeps(steps[..i]);
        SoleIsNoRisk(Run(INITIAL, steps[..i]).value);
        CanLeakExactly(steps[..i]);
      }
    } else {
      var i :| 0 <= i < |steps| && steps[i].Connect? && Overlaps(steps[..i]);
      OverlapIsRisk(steps, i);
      CanLeakExactly(steps[..i + 1]);
    }
  }

  /** The guard of one connect: after a run free of overlaps, accepting it can lead to a leak iff one is in flight. */
  lemma {:induction false} ConnectLeaksExactly(steps: seq<Step>, b: nat)
    requires Run(INITIAL, steps).Some? && Sole(steps)
    requires b !in Run(INITIAL, steps).value.attempts && Run(INITIAL, steps).value.mode == Disconnected
    ensures CanLeak(steps + [Connect(b)]) <==> exists a :: Flying(Run(INITIAL, steps).value, a)
  {
    var all, n := steps + [Connect(b)], |steps|;
    Extend(INITIAL, steps, Connect(b));
    hide Run, AtRisk, SoleInv, Inv, CanLeak;
    assert all[..n] == steps && all[..n + 1] == all;
    if Overlaps(steps) {
      OverlapIsRisk(all, n);
      CanLeakExactly(all);
    } else {
      assert forall i | 0 <= i < n :: all[..i] == steps[..i];
      assert Sole(all);
      LeakFreeExactly(all);
    }
  }

  lemma CalmPrefix(steps: seq<Step>, i: nat)
    requires Calm(steps) && i <= |steps|
    ensures Calm(steps[..i])
  {
    hide Run;
    assert forall j | 0 <= j < i :: steps[..i][..j] == steps[..j];
  }

  lemma CalmIsSole(steps: seq<Step>)
    requires Run(INITIAL, steps).Some? && Calm(steps)
    ensures Sole(steps)
  {
    hide Run, Inv, CalmInv, Overlaps, Calm;
    forall i | 0 <= i < |steps| && steps[i].Connect?
      ensures !Overlaps(steps[..i])
    {
      RunPrefix(steps, i);
      CalmPrefix(steps, i);
      CalmRunsKeep(steps[..i]);
      CalmHasNoOverlap(steps[..i]);
    }
  }

  lemma CalmHasNoOverlap(steps: seq<Step>)
    requires Run(INITIAL, steps).Some? && CalmInv(Run(INITIAL, steps).value)
    ensures !Overlaps(steps)
  {
    hide Run;
  }

  /**
   Disconnecting and connecting again after a calm run can leak, without any further command, iff the
   disconnect came while connecting.
   */
  lemma {:induction false} DisconnectLeaksExactly(steps: seq<Step>, b: nat)
    requires Run(INITIAL, steps).Some? && Calm(steps) && b !in Run(INITIAL, steps).value.attempts
    ensures CanLeak(steps + [Disconnect] + [Connect(b)]) <==> Run(INITIAL, steps).value.mode == Connecting
  {
    var off := steps + [Disconnect];
    var s, n := Run(INITIAL, steps).value, |steps|;
    Extend(INITIAL, steps, Disconnect);
    hide Run, Calm, CalmInv, Inv, CanLeak;
    CalmRunsKeep(steps);
    CalmIsSole(steps);
    assert off[..n] == steps;
    assert forall i | 0 <= i < n :: off[..i] == steps[..i];
    assert Sole(off);
    ConnectLeaksExactly(off, b);
    var t := Next(s, Disconnect);
    assert forall a :: Flying(t, a) <==> Flying(s, a);
    FlyingWhenConnecting(s);
  }

  lemma FlyingWhenConnecting(s: State)
    requires CalmInv(s)
    ensures s.mode == Connecting <==> exists a :: Flying(s, a)
  {
  }

  /** A leak does happen: connect, disconnect while connecting, connect again. */
  lemma LeakHappens()
    ensures CanLeak([Connect(0)] + [Disconnect] + [Connect(1)])
  {
    var steps := [Connect(0)];
    assert Run(INITIAL, []) == Some(INITIAL);
    Extend(INITIAL, [], Connect(0));
    assert [] + [Connect(0)] == steps;
    hide CanLeak;
    DisconnectLeaksExactly(steps, 1);
  }

  lemma {:induction false} NoOverlapIsCalm(steps: seq<Step>)
    requires Run(INITIAL, steps).Some? && forall i: nat | i <= |steps| :: !Overlaps(steps[..i])
    ensures Calm(steps)
  {
    hide Overlaps, Run, CalmInv, Inv;
    if steps != [] {
      var n := |steps| - 1;
      RunStep(steps, n);
      assert forall i | 0 <= i <= n :: steps[..n][..i] == steps[..i];
      NoOverlapIsCalm(steps[..n]);
      CalmRunsKeep(steps[..n]);
      assert steps[..n + 1] == steps;
      if steps[n] == Disconnect && Run(INITIAL, steps[..n]).value.mode == Connecting {
        DisconnectOverlaps(steps[..n], steps);
      }
    }
  }

  lemma DisconnectOverlaps(before: seq<Step>, steps: seq<Step>)
    requires Run(INITIAL, before).Some? && CalmInv(Run(INITIAL, before).value)
    requires Run(INITIAL, before).value.mode == Connecting
    requires Run(INITIAL, steps) == Some(Next(Run(INITIAL, before).value, Disconnect))
    ensures Overlaps(steps)
  {
    hide Run;
    var s := Run(INITIAL, before).value;
    var a :| Flying(s, a);
    assert Flying(Next(s, Disconnect), a);
  }

  /**
   The exact meaning of calm: "disconnected" is at no point the mode while an attempt is in flight iff no
   disconnect is accepted while connecting.
   */
  lemma {:induction false} CalmExactly(steps: seq<Step>)
    requires Run(INITIAL, steps).Some?
    ensures Calm(steps) <==> forall i: nat | i <= |steps| :: !Overlaps(steps[..i])
  {
    hide Run, Inv, CalmInv, Overlaps, Calm;
    if Calm(steps) {
      forall i: nat | i <= |steps|
        ensures !Overlaps(steps[..i])
      {
        RunPrefix(steps, i);
        CalmPrefix(steps, i);
        CalmRunsKeep(steps[..i]);
        CalmHasNoOverlap(steps[..i]);
      }
    }
    if forall i: nat | i <= |steps| :: !Overlaps(steps[..i]) {
      NoOverlapIsCalm(steps);
    }
  }
}
