/** `App` with its fields; its two methods, run alone, are runs of the machine of `Lifecycle`. */
module AppLifecycle {
  import opened Basics
  import opened Lifecycle

  /** How many components an attempt starts, given which constructors succeed. */
  function Begun(torOk: bool, dnsOk: bool, tunOk: bool): nat {
    if !torOk then 0 else if !dnsOk then 2 else if !tunOk then 3 else 4
  }

  /** The effect of a whole `connect` with nothing running beside it. */
  function ConnectAlone(s: State, a: nat, begun: nat): State
    requires begun <= 4
  {
    if s.mode != Disconnected then s
    else if begun == 4 then
      Set(s, a, Ended, 4).(
      mode := Connected,
      tor := Some(Comp(a, Tor)), dns := Some(Comp(a, Dns)),
      tun := Some(Comp(a, Tun)), circuits := Some(Comp(a, Circuits)),
      overwritten := s.overwritten + Held(s))
    else Set(s, a, Ended, begun).(stops := s.stops + Backwards(a, begun, 0))
  }

  class App {
    var mode: Mode
    var torCtrl: Option<Comp>
    var dnsServer: Option<Comp>
    var tunDev: Option<Comp>
    var circuitMgr: Option<Comp>

    /** Every Stop or Close call so far. */
    var stops: seq<Comp>

    ghost var attempts: map<nat, Attempt>
    ghost var overwritten: set<Comp>

    constructor ()
      ensures View() == INITIAL
    {
      mode := Disconnected;
      torCtrl, dnsServer, tunDev, circuitMgr := None, None, None, None;
      stops, attempts, overwritten := [], map[], {};
    }

    ghost function View(): State
      reads this
    {
      State(mode, torCtrl, dnsServer, tunDev, circuitMgr, attempts, stops, overwritten)
    }

    /** The attempt named `a`; the flags say which constructors succeed, and whether the bootstrap does. */
    method Connect(a: nat, torOk: bool, bootOk: bool, dnsOk: bool, tunOk: bool)
      returns (ok: bool, warned: bool)
      modifies this
      ensures ok <==> old(mode) == Disconnected && torOk && dnsOk && tunOk
      ensures View() == ConnectAlone(old(View()), a, Begun(torOk, dnsOk, tunOk))
      ensures warned <==> old(mode) == Disconnected && torOk && !bootOk
    {
      warned := false;
      if mode != Disconnected {
        return false, warned;
      }
      mode := Connecting;

      // 1. Start Tor
      if !torOk {
        mode := Disconnected;
        attempts := attempts[a := Attempt(Ended, 0)];
        assert stops == stops + Backwards(a, 0, 0);
        return false, warned;
      }
      var tor := Comp(a, Tor);

      // 2. Bootstrap
      if !bootOk {
        warned := true;
      }

      // 3. Circuit manager
      var cm := Comp(a, Circuits);

      // 4. DNS server
      if !dnsOk {
        assert Backwards(a, 2, 0) == [cm, tor];
        stops := stops + [cm];
        stops := stops + [tor];
        mode := Disconnected;
        attempts := attempts[a := Attempt(Ended, 2)];
        return false, warned;
      }
      var dns := Comp(a, Dns);

      // 5. TUN interface
      if !tunOk {
        assert Backwards(a, 3, 0) == [dns, cm, tor];
        stops := stops + [dns];
        stops := stops + [cm];
        stops := stops + [tor];
        mode := Disconnected;
        attempts := attempts[a := Attempt(Ended, 3)];
        return false, warned;
      }
      var tun := Comp(a, Tun);

      overwritten := overwritten + Held(View());
      attempts := attempts[a := Attempt(Ended, 4)];
      torCtrl := Some(tor);
      dnsServer := Some(dns);
      tunDev := Some(tun);
      circuitMgr := Some(cm);
      mode := Connected;
      return true, warned;
    }

    method Disconnect()
      modifies this
      ensures View() == Next(old(View()), Lifecycle.Step.Disconnect)
    {
      if mode == Disconnected {
        return;
      }
      mode := Disconnected;
      if tunDev.Some? {
        stops := stops + [tunDev.value];
        tunDev := None;
      }
      assert stops == old(stops) + One(old(tunDev));
      if dnsServer.Some? {
        stops := stops + [dnsServer.value];
        dnsServer := None;
      }
      assert stops == old(stops) + One(old(tunDev)) + One(old(dnsServer));
      if circuitMgr.Some? {
        stops := stops + [circuitMgr.value];
        circuitMgr := None;
      }
      assert stops == old(stops) + One(old(tunDev)) + One(old(dnsServer)) + One(old(circuitMgr));
      if torCtrl.Some? {
        stops := stops + [torCtrl.value];
        torCtrl := None;
      }
    }
  }

  /** Giving up with k components stops them, last started first, and frees the mode. */
  lemma {:induction false} GiveUp(s: State, before: seq<Step>, a: nat, k: nat)
    requires Run(s, before).Some? && k < 4
    requires a in Run(s, before).value.attempts && Run(s, before).value.attempts[a].pc == Down(k)
    ensures var u := Run(s, before).value;
            Run(s, before + Closing(a, k))
            == Some(Set(u, a, Ended, u.attempts[a].begun).(
                    mode := Disconnected, stops := u.stops + Backwards(a, k, 0)))
    decreases k
  {
    var u := Run(s, before).value;
    Extend(s, before, Advance(a, true));
    hide Run;
    var v := Next(u, Advance(a, true));
    var after := before + [Advance(a, true)];
    if k == 0 {
      assert Closing(a, 0) == [Advance(a, true)];
      assert u.stops + Backwards(a, 0, 0) == u.stops;
    } else {
      GiveUp(s, after, a, k - 1);
      assert after + Closing(a, k - 1) == before + Closing(a, k);
      assert [Comp(a, ORDER[k - 1])] + Backwards(a, k - 1, 0) == Backwards(a, k, 0);
      assert v.stops + Backwards(a, k - 1, 0) == u.stops + Backwards(a, k, 0);
      var t := Set(v, a, Ended, v.attempts[a].begun);
      assert t.attempts == u.attempts[a := Attempt(Ended, u.attempts[a].begun)];
    }
  }

  /** What `connect` does up to the first constructor that fails, or to the last: every call, and how it ends. */
  function Opening(a: nat, torOk: bool, bootOk: bool, dnsOk: bool, tunOk: bool): seq<Step> {
    if !torOk then [Lifecycle.Step.Connect(a), Advance(a, false)]
    else if !dnsOk then
      [Lifecycle.Step.Connect(a), Advance(a, true), Advance(a, bootOk), Advance(a, false)]
    else
      [Lifecycle.Step.Connect(a), Advance(a, true), Advance(a, bootOk), Advance(a, true), Advance(a, tunOk)]
  }

  /** Two more steps are one after the other. */
  lemma Extend2(s: State, steps: seq<Step>, x: Step, y: Step)
    requires Run(s, steps).Some? && Enabled(Run(s, steps).value, x)
    requires Enabled(Next(Run(s, steps).value, x), y)
    ensures Run(s, steps + [x, y]) == Some(Next(Next(Run(s, steps).value, x), y))
  {
    hide Run, Next, Enabled;
    Extend(s, steps, x);
    Extend(s, steps + [x], y);
    assert steps + [x] + [y] == steps + [x, y];
  }

  /** The bootstrap may fail: either way Tor and then the circuit manager are started, and nothing else. */
  lemma {:induction false} BootstrapIsIgnored(s: State, a: nat, bootOk: bool)
    requires a !in s.attempts && s.mode == Disconnected
    ensures var u := Run(s, [Lifecycle.Step.Connect(a), Advance(a, true), Advance(a, bootOk)]);
            && u == Some(Set(s, a, Up(2), 2).(mode := Connecting))
            && (forall kind :: Started(u.value, Comp(a, kind)) <==> kind == Tor || kind == Circuits)
            && u.value.stops == s.stops
  {
    hide Run;
    var enter := Lifecycle.Step.Connect(a);
    EmptyRun(s);
    Extend(s, [], enter);
    assert [] + [enter] == [enter];
    Extend2(s, [enter], Advance(a, true), Advance(a, bootOk));
    assert [enter] + [Advance(a, true), Advance(a, bootOk)] == [enter, Advance(a, true), Advance(a, bootOk)];
    var u := Run(s, [enter, Advance(a, true), Advance(a, bootOk)]).value;
    assert u.attempts == s.attempts[a := Attempt(Up(2), 2)];
    forall kind: Kind
      ensures Started(u, Comp(a, kind)) <==> kind == Tor || kind == Circuits
    {
      assert kind.Tor? || kind.Circuits? || kind.Dns? || kind.Tun?;
    }
  }

  /** An attempt entered while "disconnected", up to the first constructor that fails. */
  lemma {:induction false} StartUp(s: State, a: nat, torOk: bool, bootOk: bool, dnsOk: bool, tunOk: bool)
    requires a !in s.attempts && s.mode == Disconnected
    ensures OwnSteps(a, Opening(a, torOk, bootOk, dnsOk, tunOk))
    ensures var n := Begun(torOk, dnsOk, tunOk);
            Run(s, Opening(a, torOk, bootOk, dnsOk, tunOk))
            == Some(Set(s, a, if n == 4 then Up(4) else Down(n), n).(mode := Connecting))
  {
    hide Run, Set;
    if !torOk {
      TorFails(s, a);
    } else {
      BootstrapIsIgnored(s, a, bootOk);
      var booted := [Lifecycle.Step.Connect(a), Advance(a, true), Advance(a, bootOk)];
      if !dnsOk {
        DnsFails(s, a, booted);
        assert booted + [Advance(a, false)] == Opening(a, torOk, bootOk, dnsOk, tunOk);
      } else {
        TunStep(s, a, booted, tunOk);
        assert booted + [Advance(a, true), Advance(a, tunOk)] == Opening(a, torOk, bootOk, dnsOk, tunOk);
      }
    }
  }

  lemma SetTwice(s: State, a: nat, p: Pc, i: nat, q: Pc, j: nat)
    ensures Set(Set(s, a, p, i).(mode := Connecting), a, q, j) == Set(s, a, q, j).(mode := Connecting)
  {
    assert s.attempts[a := Attempt(p, i)][a := Attempt(q, j)] == s.attempts[a := Attempt(q, j)];
  }

  lemma TorFails(s: State, a: nat)
    requires a !in s.attempts && s.mode == Disconnected
    ensures Run(s, [Lifecycle.Step.Connect(a), Advance(a, false)])
         == Some(Set(s, a, Down(0), 0).(mode := Connecting))
  {
    hide Run;
    EmptyRun(s);
    Extend2(s, [], Lifecycle.Step.Connect(a), Advance(a, false));
    assert [] + [Lifecycle.Step.Connect(a), Advance(a, false)] == [Lifecycle.Step.Connect(a), Advance(a, false)];
    SetTwice(s, a, Up(0), 0, Down(0), 0);
  }

  lemma DnsFails(s: State, a: nat, booted: seq<Step>)
    requires Run(s, booted) == Some(Set(s, a, Up(2), 2).(mode := Connecting))
    ensures Run(s, booted + [Advance(a, false)]) == Some(Set(s, a, Down(2), 2).(mode := Connecting))
  {
    hide Run;
    Extend(s, booted, Advance(a, false));
    SetTwice(s, a, Up(2), 2, Down(2), 2);
  }

  lemma TunStep(s: State, a: nat, booted: seq<Step>, tunOk: bool)
    requires Run(s, booted) == Some(Set(s, a, Up(2), 2).(mode := Connecting))
    ensures Run(s, booted + [Advance(a, true), Advance(a, tunOk)])
         == Some(Set(s, a, if tunOk then Up(4) else Down(3), if tunOk then 4 else 3).(mode := Connecting))
  {
    hide Run;
    Extend2(s, booted, Advance(a, true), Advance(a, tunOk));
    SetTwice(s, a, Up(2), 2, Up(3), 3);
    SetTwice(s, a, Up(3), 3, if tunOk then Up(4) else Down(3), if tunOk then 4 else 3);
    SetTwice(s, a, Up(2), 2, if tunOk then Up(4) else Down(3), if tunOk then 4 else 3);
  }

  /** What follows the opening: publishing, or stopping what was started and giving up. */
  function Closing(a: nat, begun: nat): seq<Step> {
    if begun == 4 then [Advance(a, true)] else seq(begun + 1, i => Advance(a, true))
  }

  /** `Connect`, run alone, is exactly the attempt's own steps in the machine, whether or not Tor bootstraps. */
  lemma {:induction false} ConnectAloneIsARun(
    s: State, a: nat, torOk: bool, bootOk: bool, dnsOk: bool, tunOk: bool)
    requires a !in s.attempts
    ensures s.mode != Disconnected ==>
              Run(s, [Lifecycle.Step.Connect(a)]) == Some(ConnectAlone(s, a, Begun(torOk, dnsOk, tunOk))) == Some(s)
    ensures s.mode == Disconnected ==>
              var steps := Opening(a, torOk, bootOk, dnsOk, tunOk) + Closing(a, Begun(torOk, dnsOk, tunOk));
              OwnSteps(a, steps) && Run(s, steps) == Some(ConnectAlone(s, a, Begun(torOk, dnsOk, tunOk)))
  {
    hide Run, Backwards;
    if s.mode == Disconnected {
      var n, up := Begun(torOk, dnsOk, tunOk), Opening(a, torOk, bootOk, dnsOk, tunOk);
      StartUp(s, a, torOk, bootOk, dnsOk, tunOk);
      hide Opening;
      var u := Run(s, up).value;
      assert u.attempts[a := Attempt(Ended, n)] == s.attempts[a := Attempt(Ended, n)];
      if n == 4 {
        Extend(s, up, Advance(a, true));
      } else {
        GiveUp(s, up, a, n);
      }
    } else {
      EmptyRun(s);
      Extend(s, [], Lifecycle.Step.Connect(a));
      assert [] + [Lifecycle.Step.Connect(a)] == [Lifecycle.Step.Connect(a)];
    }
  }

  /** The attempt's entry, then nothing but its own advances. */
  predicate OwnSteps(a: nat, steps: seq<Step>) {
    && steps != [] && steps[0] == Lifecycle.Step.Connect(a)
    && forall i | 1 <= i < |steps| :: steps[i].Advance? && steps[i].a == a
  }

  lemma EmptyRun(s: State)
    ensures Run(s, []) == Some(s)
  {
  }
}
