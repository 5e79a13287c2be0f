/** The loop itself: ticks applied one after another until a tick requests
    the shutdown, and what that sequencing guarantees. */
module Runs {
  import Sampler
  import Window
  import Connectivity
  import opened Poller

  /** The transitions of the ticks that ran and the state they left behind. */
  datatype Trace = Trace(outcomes: seq<Transition>, final: PollerState)

  /** The last tick of the trace requested the shutdown, ending the loop. */
  predicate Halted(t: Trace) {
    |t.outcomes| > 0 && t.outcomes[|t.outcomes| - 1].action == Connectivity.Shutdown
  }

  /** Run the loop on successive probe results, stopping at the first shutdown. */
  function Run(s: PollerState, ps: seq<Probes>): (t: Trace)
    requires Valid(s)
    ensures Valid(t.final)
    ensures |ps| > 0 ==> |t.outcomes| > 0
    ensures |t.outcomes| <= |ps|
    ensures |t.outcomes| < |ps| ==> Halted(t)
    ensures forall i :: 0 <= i < |t.outcomes| - 1 ==> t.outcomes[i].action != Connectivity.Shutdown
    decreases |ps|
  {
    if |ps| == 0 then Trace([], s)
    else
      var o := Step(s, ps[0]);
      if o.action == Connectivity.Shutdown then Trace([o], o.next)
      else
        var rest := Run(o.next, ps[1..]);
        var outs := [o] + rest.outcomes;
        assert forall i :: 1 <= i < |outs| ==> outs[i] == rest.outcomes[i - 1];
        Trace(outs, rest.final)
  }

  /** The first tick of a run, then the run of the remaining probes unless
      that tick requested the shutdown. */
  lemma RunUnfolds(s: PollerState, ps: seq<Probes>)
    requires Valid(s)
    requires |ps| > 0
    ensures var o := Step(s, ps[0]);
      o.action == Connectivity.Shutdown ==> Run(s, ps) == Trace([o], o.next)
    ensures var o := Step(s, ps[0]);
      o.action != Connectivity.Shutdown ==>
        Run(s, ps) == Trace([o] + Run(o.next, ps[1..]).outcomes, Run(o.next, ps[1..]).final)
  {
  }

  /** Prefixing a tick that did not shut down changes neither the halting of
      a trace nor its last transition. */
  lemma HaltedCons(o: Transition, t: Trace)
    requires o.action != Connectivity.Shutdown
    ensures Halted(Trace([o] + t.outcomes, t.final)) <==> Halted(t)
  {
    var outs := [o] + t.outcomes;
    if |t.outcomes| > 0 {
      assert outs[|outs| - 1] == t.outcomes[|t.outcomes| - 1];
    }
  }

  /** eth1 is gone and dnsmasq is not running. */
  predicate Untethered(p: Probes) {
    !p.eth1Present && !p.dnsmasqActive
  }

  /** eth1 is present and dnsmasq is serving it. */
  predicate TetherUp(p: Probes) {
    p.eth1Present && p.dnsmasqActive
  }

  /** Ticks left, the shutdown tick included, when only untethered ticks
      follow a state whose counter is `downTime`. */
  function TicksToShutdown(downTime: nat): (n: nat)
    ensures 1 <= n <= Connectivity.AutoSleepTime + Connectivity.AutoSleepCountdown + 1
  {
    var limit := Connectivity.AutoSleepTime + Connectivity.AutoSleepCountdown;
    if downTime >= limit then 1 else limit + 1 - downTime
  }

  /** The status an untethered tick shows at a given `downTime`. */
  function UntetheredStatus(downTime: nat): (st: Connectivity.Status)
    ensures st.Disconnected? <==> downTime <= Connectivity.AutoSleepTime
    ensures st.Countdown? <==> downTime > Connectivity.AutoSleepTime
    ensures st.Countdown? ==> st.remaining + downTime == Connectivity.AutoSleepTime + Connectivity.AutoSleepCountdown
  {
    if downTime <= Connectivity.AutoSleepTime then Connectivity.Disconnected
    else Connectivity.Countdown(Connectivity.AutoSleepTime + Connectivity.AutoSleepCountdown - downTime)
  }

  /** One untethered tick: idle interval, the status above, and either the
      shutdown or no action and one more tick of `downTime`. */
  lemma UntetheredStep(s: PollerState, p: Probes)
    requires Valid(s)
    requires Untethered(p)
    ensures Step(s, p).status == UntetheredStatus(s.downTime)
    ensures Step(s, p).intervalMs == Connectivity.IdleIntervalMs
    ensures Step(s, p).action == Connectivity.Shutdown <==> TicksToShutdown(s.downTime) == 1
    ensures Step(s, p).action != Connectivity.Shutdown ==>
      && Step(s, p).action == Connectivity.NoAction
      && TicksToShutdown(Step(s, p).next.downTime) == TicksToShutdown(s.downTime) - 1
      && Step(s, p).next.downTime == s.downTime + 1
  {
  }

  /** The probes after the first are untethered when all are. */
  lemma UntetheredTail(ps: seq<Probes>)
    requires |ps| > 0
    requires forall i :: 0 <= i < |ps| ==> Untethered(ps[i])
    ensures forall i :: 0 <= i < |ps| - 1 ==> Untethered(ps[1..][i])
  {
    forall i | 0 <= i < |ps| - 1 ensures Untethered(ps[1..][i]) {
      assert ps[1..][i] == ps[i + 1];
    }
  }

  /** Untethered ticks end with exactly one shutdown request, after
      `TicksToShutdown` ticks, and request nothing before it. */
  lemma {:induction false} UntetheredTicksShutDown(s: PollerState, ps: seq<Probes>)
    requires Valid(s)
    requires |ps| >= TicksToShutdown(s.downTime)
    requires forall i :: 0 <= i < |ps| ==> Untethered(ps[i])
    ensures |Run(s, ps).outcomes| == TicksToShutdown(s.downTime)
    ensures Halted(Run(s, ps))
    ensures forall j :: 0 <= j < |Run(s, ps).outcomes| - 1 ==>
      Run(s, ps).outcomes[j].action == Connectivity.NoAction
    decreases |ps|
  {
    var o := Step(s, ps[0]);
    UntetheredStep(s, ps[0]);
    RunUnfolds(s, ps);
    if o.action != Connectivity.Shutdown {
      var rest := Run(o.next, ps[1..]);
      UntetheredTail(ps);
      UntetheredTicksShutDown(o.next, ps[1..]);
      HaltedCons(o, rest);
      forall j | 1 <= j < |Run(s, ps).outcomes| - 1
        ensures Run(s, ps).outcomes[j] == rest.outcomes[j - 1]
      {
      }
    }
  }

  /** Every untethered tick sleeps the idle interval and shows " x " up to
      `downTime` 5, then the number of ticks left before the shutdown. */
  lemma {:induction false} UntetheredTicksCountDown(s: PollerState, ps: seq<Probes>)
    requires Valid(s)
    requires forall i :: 0 <= i < |ps| ==> Untethered(ps[i])
    ensures forall j :: 0 <= j < |Run(s, ps).outcomes| ==>
      && Run(s, ps).outcomes[j].intervalMs == Connectivity.IdleIntervalMs
      && Run(s, ps).outcomes[j].status == UntetheredStatus(s.downTime + j)
    decreases |ps|
  {
    if |ps| > 0 {
      var o := Step(s, ps[0]);
      UntetheredStep(s, ps[0]);
      RunUnfolds(s, ps);
      if o.action != Connectivity.Shutdown {
        var rest := Run(o.next, ps[1..]);
        UntetheredTail(ps);
        UntetheredTicksCountDown(o.next, ps[1..]);
        var outs := Run(s, ps).outcomes;
        assert outs == [o] + rest.outcomes;
        forall j | 1 <= j < |outs|
          ensures outs[j].intervalMs == Connectivity.IdleIntervalMs
          ensures outs[j].status == UntetheredStatus(s.downTime + j)
        {
          assert outs[j] == rest.outcomes[j - 1];
          assert o.next.downTime + (j - 1) == s.downTime + j;
        }
      }
    }
  }

  /** From power-on, with the tether absent on every tick, the shutdown is
      requested on the 36th tick and on no earlier one. */
  lemma ShutdownOnThirtySixthTick(ps: seq<Probes>)
    requires |ps| >= 36
    requires forall i :: 0 <= i < |ps| ==> Untethered(ps[i])
    ensures |Run(Initial(), ps).outcomes| == 36
    ensures Run(Initial(), ps).outcomes[35].action == Connectivity.Shutdown
    ensures forall i :: 0 <= i < 35 ==> Run(Initial(), ps).outcomes[i].action == Connectivity.NoAction
  {
    UntetheredTicksShutDown(Initial(), ps);
  }

  /** A run that did not shut down, split into its first tick and the rest. */
  lemma {:induction false} UnhaltedRunSplits(s: PollerState, ps: seq<Probes>)
    requires Valid(s)
    requires |ps| > 0
    requires !Halted(Run(s, ps))
    ensures Step(s, ps[0]).action != Connectivity.Shutdown
    ensures !Halted(Run(Step(s, ps[0]).next, ps[1..]))
    ensures Run(s, ps).final == Run(Step(s, ps[0]).next, ps[1..]).final
  {
    var o := Step(s, ps[0]);
    if o.action != Connectivity.Shutdown {
      var rest := Run(o.next, ps[1..]);
      assert Run(s, ps).outcomes == [o] + rest.outcomes;
      if |rest.outcomes| > 0 {
        assert Run(s, ps).outcomes[|Run(s, ps).outcomes| - 1] == rest.outcomes[|rest.outcomes| - 1];
      }
    }
  }

  /** Without an UP tick and without a shutdown, every tick adds one to `downTime`. */
  lemma {:induction false} DownTimeGrowsWithoutUp(s: PollerState, ps: seq<Probes>)
    requires Valid(s)
    requires !Halted(Run(s, ps))
    requires forall k :: 0 <= k < |ps| ==> !TetherUp(ps[k])
    ensures |Run(s, ps).outcomes| == |ps|
    ensures Run(s, ps).final.downTime == s.downTime + |ps|
    decreases |ps|
  {
    if |ps| > 0 {
      UnhaltedRunSplits(s, ps);
      assert !TetherUp(ps[0]);
      assert forall k :: 0 <= k < |ps| - 1 ==> ps[1..][k] == ps[k + 1];
      DownTimeGrowsWithoutUp(Step(s, ps[0]).next, ps[1..]);
    }
  }

  /** With no shutdown in between, `downTime` counts the ticks since
      tethering was last up: after the last UP tick at position `k` it equals
      the number of ticks from that one on. */
  lemma {:induction false} DownTimeCountsTicksSinceUp(s: PollerState, ps: seq<Probes>, k: nat)
    requires Valid(s)
    requires !Halted(Run(s, ps))
    requires k < |ps| && TetherUp(ps[k])
    requires forall j :: k < j < |ps| ==> !TetherUp(ps[j])
    ensures |Run(s, ps).outcomes| == |ps|
    ensures Run(s, ps).final.downTime == |ps| - k
    decreases |ps|
  {
    UnhaltedRunSplits(s, ps);
    var o := Step(s, ps[0]);
    assert forall j :: 0 <= j < |ps| - 1 ==> ps[1..][j] == ps[j + 1];
    if k == 0 {
      assert o.next.downTime == 1;
      DownTimeGrowsWithoutUp(o.next, ps[1..]);
    } else {
      DownTimeCountsTicksSinceUp(o.next, ps[1..], k - 1);
    }
  }

  /** While eth1 is present no tick requests the shutdown, so the loop runs on. */
  lemma {:induction false} PresentTicksNeverHalt(s: PollerState, ps: seq<Probes>)
    requires Valid(s)
    requires forall i :: 0 <= i < |ps| ==> ps[i].eth1Present
    ensures |Run(s, ps).outcomes| == |ps|
    ensures !Halted(Run(s, ps))
    decreases |ps|
  {
    if |ps| > 0 {
      var o := Step(s, ps[0]);
      assert o.action != Connectivity.Shutdown by {
        assert ps[0].eth1Present;
      }
      assert forall i :: 0 <= i < |ps| - 1 ==> ps[1..][i].eth1Present by {
        forall i | 0 <= i < |ps| - 1 ensures ps[1..][i].eth1Present {
          assert ps[1..][i] == ps[i + 1];
        }
      }
      PresentTicksNeverHalt(o.next, ps[1..]);
      RunUnfolds(s, ps);
      HaltedCons(o, Run(o.next, ps[1..]));
    }
  }

  /** The ticks spent searching (eth1 present, dnsmasq down) count toward the
      shutdown: once they bring `downTime` to 35, the first untethered tick
      requests the shutdown at once, without a countdown shown before it. */
  lemma {:induction false} SearchCountsTowardShutdown(s: PollerState, ps: seq<Probes>, u: Probes)
    requires Valid(s)
    requires forall i :: 0 <= i < |ps| ==> ps[i].eth1Present && !ps[i].dnsmasqActive
    requires s.downTime + |ps| >= Connectivity.AutoSleepTime + Connectivity.AutoSleepCountdown
    requires Untethered(u)
    ensures Step(Run(s, ps).final, u).action == Connectivity.Shutdown
  {
    PresentTicksNeverHalt(s, ps);
    DownTimeGrowsWithoutUp(s, ps);
  }

  function RxReadings(ps: seq<Probes>): (cs: seq<nat>)
    ensures |cs| == |ps|
  {
    seq(|ps|, i requires 0 <= i < |ps| => ps[i].newRx)
  }

  function TxReadings(ps: seq<Probes>): (cs: seq<nat>)
    ensures |cs| == |ps|
  {
    seq(|ps|, i requires 0 <= i < |ps| => ps[i].newTx)
  }

  /** One push followed by the pushes of later readings equals the pushes of
      all the readings. */
  lemma WindowStep(q: seq<int>, prev: int, c: nat, cs: seq<nat>)
    requires |q| <= Window.MaxQueueLen
    ensures Window.LastN(Window.Push(q, Sampler.Delta(prev, c)) + Sampler.Deltas(c, cs), Window.MaxQueueLen)
         == Window.LastN(q + Sampler.Deltas(prev, [c] + cs), Window.MaxQueueLen)
  {
    var d := Sampler.Delta(prev, c);
    assert ([c] + cs)[1..] == cs;
    assert Sampler.Deltas(prev, [c] + cs) == [d] + Sampler.Deltas(c, cs);
    Window.LastNAbsorb(q + [d], Sampler.Deltas(c, cs), Window.MaxQueueLen);
    assert q + [d] + Sampler.Deltas(c, cs) == q + ([d] + Sampler.Deltas(c, cs));
  }

  /** After a run that processed all its probes (a shutdown, if any, on
      the last one), the RX window holds the last `min(n, 24)` deltas of its
      old contents followed by the deltas of the readings, oldest first. */
  lemma {:induction false} RxWindowHoldsLastDeltas(s: PollerState, ps: seq<Probes>)
    requires Valid(s)
    requires |Run(s, ps).outcomes| == |ps|
    ensures Run(s, ps).final.rxQueue ==
      Window.LastN(s.rxQueue + Sampler.Deltas(s.prevRx, RxReadings(ps)), Window.MaxQueueLen)
    decreases |ps|
  {
    if |ps| > 0 {
      var o := Step(s, ps[0]);
      var later := ps[1..];
      assert RxReadings(ps) == [ps[0].newRx] + RxReadings(later);
      assert Run(s, ps).final.rxQueue ==
        Window.LastN(o.next.rxQueue + Sampler.Deltas(ps[0].newRx, RxReadings(later)), Window.MaxQueueLen)
      by {
        RunUnfolds(s, ps);
        if o.action == Connectivity.Shutdown {
          assert later == [];
        } else {
          RxWindowHoldsLastDeltas(o.next, later);
        }
      }
      WindowStep(s.rxQueue, s.prevRx, ps[0].newRx, RxReadings(later));
    }
  }

  /** The same for the TX window. */
  lemma {:induction false} TxWindowHoldsLastDeltas(s: PollerState, ps: seq<Probes>)
    requires Valid(s)
    requires |Run(s, ps).outcomes| == |ps|
    ensures Run(s, ps).final.txQueue ==
      Window.LastN(s.txQueue + Sampler.Deltas(s.prevTx, TxReadings(ps)), Window.MaxQueueLen)
    decreases |ps|
  {
    if |ps| > 0 {
      var o := Step(s, ps[0]);
      var later := ps[1..];
      assert TxReadings(ps) == [ps[0].newTx] + TxReadings(later);
      assert Run(s, ps).final.txQueue ==
        Window.LastN(o.next.txQueue + Sampler.Deltas(ps[0].newTx, TxReadings(later)), Window.MaxQueueLen)
      by {
        RunUnfolds(s, ps);
        if o.action == Connectivity.Shutdown {
          assert later == [];
        } else {
          TxWindowHoldsLastDeltas(o.next, later);
        }
      }
      WindowStep(s.txQueue, s.prevTx, ps[0].newTx, TxReadings(later));
    }
  }

  /** After a run the last counter readings are kept as the previous ones
      for the next tick. */
  lemma {:induction false} LastReadingsKept(s: PollerState, ps: seq<Probes>)
    requires Valid(s)
    requires |ps| > 0
    requires |Run(s, ps).outcomes| == |ps|
    ensures Run(s, ps).final.prevRx == ps[|ps| - 1].newRx
    ensures Run(s, ps).final.prevTx == ps[|ps| - 1].newTx
    decreases |ps|
  {
    var o := Step(s, ps[0]);
    RunUnfolds(s, ps);
    if o.action != Connectivity.Shutdown && |ps| > 1 {
      LastReadingsKept(o.next, ps[1..]);
      assert ps[1..][|ps| - 2] == ps[|ps| - 1];
    }
  }

  /** From power-on, each window holds the last `min(n, 24)` samples: a 0 for
      the first tick, then the exact (unclamped) counter differences. */
  lemma WindowsFromPowerOn(ps: seq<Probes>)
    requires |Run(Initial(), ps).outcomes| == |ps|
    ensures Run(Initial(), ps).final.rxQueue ==
      Window.LastN(Sampler.Deltas(Sampler.NoSample, RxReadings(ps)), Window.MaxQueueLen)
    ensures Run(Initial(), ps).final.txQueue ==
      Window.LastN(Sampler.Deltas(Sampler.NoSample, TxReadings(ps)), Window.MaxQueueLen)
  {
    RxWindowHoldsLastDeltas(Initial(), ps);
    TxWindowHoldsLastDeltas(Initial(), ps);
    assert [] + Sampler.Deltas(Sampler.NoSample, RxReadings(ps)) == Sampler.Deltas(Sampler.NoSample, RxReadings(ps));
    assert [] + Sampler.Deltas(Sampler.NoSample, TxReadings(ps)) == Sampler.Deltas(Sampler.NoSample, TxReadings(ps));
  }
}
