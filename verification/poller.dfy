/** One iteration of the monitoring loop as a pure function: the loop's
    variables become an explicit state, the probe results of the tick are its
    input, and the drawing, the side effect and the sleep are its output. */
module Poller {
  import opened Wrappers
  import Sampler
  import Window
  import Sparkline
  import Connectivity

  /** The variables the loop carries from one tick to the next. */
  datatype PollerState = PollerState(
    prevRx: int,          // last RX counter reading, Sampler.NoSample before the first
    prevTx: int,          // last TX counter reading, likewise
    rxQueue: seq<int>,    // RX delta window, oldest first
    txQueue: seq<int>,    // TX delta window, oldest first
    downTime: nat)        // ticks since tethering was last up

  /** What the collaborators report during one tick. */
  datatype Probes = Probes(
    newRx: nat,                 // eth0 rx_bytes counter
    newTx: nat,                 // eth0 tx_bytes counter
    eth1Present: bool,          // the tethered interface exists
    dnsmasqActive: bool,        // the DHCP service is active
    pingOk: bool,               // the reachability probe answered (consulted only when needed)
    eth0Ip: Option<string>,     // address lookups; None when the lookup failed
    eth1Ip: Option<string>)

  /** What is left on the display at the end of the tick. */
  datatype Frame =
    | Blank                                                   // cleared before shutdown
    | Drawn(ipText: string, tag: string, bars: seq<Sparkline.Column>)

  /** The state transition of one tick: the next state, the status, the
      requested action and the sleep interval. */
  datatype Transition = Transition(
    next: PollerState,
    status: Connectivity.Status,
    action: Connectivity.Action,
    intervalMs: nat)

  /** A whole tick: its transition and what it leaves on the display. */
  datatype Outcome = Outcome(
    next: PollerState,
    status: Connectivity.Status,
    action: Connectivity.Action,
    intervalMs: nat,
    frame: Frame)

  /** The text shown when the countdown has started. */
  const ShutdownBanner: string := "SYSTEM SHUTDOWN IN ..."

  /** The state before the first tick. */
  function Initial(): PollerState {
    PollerState(Sampler.NoSample, Sampler.NoSample, [], [], 0)
  }

  /** Both windows have the same length, which never exceeds the capacity;
      the bar loop indexes the TX window with RX positions and relies on it. */
  predicate Valid(s: PollerState) {
    && |s.rxQueue| == |s.txQueue| <= Window.MaxQueueLen
    && s.prevRx >= Sampler.NoSample
    && s.prevTx >= Sampler.NoSample
  }

  /** A Python value in a boolean context: None and "" are false. */
  predicate Truthy(o: Option<string>) {
    o.Some? && o.value != ""
  }

  /** The address line: eth1's address when eth1 exists and has one, else
      eth0's, printed "None" when neither lookup succeeded. */
  function IpText(p: Probes, banner: bool): (t: string)
    ensures banner ==> t == ShutdownBanner
    ensures !banner && p.eth1Present && Truthy(p.eth1Ip) ==> t == p.eth1Ip.value
    ensures !banner && (!p.eth1Present || !Truthy(p.eth1Ip)) && p.eth0Ip.Some? ==> t == p.eth0Ip.value
    ensures !banner && (!p.eth1Present || !Truthy(p.eth1Ip)) && p.eth0Ip.None? ==> t == "None"
  {
    if banner then ShutdownBanner
    else
      var ip := if p.eth1Present && Truthy(p.eth1Ip) then p.eth1Ip else p.eth0Ip;
      match ip
      case Some(a) => a
      case None => "None"
  }

  /** The frame drawn by a tick that does not shut down, from the windows
      after this tick's push. */
  function Draw(p: Probes, status: Connectivity.Status, rxQueue: seq<int>, txQueue: seq<int>): (f: Frame)
    requires |rxQueue| == |txQueue| <= Window.MaxQueueLen
    ensures f.Drawn?
    ensures f.tag == Connectivity.Tag(status)
    ensures f.ipText == IpText(p, status.Countdown?)
    ensures f.bars == Sparkline.Columns(rxQueue, txQueue)
    ensures |f.bars| == |rxQueue|
    ensures forall i :: 0 <= i < |f.bars| ==>
      Sparkline.BarLeft <= f.bars[i].rx.x <= Sparkline.BarLeft + Window.MaxQueueLen - 1
  {
    Drawn(IpText(p, status.Countdown?), Connectivity.Tag(status), Sparkline.Columns(rxQueue, txQueue))
  }

  /** The state transition of one tick. */
  function Step(s: PollerState, p: Probes): (t: Transition)
    requires Valid(s)
    ensures Valid(t.next)
    // the sampler: each reading becomes the previous one of the next tick
    ensures t.next.prevRx == p.newRx && t.next.prevTx == p.newTx
    ensures t.next.rxQueue == Window.Push(s.rxQueue, Sampler.Delta(s.prevRx, p.newRx))
    ensures t.next.txQueue == Window.Push(s.txQueue, Sampler.Delta(s.prevTx, p.newTx))
    // the state machine
    ensures var d := Connectivity.Decide(s.downTime, p.eth1Present, p.dnsmasqActive, p.pingOk);
      t.status == d.status && t.action == d.action && t.intervalMs == d.intervalMs
    // downTime: frozen by shutdown, else 1 after an UP tick and one more otherwise
    ensures t.action == Connectivity.Shutdown ==> t.next.downTime == s.downTime
    ensures t.action != Connectivity.Shutdown ==>
      t.next.downTime == if t.status.Up? then 1 else s.downTime + 1
  {
    var rxQueue := Window.Push(s.rxQueue, Sampler.Delta(s.prevRx, p.newRx));
    var txQueue := Window.Push(s.txQueue, Sampler.Delta(s.prevTx, p.newTx));
    var d := Connectivity.Decide(s.downTime, p.eth1Present, p.dnsmasqActive, p.pingOk);
    var downTime := if d.action == Connectivity.Shutdown then d.downTime else d.downTime + 1;
    Transition(PollerState(p.newRx, p.newTx, rxQueue, txQueue, downTime), d.status, d.action, d.intervalMs)
  }

  /** One iteration of the loop: the transition, then the display, which is
      cleared on shutdown and otherwise shows the address, the status and the
      bars of the windows after this tick's push. */
  function Tick(s: PollerState, p: Probes): (o: Outcome)
    requires Valid(s)
    ensures var t := Step(s, p);
      o.next == t.next && o.status == t.status && o.action == t.action && o.intervalMs == t.intervalMs
    ensures o.frame.Blank? <==> o.action == Connectivity.Shutdown
    ensures o.frame.Drawn? ==> o.frame == Draw(p, o.status, o.next.rxQueue, o.next.txQueue)
    ensures o.frame.Drawn? ==> o.frame.tag == Connectivity.Tag(o.status)
    ensures o.frame.Drawn? && !o.status.Countdown? ==> o.frame.ipText == IpText(p, false)
    ensures o.frame.Drawn? && o.status.Countdown? ==> o.frame.ipText == ShutdownBanner
    ensures o.frame.Drawn? ==> |o.frame.bars| == |o.next.rxQueue| == |o.next.txQueue|
  {
    var t := Step(s, p);
    var frame := if t.action == Connectivity.Shutdown then Blank
                 else Draw(p, t.status, t.next.rxQueue, t.next.txQueue);
    Outcome(t.next, t.status, t.action, t.intervalMs, frame)
  }
}
