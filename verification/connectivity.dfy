/** The connectivity state machine: from the probe results of one tick and the
    `downTime` counter, the status tag shown in the display's corner, the side
    effect the loop must perform and how long it sleeps before the next tick. */
module Connectivity {
  import Decimal

  /** Ticks without tethering before the shutdown countdown starts. */
  const AutoSleepTime: nat := 5
  /** Ticks the countdown lasts. */
  const AutoSleepCountdown: nat := 30

  /** Sleep intervals, in milliseconds. */
  const NormalIntervalMs: nat := 2000
  const IdleIntervalMs: nat := 1000
  const SearchIntervalMs: nat := 50

  /** The side effect the tick requests; the loop's collaborators perform it. */
  datatype Action = NoAction | RepairRoute | StopService | Shutdown

  /** What the status corner says. */
  datatype Status =
    | Up                      // eth1 present, dnsmasq serving: "UP"
    | RouteRepair             // eth1 present, internet reachable: "---"
    | Searching(dots: nat)    // eth1 present, nothing reachable: "", ".", "..", "..."
    | StrayService            // eth1 gone, dnsmasq still running: "-/-"
    | Disconnected            // eth1 gone, dnsmasq stopped: " x "
    | Countdown(remaining: int)  // ticks until shutdown, printed as a number

  /** The outcome of the branches of one tick, before the end-of-tick increment. */
  datatype Decision = Decision(
    status: Status,
    action: Action,
    intervalMs: nat,
    downTime: nat,          // the counter after the branches (reset only by Up)
    shutdownBanner: bool)   // the IP line is replaced by the shutdown notice

  /** The characters the status corner shows. */
  function Tag(st: Status): (t: string)
    ensures st.Up? ==> t == "UP"
    ensures st.RouteRepair? ==> t == "---"
    ensures st.StrayService? ==> t == "-/-"
    ensures st.Disconnected? ==> t == " x "
    ensures st.Searching? ==> |t| == st.dots && forall i :: 0 <= i < |t| ==> t[i] == '.'
    ensures st.Countdown? ==> Decimal.IsIntText(t) && Decimal.ParseInt(t) == st.remaining
  {
    match st
    case Up => "UP"
    case RouteRepair => "---"
    case Searching(n) => seq(n, _ => '.')
    case StrayService => "-/-"
    case Disconnected => " x "
    case Countdown(r) =>
      Decimal.IntToStringRoundTrip(r);
      Decimal.IntToString(r)
  }

  /** One pass through the branches of the loop. Exactly one applies: each
      status arises from exactly one combination of probe results. */
  function Decide(downTime: nat, eth1Present: bool, dnsmasqActive: bool, pingOk: bool): (d: Decision)
    ensures d.status.Up? <==> eth1Present && dnsmasqActive
    ensures d.status.RouteRepair? <==> eth1Present && !dnsmasqActive && pingOk
    ensures d.status.Searching? <==> eth1Present && !dnsmasqActive && !pingOk
    ensures d.status.StrayService? <==> !eth1Present && dnsmasqActive
    ensures d.status.Disconnected? <==> !eth1Present && !dnsmasqActive && downTime <= AutoSleepTime
    ensures d.status.Countdown? <==> !eth1Present && !dnsmasqActive && downTime > AutoSleepTime
    // the requested action
    ensures d.action == RepairRoute <==> d.status.RouteRepair?
    ensures d.action == StopService <==> d.status.StrayService?
    ensures d.action == Shutdown <==>
      !eth1Present && !dnsmasqActive && downTime >= AutoSleepTime + AutoSleepCountdown
    // the sleep interval
    ensures d.intervalMs == SearchIntervalMs <==> d.status.Searching?
    ensures d.intervalMs == IdleIntervalMs <==> !eth1Present && !dnsmasqActive
    ensures d.intervalMs == NormalIntervalMs <==> (eth1Present && (dnsmasqActive || pingOk)) || (!eth1Present && dnsmasqActive)
    // the dot animation cycles through 0..3 dots
    ensures d.status.Searching? ==> d.status.dots == downTime % 4 && d.status.dots <= 3
    // the countdown shows the ticks left; while no shutdown happens it lies in 1..29
    ensures d.status.Countdown? ==> d.status.remaining == AutoSleepTime + AutoSleepCountdown - downTime
    ensures d.status.Countdown? && d.action != Shutdown ==> 1 <= d.status.remaining <= AutoSleepCountdown - 1
    ensures d.action == Shutdown ==> d.status.Countdown? && d.status.remaining <= 0
    // the counter is reset only when tethering is up
    ensures d.downTime == if d.status.Up? then 0 else downTime
    ensures d.shutdownBanner <==> d.status.Countdown?
  {
    if eth1Present then
      if dnsmasqActive then Decision(Up, NoAction, NormalIntervalMs, 0, false)
      else if pingOk then Decision(RouteRepair, RepairRoute, NormalIntervalMs, downTime, false)
      else Decision(Searching(downTime % 4), NoAction, SearchIntervalMs, downTime, false)
    else if dnsmasqActive then Decision(StrayService, StopService, NormalIntervalMs, downTime, false)
    else
      var banner := downTime > AutoSleepTime;
      var status := if banner then Countdown(AutoSleepTime + AutoSleepCountdown - downTime) else Disconnected;
      var action := if downTime >= AutoSleepTime + AutoSleepCountdown then Shutdown else NoAction;
      Decision(status, action, IdleIntervalMs, downTime, banner)
  }
}
