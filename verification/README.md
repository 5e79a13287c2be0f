# rpi-iphone-tether status monitor — Dafny model

The service `rpiphone-tether-service.py` runs on a Raspberry Pi that shares an
iPhone's USB tether (`eth1`) with the wired network (`eth0`). It polls forever:
it samples the `eth0` byte counters and keeps the last 24 RX and TX deltas for a
small sparkline. It probes for `eth1`, for the `dnsmasq` service and for
internet reachability. From these it picks a status tag for the 128x32 OLED
display and a side effect: repair the route, stop `dnsmasq`, or shut the Pi
down after a countdown. Finally it sleeps 2 s, 1 s or 50 ms.

This project models one iteration of that loop as pure functions over an
explicit state. It also models the loop as a sequence of such iterations and
proves what the sequencing guarantees.

- `Sampler` (sampler.dfy): the counter delta, with `-1` meaning "no previous
  reading". The delta is not clamped, so a counter that goes backwards gives a
  negative delta.
- `Window` (window.dfy): the 24-entry FIFO push, and the "last `min(n, 24)`"
  reference it is proved against.
- `Sparkline` (sparkline.dfy): the peak scan and the bar heights (as `real`,
  because Python's `/` is true division). Also the bar rectangles: from
  x = 52, with RX bars standing on row 24 and TX bars hanging from it.
- `Connectivity` (connectivity.dfy): the five-branch decision on
  `eth1`/`dnsmasq`/ping/`downTime`, and the text of the status tag.
- `Decimal` (decimal.dfy): `f"{n}"` for the countdown number, with its parser.
- `Poller` (poller.dfy): the loop's state (`PollerState`), the probe results
  (`Probes`), the state transition `Step`, and `Tick` (transition plus frame).
- `Runs` (runs.dfy): `Run` applies ticks until one requests the shutdown. It
  carries the multi-tick properties: shutdown on the 36th untethered tick,
  `downTime` counting ticks since the last UP tick, and the windows holding
  the last deltas.

Behaviours of the code that the model keeps exactly:

- The delta is `new - prev`, unclamped, once a reading exists (line 73). A
  counter that goes backwards gives a negative delta.
- `downTime += 1` runs on every tick that does not shut down, UP ticks
  included, so `downTime` is 1 after an UP tick (lines 100, 152).
- The shutdown comes when `downTime >= 35` is seen (line 120). From
  power-on that is the 36th untethered tick.
- With eth1 absent and dnsmasq active, the tick requests that dnsmasq be
  stopped (lines 111-113).

## Model

| member | source | states |
|---|---|---|
| Sampler.Delta | rpiphone-tether-service.py:73-74 | 0 while the previous reading is the -1 sentinel; otherwise previous + delta equals the new reading, and a counter that went backwards gives a negative delta (no clamping) |
| Sampler.DeltasAreDifferences | rpiphone-tether-service.py:73-88 | over successive readings the first delta after the sentinel is 0 and every later one is exactly the difference of consecutive readings, because each reading becomes the next tick's previous one |
| Sampler.DeltasTelescope | rpiphone-tether-service.py:73-88 | once a reading exists, the deltas of a run of readings add up to the counter's total movement |
| Window.Push | rpiphone-tether-service.py:76-82 | a push onto a window of at most 24 entries yields exactly the last min(n+1, 24) entries of the window followed by the new delta; the new delta is last |
| Window.LastNAbsorb | rpiphone-tether-service.py:76-82 | truncating to the last N before appending more and truncating again equals truncating the whole once, which is why repeated eviction keeps the newest entries |
| Window.PushAllKeepsLast | rpiphone-tether-service.py:76-82 | after any number of pushes the window holds the last min(n, 24) deltas in append order (oldest evicted first) |
| Sparkline.Peak | rpiphone-tether-service.py:137-141 | the peak is at least 0 and at least every entry, and is either 0 or one of the entries |
| Sparkline.Peaks | rpiphone-tether-service.py:137-141 | the single loop over the RX indices yields max(0, entries) of the RX window and of the same positions of the TX window: at least 0, at least every scanned entry, and either 0 or one of them; the TX window must be at least as long as the RX window |
| Sparkline.PeakUnique | rpiphone-tether-service.py:137-141 | max(0, entries) is the only value that is at least 0, at least every entry and 0 or an entry, so the loop's results in Peaks are exactly the peaks the columns are scaled by |
| Sparkline.Height | rpiphone-tether-service.py:144-146 | a bar is 0 high when the peak is not positive, lies in [0, 8] for an entry between 0 and the peak, is exactly 8 for the peak entry, and is negative for a negative entry |
| Sparkline.HeightMonotone | rpiphone-tether-service.py:144-146 | a larger entry never gets a shorter bar |
| Sparkline.Bar | rpiphone-tether-service.py:145-147 | the two rectangles of entry i sit at x = 52 + i, width 1; the RX bar's bottom edge is row 24 and the TX bar starts at row 24 |
| Sparkline.Bars | rpiphone-tether-service.py:143-147 | one column per RX index, each the bar of that index's RX and TX entries |
| Sparkline.BarsOrdered | rpiphone-tether-service.py:144-147 | within each window, bars scaled by that window's peak are ordered as their entries |
| Sparkline.Columns | rpiphone-tether-service.py:137-147 | one column per entry at x = 52 + i (at most 75 for a 24-entry window), width 1, RX bars standing on row 24 and TX bars starting at row 24; each height is entry/peak*8 with the RX peak for RX and the TX peak for TX (0 when the peak is 0), so non-negative entries give heights in [0, 8], the peak entry of each window is 8 high, and within each window bars are ordered as their entries |
| Decimal.NatToString | rpiphone-tether-service.py:119 | the countdown text is non-empty, all digits and without a leading zero |
| Decimal.ParseNatOfNatToString | rpiphone-tether-service.py:119 | reading the digits back gives the number printed |
| Decimal.IntToString | rpiphone-tether-service.py:119 | a minus sign precedes the digits exactly for negative numbers |
| Decimal.IntToStringRoundTrip | rpiphone-tether-service.py:119 | the printed countdown parses back to the number of ticks left |
| Connectivity.Tag | rpiphone-tether-service.py:99-119 | the tags are exactly "UP", "---", "-/-" and " x " for their statuses; the searching tag is exactly as many dots as the phase; the countdown tag reads back as the remaining ticks |
| Connectivity.Decide | rpiphone-tether-service.py:93-125 | each status arises from exactly one probe combination (both directions); RepairRoute exactly with "---", StopService exactly with "-/-", Shutdown exactly when untethered with downTime >= 35; the interval chosen is 50 ms exactly while searching and 1000 ms exactly when untethered (on the shutdown tick it is never slept); dots = downTime mod 4 in 0..3; countdown = 35 - downTime, within 1..29 unless shutting down; only UP resets the counter |
| Poller.IpText | rpiphone-tether-service.py:95-118 | the address line is the shutdown notice once the countdown runs, else eth1's address when eth1 exists and has a non-empty one, else eth0's, printed "None" when the lookup failed |
| Poller.Draw | rpiphone-tether-service.py:128-147 | a drawn frame carries the status tag, the address line, and exactly the sparkline columns of the two windows (so every column lies within x in [52, 75]) |
| Poller.Step | rpiphone-tether-service.py:55-152 | the windows stay equally long and within 24; each reading becomes the previous one; each window receives this tick's delta; status, action and interval are the decision's; downTime is unchanged on shutdown, 1 after an UP tick, and one more otherwise |
| Poller.Tick | rpiphone-tether-service.py:55-152 | the tick's transition is Step's; the display is blank exactly on shutdown, and otherwise is the frame Draw builds from the windows after this tick's push: status tag, the shutdown notice during the countdown and the eth1/eth0 address otherwise, and the sparkline columns |
| Runs.Run | rpiphone-tether-service.py:55-152 | the loop runs one tick per probe set until the first shutdown, which is always the last tick; the windows stay equally long and within 24 |
| Runs.TicksToShutdown | rpiphone-tether-service.py:117-125 | between 1 and 36 untethered ticks remain before the shutdown |
| Runs.UntetheredStatus | rpiphone-tether-service.py:114-119 | an untethered tick shows " x " exactly while downTime is at most 5, and a countdown exactly above 5, whose value adds up with downTime to 35 |
| Runs.UntetheredStep | rpiphone-tether-service.py:114-152 | one untethered transition carries the 1000 ms interval and UntetheredStatus (acted on only when it does not shut down); it shuts down exactly when one tick is left, and otherwise requests nothing and advances downTime by one, leaving one tick fewer |
| Runs.UntetheredTicksShutDown | rpiphone-tether-service.py:114-152 | untethered ticks request nothing until the last, and the shutdown comes after exactly TicksToShutdown ticks |
| Runs.UntetheredTicksCountDown | rpiphone-tether-service.py:114-152 | every untethered transition carries the 1000 ms interval and shows " x " up to downTime 5, then the countdown 35 - downTime, with downTime growing by one per tick; the last, shutting-down transition's interval and status are never acted on |
| Runs.ShutdownOnThirtySixthTick | rpiphone-tether-service.py:48-152 | from power-on with the tether absent throughout, the shutdown is requested on the 36th tick and no earlier tick requests any action |
| Runs.DownTimeGrowsWithoutUp | rpiphone-tether-service.py:95-152 | without an UP tick and without a shutdown, downTime grows by exactly one per tick |
| Runs.DownTimeCountsTicksSinceUp | rpiphone-tether-service.py:95-152 | without a shutdown, downTime after a run equals the number of ticks since (and including) the last UP tick |
| Runs.PresentTicksNeverHalt | rpiphone-tether-service.py:95-108 | while eth1 is present no tick requests the shutdown |
| Runs.SearchCountsTowardShutdown | rpiphone-tether-service.py:95-152 | ticks spent searching with eth1 present count toward the shutdown, so once they bring downTime to 35 the first untethered tick shuts down without a countdown |
| Runs.RxWindowHoldsLastDeltas | rpiphone-tether-service.py:73-78 | after a run the RX window equals the last min(n, 24) of its old contents followed by the deltas of the RX readings, oldest first |
| Runs.TxWindowHoldsLastDeltas | rpiphone-tether-service.py:73-82 | after a run the TX window equals the last min(n, 24) of its old contents followed by the deltas of the TX readings, oldest first |
| Runs.LastReadingsKept | rpiphone-tether-service.py:87-88 | after a run the last RX and TX readings are the previous readings the next tick subtracts |
| Runs.WindowsFromPowerOn | rpiphone-tether-service.py:41-88 | from power-on each window holds the last min(n, 24) deltas: 0 for the first tick, then exact counter differences |

## Left out

- `oled_display.py` is a wrapper over the SSD1306 I²C driver and PIL. The
  model hands its drawing as data (`Frame`: address line, tag, bar columns)
  instead of calling it.
- `get_ip_address` (a socket ioctl) is not modelled. Its results are the
  optional strings `eth0Ip`/`eth1Ip` of `Probes`.
- Every `subprocess` call is not modelled: the counter reads, the `systemctl`
  queries and the `ping`. Their results are inputs (`newRx`, `newTx`,
  `eth1Present`, `dnsmasqActive`, `pingOk`). The route script, `systemctl stop`
  and `shutdown` are emitted as the requested `Action`, not performed.
- Counter readings are `nat`: the sysfs counters are unsigned decimal text.
  A read failure (an exception that would end the loop) is not modelled.
- The CPU and memory readings (`psutil`), the human-readable sizes
  (`naturalsize`) and the per-second rate (`RXDiff / seconds`, always with
  `seconds = 2`) are not modelled: they are a foreign library plus floats.
  For the same reason, the text lines at rows 8, 16 and 24 are left out.
- `signal_handler`, `time.sleep`, `sys.exit` and the `print` before shutdown
  are process plumbing. The sleep is the `intervalMs` output, and the exit
  is the end of `Runs.Run` at the first `Shutdown`.
- The transition of a shutdown tick still carries the 1000 ms interval and a
  countdown status of 0 or less, as the source computes them before it exits.
  Neither is acted on: the source clears the display and exits before drawing
  and sleeping (rpiphone-tether-service.py:120-125), so the model's frame for
  that tick is `Blank`.
- Runs.RxWindowHoldsLastDeltas: stated for runs that process all their
  probe sets (a shutdown, if any, on the last one). Probe sets left over
  after an earlier shutdown are never read, because the loop has ended.
- Runs.TxWindowHoldsLastDeltas: the same restriction, for the same reason.
- Runs.LastReadingsKept: the same restriction, for the same reason.
- The drawing order of the rectangles is not modelled: the source draws each
  column's RX bar, then its TX bar. The model gives the columns in index
  order as pairs.
