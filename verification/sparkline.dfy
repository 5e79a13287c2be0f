/** Layout of the dual traffic sparkline on the 128x32 display: one column per
    window entry from x = 52, RX bars standing on row 24 and growing upward,
    TX bars hanging from row 24 downward, each scaled so that the window's
    peak is 8 pixels tall. */
module Sparkline {
  import Window

  /** Column of the oldest entry. */
  const BarLeft: int := 52
  /** Row the RX bars stand on and the TX bars hang from. */
  const MidLine: int := 24
  /** Height, in pixels, of a bar whose entry equals the peak. */
  const MaxBarHeight: int := 8

  /** A filled rectangle handed to the display: corner, width and height. */
  datatype Rect = Rect(x: int, y: real, w: int, h: real)

  /** The RX and TX bars drawn for one window entry. */
  datatype Column = Column(rx: Rect, tx: Rect)

  function Max(a: int, b: int): int {
    if a >= b then a else b
  }

  /** The scale of a window: its largest entry, or 0 when no entry is positive. */
  function Peak(q: seq<int>): (p: int)
    ensures p >= 0
    ensures forall i :: 0 <= i < |q| ==> q[i] <= p
    ensures p == 0 || p in q
    decreases |q|
  {
    if |q| == 0 then 0 else Max(q[|q| - 1], Peak(q[..|q| - 1]))
  }

  /** Scanning one more entry updates the peak of the prefix scanned so far. */
  lemma PeakExtend(q: seq<int>, i: nat)
    requires i < |q|
    ensures Peak(q[..i + 1]) == Max(q[i], Peak(q[..i]))
  {
    assert q[..i + 1][..i] == q[..i];
  }

  /** The scan of both windows in one loop over the RX indices; the TX window
      is indexed by the same positions, so it must be at least as long. */
  method Peaks(rx: seq<int>, tx: seq<int>) returns (maxRx: int, maxTx: int)
    requires |rx| <= |tx|
    ensures maxRx >= 0 && forall i :: 0 <= i < |rx| ==> rx[i] <= maxRx
    ensures maxRx == 0 || maxRx in rx
    ensures maxTx >= 0 && forall i :: 0 <= i < |rx| ==> tx[i] <= maxTx
    ensures maxTx == 0 || maxTx in tx[..|rx|]
  {
    maxRx, maxTx := 0, 0;
    var i := 0;
    while i < |rx|
      invariant 0 <= i <= |rx|
      invariant maxRx == Peak(rx[..i])
      invariant maxTx == Peak(tx[..i])
    {
      PeakExtend(rx, i);
      PeakExtend(tx, i);
      maxRx := Max(rx[i], maxRx);
      maxTx := Max(tx[i], maxTx);
      i := i + 1;
    }
    assert rx[..i] == rx;
  }

  /** The properties `Peaks` promises single out `Peak`: max(0, entries) is
      the only value that is at least 0, at least every entry, and 0 or an
      entry. So the loop's results are the peaks the columns are scaled by. */
  lemma PeakUnique(q: seq<int>, p: int)
    requires p >= 0 && forall i :: 0 <= i < |q| ==> q[i] <= p
    requires p == 0 || p in q
    ensures p == Peak(q)
  {
    var m := Peak(q);
    if p != 0 {
      var k :| 0 <= k < |q| && q[k] == p;
      assert p <= m;
    }
    if m != 0 {
      var k :| 0 <= k < |q| && q[k] == m;
      assert m <= p;
    }
  }

  /** Bar height of an entry under a given peak (true division, as real). */
  function Height(e: int, peak: int): (h: real)
    ensures peak <= 0 ==> h == 0.0
    ensures 0 <= e <= peak ==> 0.0 <= h <= MaxBarHeight as real
    ensures 0 < peak == e ==> h == MaxBarHeight as real
    ensures 0 < peak && e < 0 ==> h < 0.0
  {
    if peak > 0 then (e as real / peak as real) * MaxBarHeight as real else 0.0
  }

  /** Bars keep the order of the entries they stand for. */
  lemma HeightMonotone(e1: int, e2: int, peak: int)
    requires e1 <= e2
    ensures Height(e1, peak) <= Height(e2, peak)
  {
    if peak > 0 {
      var p := peak as real;
      assert e1 as real / p <= e2 as real / p;
    }
  }

  /** The two bars of the entry at position `i`, scaled by the windows' peaks. */
  function Bar(i: int, rxEntry: int, txEntry: int, peakRx: int, peakTx: int): (c: Column)
    ensures c.rx.x == BarLeft + i && c.tx.x == BarLeft + i
    ensures c.rx.w == 1 && c.tx.w == 1
    ensures c.rx.y + c.rx.h == MidLine as real
    ensures c.tx.y == MidLine as real
    ensures c.rx.h == Height(rxEntry, peakRx) && c.tx.h == Height(txEntry, peakTx)
  {
    var rh := Height(rxEntry, peakRx);
    var th := Height(txEntry, peakTx);
    Column(Rect(BarLeft + i, (MidLine - MaxBarHeight) as real + (MaxBarHeight as real - rh), 1, rh),
           Rect(BarLeft + i, MidLine as real, 1, th))
  }

  /** One column per RX index, left to right. */
  function Bars(rx: seq<int>, tx: seq<int>, peakRx: int, peakTx: int): (cols: seq<Column>)
    requires |rx| <= |tx|
    ensures |cols| == |rx|
    ensures forall i :: 0 <= i < |cols| ==> cols[i] == Bar(i, rx[i], tx[i], peakRx, peakTx)
    decreases |rx|
  {
    if |rx| == 0 then []
    else
      var n := |rx| - 1;
      Bars(rx[..n], tx, peakRx, peakTx) + [Bar(n, rx[n], tx[n], peakRx, peakTx)]
  }

  /** Bars scaled by one peak per window are ordered as their entries, in both windows. */
  lemma BarsOrdered(cols: seq<Column>, rx: seq<int>, tx: seq<int>, peakRx: int, peakTx: int)
    requires |cols| <= |rx| && |cols| <= |tx|
    requires forall i :: 0 <= i < |cols| ==>
      cols[i].rx.h == Height(rx[i], peakRx) && cols[i].tx.h == Height(tx[i], peakTx)
    ensures forall i, j :: 0 <= i < |cols| && 0 <= j < |cols| && rx[i] <= rx[j] ==>
      cols[i].rx.h <= cols[j].rx.h
    ensures forall i, j :: 0 <= i < |cols| && 0 <= j < |cols| && tx[i] <= tx[j] ==>
      cols[i].tx.h <= cols[j].tx.h
  {
    forall i, j | 0 <= i < |cols| && 0 <= j < |cols| && rx[i] <= rx[j]
      ensures cols[i].rx.h <= cols[j].rx.h
    {
      HeightMonotone(rx[i], rx[j], peakRx);
    }
    forall i, j | 0 <= i < |cols| && 0 <= j < |cols| && tx[i] <= tx[j]
      ensures cols[i].tx.h <= cols[j].tx.h
    {
      HeightMonotone(tx[i], tx[j], peakTx);
    }
  }

  /** The rectangles for both windows, oldest entry leftmost. */
  function Columns(rx: seq<int>, tx: seq<int>): (cols: seq<Column>)
    requires |rx| <= |tx|
    ensures |cols| == |rx|
    ensures forall i :: 0 <= i < |cols| ==>
      && cols[i].rx.x == BarLeft + i && cols[i].tx.x == BarLeft + i
      && cols[i].rx.w == 1 && cols[i].tx.w == 1
      && cols[i].rx.y + cols[i].rx.h == MidLine as real
      && cols[i].tx.y == MidLine as real
    ensures |rx| <= Window.MaxQueueLen ==>
      forall i :: 0 <= i < |cols| ==> cols[i].rx.x <= BarLeft + Window.MaxQueueLen - 1
    ensures forall i :: 0 <= i < |cols| && 0 <= rx[i] ==>
      0.0 <= cols[i].rx.h <= MaxBarHeight as real
    ensures forall i :: 0 <= i < |cols| && 0 <= tx[i] ==>
      0.0 <= cols[i].tx.h <= MaxBarHeight as real
    ensures forall i :: 0 <= i < |cols| ==>
      && cols[i].rx.h == Height(rx[i], Peak(rx))
      && cols[i].tx.h == Height(tx[i], Peak(tx[..|rx|]))
    ensures forall i :: 0 <= i < |cols| && 0 < rx[i] == Peak(rx) ==>
      cols[i].rx.h == MaxBarHeight as real
    ensures forall i :: 0 <= i < |cols| && 0 < tx[i] == Peak(tx[..|rx|]) ==>
      cols[i].tx.h == MaxBarHeight as real
    ensures forall i, j :: 0 <= i < |cols| && 0 <= j < |cols| && rx[i] <= rx[j] ==>
      cols[i].rx.h <= cols[j].rx.h
    ensures forall i, j :: 0 <= i < |cols| && 0 <= j < |cols| && tx[i] <= tx[j] ==>
      cols[i].tx.h <= cols[j].tx.h
  {
    var peakTx := Peak(tx[..|rx|]);
    assert forall i :: 0 <= i < |rx| ==> tx[..|rx|][i] == tx[i];
    var cols := Bars(rx, tx, Peak(rx), peakTx);
    BarsOrdered(cols, rx, tx, Peak(rx), peakTx);
    cols
  }
}
