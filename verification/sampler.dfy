/** Byte-delta sampler: turns the kernel's cumulative RX/TX byte counters into
    the number of bytes moved since the previous tick. The previous reading is
    an int in which -1 stands for "nothing read yet". */
module Sampler {

  /** The previous-reading value the loop starts with. */
  const NoSample: int := -1

  /** Bytes moved since `prev`; 0 when there is no previous reading. A counter
      that went backwards (interface reset) is NOT clamped: the delta is negative. */
  function Delta(prev: int, current: nat): (d: int)
    ensures prev < 0 ==> d == 0
    ensures prev >= 0 ==> prev + d == current
    ensures prev >= 0 && current < prev ==> d < 0
  {
    if prev >= 0 then current - prev else 0
  }

  /** The deltas a run of readings `cs` produces when the last reading before
      them was `prev`; each reading becomes the previous one of the next. */
  function Deltas(prev: int, cs: seq<nat>): (ds: seq<int>)
    ensures |ds| == |cs|
    decreases |cs|
  {
    if |cs| == 0 then [] else [Delta(prev, cs[0])] + Deltas(cs[0], cs[1..])
  }

  /** The first delta of a run is 0 after the sentinel; every later one is
      exactly the difference of consecutive readings. */
  lemma {:induction false} DeltasAreDifferences(prev: int, cs: seq<nat>)
    ensures |cs| > 0 && prev < 0 ==> Deltas(prev, cs)[0] == 0
    ensures |cs| > 0 && prev >= 0 ==> Deltas(prev, cs)[0] == cs[0] as int - prev
    ensures forall i :: 1 <= i < |cs| ==> Deltas(prev, cs)[i] == cs[i] as int - cs[i - 1]
    decreases |cs|
  {
    if |cs| > 1 {
      DeltasAreDifferences(cs[0], cs[1..]);
      forall i | 1 <= i < |cs|
        ensures Deltas(prev, cs)[i] == cs[i] as int - cs[i - 1]
      {
        if i > 1 {
          assert Deltas(prev, cs)[i] == Deltas(cs[0], cs[1..])[i - 1];
        }
      }
    }
  }

  function Sum(xs: seq<int>): int
    decreases |xs|
  {
    if |xs| == 0 then 0 else xs[0] + Sum(xs[1..])
  }

  /** Once a reading exists, the deltas add up to the counter's total movement,
      so no byte is lost or counted twice between ticks. */
  lemma {:induction false} DeltasTelescope(prev: int, cs: seq<nat>)
    requires prev >= 0
    requires |cs| > 0
    ensures Sum(Deltas(prev, cs)) == cs[|cs| - 1] as int - prev
    decreases |cs|
  {
    if |cs| > 1 {
      DeltasTelescope(cs[0], cs[1..]);
    }
  }
}
