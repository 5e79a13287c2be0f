/** The two traffic windows: fixed-capacity FIFO queues of byte deltas. */
module Window {

  /** Capacity of each window, one bar column per entry. */
  const MaxQueueLen: nat := 24

  function Min(a: int, b: int): int {
    if a <= b then a else b
  }

  /** The last `min(|s|, n)` elements of `s`, in their original order. */
  function LastN(s: seq<int>, n: nat): (r: seq<int>)
    ensures |r| == Min(|s|, n)
  {
    s[|s| - Min(|s|, n)..]
  }

  /** Append a delta, then drop the oldest entry if the window overflowed. */
  function Push(q: seq<int>, d: int): (r: seq<int>)
    ensures |q| <= MaxQueueLen ==> r == LastN(q + [d], MaxQueueLen)
    ensures |q| <= MaxQueueLen ==> |r| == Min(|q| + 1, MaxQueueLen)
    ensures |r| > 0 && r[|r| - 1] == d
  {
    var a := q + [d];
    if |a| > MaxQueueLen then a[1..] else a
  }

  /** Keeping the last `n` of a prefix and then the last `n` of the extended
      sequence is the same as keeping the last `n` of the whole. */
  lemma LastNAbsorb(a: seq<int>, b: seq<int>, n: nat)
    ensures LastN(LastN(a, n) + b, n) == LastN(a + b, n)
  {
    var la := LastN(a, n);
    var lhs := LastN(la + b, n);
    var rhs := LastN(a + b, n);
    assert |lhs| == |rhs|;
    forall i | 0 <= i < |lhs|
      ensures lhs[i] == rhs[i]
    {
      var k := |la + b| - |lhs| + i;
      var m := |a + b| - |rhs| + i;
      if k < |la| {
        assert lhs[i] == la[k] == a[|a| - |la| + k];
        assert m == |a| - |la| + k;
      } else {
        assert lhs[i] == b[k - |la|];
        assert m - |a| == k - |la|;
      }
    }
  }

  /** Push a whole sequence of deltas, oldest first. */
  function PushAll(q: seq<int>, ds: seq<int>): seq<int>
    decreases |ds|
  {
    if |ds| == 0 then q else Push(PushAll(q, ds[..|ds| - 1]), ds[|ds| - 1])
  }

  /** After any number of pushes the window holds exactly the last
      `min(n, 24)` deltas in append order: the oldest are evicted first. */
  lemma {:induction false} PushAllKeepsLast(q: seq<int>, ds: seq<int>)
    requires |q| <= MaxQueueLen
    ensures PushAll(q, ds) == LastN(q + ds, MaxQueueLen)
    decreases |ds|
  {
    if |ds| > 0 {
      var front := ds[..|ds| - 1];
      PushAllKeepsLast(q, front);
      LastNAbsorb(q + front, [ds[|ds| - 1]], MaxQueueLen);
      assert q + front + [ds[|ds| - 1]] == q + ds;
    }
  }
}
