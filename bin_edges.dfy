/** Bin-edge geometry of one histogram (Source/Histogram.cpp, setBinSizeMs).
    Pre, post and bin size are whole milliseconds, so every edge is an integer. */
module BinEdges {

  /** The edges produced from a running edge `e`: `e`, `e + bin`, ... while the running
      value is below `post`, and then `post` itself.  The recursion stops exactly when the
      source's while loop does; a non-positive bin size is allowed only when the loop
      body never runs. */
  function EdgesFrom(e: int, post: int, bin: int): seq<int>
    requires bin > 0 || e >= post
    decreases if e < post then post - e else 0
  {
    if e < post then [e] + EdgesFrom(e + bin, post, bin) else [post]
  }

  /** The edges of a window reaching `pre` ms before and `post` ms after the trigger. */
  function Edges(pre: int, post: int, bin: int): seq<int>
    requires bin > 0 || -pre >= post
  {
    EdgesFrom(-pre, post, bin)
  }

  /** Number of bins described by an edge list (the source's `binEdges.size() - 1`,
      which is -1 before the first edges exist; no loop runs then). */
  function NumBins(edges: seq<int>): nat
  {
    if |edges| == 0 then 0 else |edges| - 1
  }

  predicate StrictlyIncreasing(s: seq<int>)
  {
    forall i, j :: 0 <= i < j < |s| ==> s[i] < s[j]
  }

  /** The shape of the edges produced from `e`: the first is `e` (when `e` is below
      `post`), each of the others but the last is `bin` above its predecessor, all but the
      last stay below `post`, the last is `post`, and the last stepped edge is the final
      value of the progression below `post`. */
  lemma {:induction false} EdgesFromShape(e: int, post: int, bin: int)
    requires bin > 0 || e >= post
    ensures var E := EdgesFrom(e, post, bin);
      && |E| >= 1
      && E[|E| - 1] == post
      && (e >= post ==> E == [post])
      && (e < post ==> |E| >= 2 && E[0] == e)
      && (forall k :: 0 <= k < |E| - 1 ==> E[k] < post)
      && (forall k :: 0 <= k < |E| - 2 ==> E[k + 1] == E[k] + bin)
      && (|E| >= 2 ==> E[|E| - 2] + bin >= post)
    decreases if e < post then post - e else 0
  {
    var E := EdgesFrom(e, post, bin);
    if e < post {
      var R := EdgesFrom(e + bin, post, bin);
      EdgesFromShape(e + bin, post, bin);
      assert E == [e] + R;
      assert forall k :: 1 <= k < |E| ==> E[k] == R[k - 1];
      if e + bin >= post {
        assert R == [post];
      }
    }
  }

  /** Positions of a progression: the k-th edge is `k` bins after the first. */
  lemma {:induction false} SteppedValue(E: seq<int>, bin: int, k: int)
    requires 0 <= k < |E| - 1
    requires forall i :: 0 <= i < |E| - 2 ==> E[i + 1] == E[i] + bin
    ensures E[k] == E[0] + k * bin
  {
    if k > 0 {
      SteppedValue(E, bin, k - 1);
      assert E[k] == E[k - 1] + bin;
      assert (k - 1) * bin + bin == k * bin;
    }
  }

  /** The geometry of the edges that `setBinSizeMs` builds (Source/Histogram.cpp:299-317):
      they start at -pre, end at post, increase strictly, every bin is at most `bin` wide,
      every bin but the last is exactly `bin` wide (so only the last may be narrower), and
      the number of bins is the ceiling of (pre + post) / bin. */
  lemma EdgesGeometry(pre: int, post: int, bin: int)
    requires bin > 0 && -pre < post
    ensures var E := Edges(pre, post, bin);
      && |E| >= 2
      && E[0] == -pre
      && E[|E| - 1] == post
      && StrictlyIncreasing(E)
      && (forall j :: 0 <= j < |E| - 1 ==> 0 < E[j + 1] - E[j] <= bin)
      && (forall j :: 0 <= j < |E| - 2 ==> E[j + 1] - E[j] == bin)
      && NumBins(E) == (post + pre + bin - 1) / bin
  {
    EdgesFromShape(-pre, post, bin);
    EdgesIncrease(pre, post, bin);
    EdgesCount(pre, post, bin);
  }

  /** The edges increase strictly. */
  lemma EdgesIncrease(pre: int, post: int, bin: int)
    requires bin > 0 && -pre < post
    ensures StrictlyIncreasing(Edges(pre, post, bin))
  {
    var E := Edges(pre, post, bin);
    EdgesFromShape(-pre, post, bin);
    assert forall k :: 0 <= k < |E| - 1 ==> 0 < E[k + 1] - E[k] by {
      forall k | 0 <= k < |E| - 1
        ensures 0 < E[k + 1] - E[k]
      {
        if k < |E| - 2 {
          assert E[k + 1] == E[k] + bin;
        }
      }
    }
    forall i, j | 0 <= i < j < |E|
      ensures E[i] < E[j]
    {
      StepsIncrease(E, i, j);
    }
  }

  /** The number of bins is the ceiling of (pre + post) / bin. */
  lemma EdgesCount(pre: int, post: int, bin: int)
    requires bin > 0 && -pre < post
    ensures NumBins(Edges(pre, post, bin)) == (post + pre + bin - 1) / bin
  {
    var E := Edges(pre, post, bin);
    EdgesFromShape(-pre, post, bin);
    var n := |E| - 1;
    SteppedValue(E, bin, n - 1);
    assert -pre + (n - 1) * bin < post;
    assert post <= -pre + (n - 1) * bin + bin;
    assert (n - 1) * bin + bin == n * bin;
    CeilingDivision(post + pre, bin, n);
  }

  /** Consecutive strict increase gives strict increase between any two positions. */
  lemma {:induction false} StepsIncrease(E: seq<int>, i: int, j: int)
    requires 0 <= i < j < |E|
    requires forall k :: 0 <= k < |E| - 1 ==> 0 < E[k + 1] - E[k]
    ensures E[i] < E[j]
    decreases j - i
  {
    if j > i + 1 {
      StepsIncrease(E, i, j - 1);
    }
  }

  /** `n` is the ceiling of `d / b` when `(n - 1) * b < d <= n * b`. */
  lemma CeilingDivision(d: int, b: int, n: int)
    requires b > 0 && (n - 1) * b < d <= n * b
    ensures (d + b - 1) / b == n
  {
    var x := d + b - 1;
    var q := x / b;
    assert n * b <= x < n * b + b;
    assert q * b <= x < q * b + b;
    if q < n {
      MulMonotone(q + 1, n, b);
      assert false;
    } else if q > n {
      MulMonotone(n + 1, q, b);
      assert false;
    }
  }

  lemma MulMonotone(a: int, c: int, b: int)
    requires a <= c && b > 0
    ensures a * b <= c * b
  {
  }

  /** Ten-millisecond bins over a symmetric 50 ms window: eleven edges, ten bins
      of equal width. */
  lemma SymmetricWindowEdges()
    ensures Edges(50, 50, 10) == [-50, -40, -30, -20, -10, 0, 10, 20, 30, 40, 50]
  {
  }

  /** When post is not a multiple of the bin size away from -pre, the final bin is
      truncated: the last two edges are 40 and 45, a 5 ms bin. */
  lemma TruncatedLastBin()
    ensures Edges(50, 45, 10) == [-50, -40, -30, -20, -10, 0, 10, 20, 30, 40, 45]
  {
  }
}
