/** The count matrix of one histogram and the two ways `recount` fills it
    (Source/Histogram.cpp:320-366).

    Rows are JUCE `Array<int>` values and are read and written with that class's rules:
    reading outside a row gives 0, writing at or past its end appends the value.  The
    functions `BinStep`, `BinSweep` and `SpikeSweep` follow the two nested loops of
    `recount` one step at a time; the lemmas below state in closed form what they compute. */
module Counting {
  import opened BinEdges

  function Max(a: int, b: int): int
  {
    if a >= b then a else b
  }

  /** `row[j]` on a JUCE array: 0 outside the row. */
  function Get(row: seq<int>, j: int): int
  {
    if 0 <= j < |row| then row[j] else 0
  }

  /** `row.set(j, v)` on a JUCE array: replaces inside the row, appends past its end,
      ignores a negative index. */
  function Put(row: seq<int>, j: int, v: int): seq<int>
  {
    if 0 <= j < |row| then row[j := v] else if j >= 0 then row + [v] else row
  }

  /** `counts[k]`: an index outside the matrix reads as an empty row. */
  function RowAt(counts: seq<seq<int>>, k: int): seq<int>
  {
    if 0 <= k < |counts| then counts[k] else []
  }

  /** Replaces row `k` (no effect outside the matrix). */
  function PutRow(counts: seq<seq<int>>, k: int, row: seq<int>): seq<seq<int>>
  {
    if 0 <= k < |counts| then counts[k := row] else counts
  }

  /** Count of bin `j` of the first registered unit, the row `maxCount` follows. */
  function Row0(counts: seq<seq<int>>, j: int): int
  {
    Get(RowAt(counts, 0), j)
  }

  /** A row of `n` zeros (`clear` then `insertMultiple(0, 0, n)`; nothing for n < 0). */
  function Zeros(n: int): seq<int>
  {
    seq(if n < 0 then 0 else n, _ => 0)
  }

  /** Position of the first occurrence of `x` in `s`, or -1 (`Array::indexOf`). */
  function IndexOf(s: seq<int>, x: int): (k: int)
    ensures -1 <= k < |s|
    ensures 0 <= k ==> s[k] == x && forall i :: 0 <= i < k ==> s[i] != x
    ensures k == -1 <==> x !in s
  {
    if |s| == 0 then -1
    else if s[0] == x then 0
    else var k := IndexOf(s[1..], x); if k < 0 then -1 else k + 1
  }

  predicate NoDuplicates(s: seq<int>)
  {
    forall i, j :: 0 <= i < j < |s| ==> s[i] != s[j]
  }

  /** The spikes a histogram has retained: offset in ms, sorted id and trial index,
      three parallel arrays in the source. */
  datatype Retained = Retained(times: seq<real>, ids: seq<int>, trials: seq<int>)
  {
    predicate Parallel()
    {
      |ids| == |times| && |trials| == |times|
    }
  }

  /** Which retained spikes a pass looks at. */
  datatype Selection = AllTrials | OnlyTrial(trial: int) | BeforeTrial(trial: int)

  predicate Picks(sel: Selection, trial: int)
  {
    match sel
    case AllTrials => true
    case OnlyTrial(k) => trial == k
    case BeforeTrial(k) => trial < k
  }

  /** The strict open-interval test of bin `j`: an offset equal to an edge is in no bin. */
  predicate Hit(edges: seq<int>, j: int, t: real)
    requires 0 <= j && j + 1 < |edges|
  {
    edges[j] as real < t && t < edges[j + 1] as real
  }

  /** The specification of a count: among the first `n` retained spikes, the number picked
      by `sel` whose unit is `unit` and whose offset lies strictly inside bin `j`. */
  function Count(r: Retained, sel: Selection, unit: int, edges: seq<int>, j: int, n: nat): nat
    requires r.Parallel() && n <= |r.times|
    requires 0 <= j && j + 1 < |edges|
  {
    if n == 0 then 0
    else
      Count(r, sel, unit, edges, j, n - 1)
        + (if Picks(sel, r.trials[n - 1]) && r.ids[n - 1] == unit && Hit(edges, j, r.times[n - 1])
           then 1 else 0)
  }

  /** Whether any of the first `n` retained spikes is picked by `sel`. */
  predicate AnyPicked(r: Retained, sel: Selection, n: nat)
    requires r.Parallel() && n <= |r.times|
  {
    n > 0 && (AnyPicked(r, sel, n - 1) || Picks(sel, r.trials[n - 1]))
  }

  /** The count matrix together with the `maxCount` display scale. */
  datatype Tally = Tally(counts: seq<seq<int>>, maxCount: int)

  /** One iteration of the inner loop of `recount`: spike with offset `t` and unit row
      `idx`, bin `j` (Source/Histogram.cpp:341-358). */
  function BinStep(tl: Tally, edges: seq<int>, t: real, idx: int, j: int): Tally
    requires 0 <= j && j + 1 < |edges|
  {
    var m := Max(Row0(tl.counts, j), tl.maxCount);
    if Hit(edges, j, t) then
      var newCount := Get(RowAt(tl.counts, idx), j) + 1;
      Tally(PutRow(tl.counts, idx, Put(RowAt(tl.counts, idx), j, newCount)),
            if idx == 0 then Max(newCount, m) else m)
    else
      Tally(tl.counts, m)
  }

  /** The inner loop over bins 0 .. k-1. */
  function BinSweep(tl: Tally, edges: seq<int>, t: real, idx: int, k: nat): Tally
    requires k <= NumBins(edges)
  {
    if k == 0 then tl
    else BinStep(BinSweep(tl, edges, t, idx, k - 1), edges, t, idx, k - 1)
  }

  /** The outer loop over retained spikes 0 .. n-1; a spike not picked is skipped. */
  function SpikeSweep(tl: Tally, edges: seq<int>, r: Retained, uniq: seq<int>, sel: Selection, n: nat): Tally
    requires r.Parallel() && n <= |r.times|
  {
    if n == 0 then tl
    else
      var prev := SpikeSweep(tl, edges, r, uniq, sel, n - 1);
      if Picks(sel, r.trials[n - 1])
      then BinSweep(prev, edges, r.times[n - 1], IndexOf(uniq, r.ids[n - 1]), NumBins(edges))
      else prev
  }

  /** Every row replaced by `nBins` zeros (the `full` branch, lines 325-332). */
  function ResetRows(counts: seq<seq<int>>, nBins: int): seq<seq<int>>
  {
    seq(|counts|, _ => Zeros(nBins))
  }

  /** The selection of a recount: everything when `full`, otherwise only spikes tagged
      with the latest trial index `numTrials - 1` (line 339). */
  function RecountSelection(numTrials: int, full: bool): Selection
  {
    if full then AllTrials else OnlyTrial(numTrials - 1)
  }

  /** `recount(full)`: the count matrix and `maxCount` it leaves behind. */
  function Recounted(counts: seq<seq<int>>, edges: seq<int>, r: Retained, uniq: seq<int>,
                     numTrials: int, full: bool): Tally
    requires r.Parallel()
  {
    var start := if full then ResetRows(counts, |edges| - 1) else counts;
    SpikeSweep(Tally(start, 1), edges, r, uniq, RecountSelection(numTrials, full), |r.times|)
  }

  /** Every row has exactly `nBins` entries. */
  predicate Rectangular(counts: seq<seq<int>>, nBins: nat)
  {
    forall u :: 0 <= u < |counts| ==> |counts[u]| == nBins
  }

  /** Every retained spike's unit is in the registry. */
  predicate Registered(r: Retained, uniq: seq<int>)
  {
    forall i :: 0 <= i < |r.ids| ==> r.ids[i] in uniq
  }

  /** `m` is the larger of `base` and the largest of the first `k` counts of row 0. */
  predicate IsMaxOver(m: int, base: int, counts: seq<seq<int>>, k: int)
  {
    && m >= base
    && (forall j :: 0 <= j < k ==> Row0(counts, j) <= m)
    && (m == base || exists j :: 0 <= j < k && Row0(counts, j) == m)
  }

  /** The display scale of a count matrix: at least 1, and otherwise the largest count
      of row 0. */
  predicate IsScale(m: int, counts: seq<seq<int>>, nBins: nat)
  {
    IsMaxOver(m, 1, counts, nBins)
  }

  /** Two values that both are the scale of the same matrix are equal. */
  lemma ScaleUnique(m1: int, m2: int, counts: seq<seq<int>>, nBins: nat)
    requires IsScale(m1, counts, nBins) && IsScale(m2, counts, nBins)
    ensures m1 == m2
  {
    if m1 != 1 {
      var j1 :| 0 <= j1 < nBins && Row0(counts, j1) == m1;
      assert m1 <= m2;
    }
    if m2 != 1 {
      var j2 :| 0 <= j2 < nBins && Row0(counts, j2) == m2;
      assert m2 <= m1;
    }
  }

  /** One bin of one spike on a rectangular matrix: bin `j` of row `idx` rises by one exactly
      when the offset lies inside it, and `maxCount` becomes the larger of its old value and
      the new count in bin `j` of row 0. */
  lemma BinStepEffect(tl: Tally, edges: seq<int>, t: real, idx: int, j: int) returns (res: Tally)
    requires 0 <= j && j + 1 < |edges|
    requires Rectangular(tl.counts, NumBins(edges)) && 0 <= idx < |tl.counts|
    ensures res == BinStep(tl, edges, t, idx, j)
    ensures |res.counts| == |tl.counts|
    ensures Rectangular(res.counts, NumBins(edges))
    ensures forall u, i {:trigger res.counts[u][i]} :: 0 <= u < |res.counts| && 0 <= i < NumBins(edges) ==>
              res.counts[u][i] == tl.counts[u][i] + (if u == idx && i == j && Hit(edges, j, t) then 1 else 0)
    ensures res.maxCount == Max(tl.maxCount, Row0(res.counts, j))
  {
    res := BinStep(tl, edges, t, idx, j);
    if Hit(edges, j, t) {
      var newCount := tl.counts[idx][j] + 1;
      assert res.counts == tl.counts[idx := tl.counts[idx][j := newCount]];
    }
  }

  /** What the inner loop does to a rectangular matrix: bin `j < k` of row `idx` rises by
      one exactly when the offset lies inside it, nothing else changes, and `maxCount`
      becomes the larger of its old value and the first `k` counts of row 0. */
  lemma {:induction false} BinSweepEffect(tl: Tally, edges: seq<int>, t: real, idx: int, k: nat) returns (res: Tally)
    requires k <= NumBins(edges)
    requires Rectangular(tl.counts, NumBins(edges)) && 0 <= idx < |tl.counts|
    ensures res == BinSweep(tl, edges, t, idx, k)
    ensures |res.counts| == |tl.counts|
    ensures Rectangular(res.counts, NumBins(edges))
    ensures forall u, j {:trigger res.counts[u][j]} :: 0 <= u < |res.counts| && 0 <= j < NumBins(edges) ==>
              res.counts[u][j] == tl.counts[u][j] + (if u == idx && j < k && Hit(edges, j, t) then 1 else 0)
    ensures IsMaxOver(res.maxCount, tl.maxCount, res.counts, k)
  {
    if k == 0 {
      res := tl;
    } else {
      var nb := NumBins(edges);
      var j := k - 1;
      var prev := BinSweepEffect(tl, edges, t, idx, j);
      res := BinStepEffect(prev, edges, t, idx, j);
      forall u, i | 0 <= u < |res.counts| && 0 <= i < nb
        ensures res.counts[u][i] == tl.counts[u][i] + (if u == idx && i < k && Hit(edges, i, t) then 1 else 0)
      {
        assert prev.counts[u][i] == tl.counts[u][i] + (if u == idx && i < j && Hit(edges, i, t) then 1 else 0);
      }
      assert forall i :: 0 <= i < j ==> Row0(res.counts, i) == Row0(prev.counts, i);
      if res.maxCount != tl.maxCount && res.maxCount == prev.maxCount {
        var i :| 0 <= i < j && Row0(prev.counts, i) == prev.maxCount;
        assert Row0(res.counts, i) == res.maxCount;
      }
    }
  }

  /** Spikes with the same unit as the registry entry `u` are exactly those whose
      `IndexOf` is `u`, when the registry has no duplicates. */
  lemma IndexOfUnique(uniq: seq<int>, x: int, u: int)
    requires NoDuplicates(uniq) && x in uniq && 0 <= u < |uniq|
    ensures (IndexOf(uniq, x) == u) == (uniq[u] == x)
  {
  }

  /** One picked spike of unit `uniq[idx]` on a rectangular matrix: every entry of that
      unit rises by one in the bin holding the offset, and the scale of row 0 is kept. */
  lemma SpikeStepEffect(prev: Tally, edges: seq<int>, t: real, uniq: seq<int>, x: int, wasPicked: bool)
    returns (res: Tally)
    requires NoDuplicates(uniq) && x in uniq && |prev.counts| == |uniq|
    requires Rectangular(prev.counts, NumBins(edges))
    requires if wasPicked then IsScale(prev.maxCount, prev.counts, NumBins(edges)) else prev.maxCount == 1
    ensures res == BinSweep(prev, edges, t, IndexOf(uniq, x), NumBins(edges))
    ensures |res.counts| == |prev.counts|
    ensures Rectangular(res.counts, NumBins(edges))
    ensures forall u, j {:trigger res.counts[u][j]} :: 0 <= u < |uniq| && 0 <= j < NumBins(edges) ==>
              res.counts[u][j] == prev.counts[u][j] + (if uniq[u] == x && Hit(edges, j, t) then 1 else 0)
    ensures IsScale(res.maxCount, res.counts, NumBins(edges))
  {
    var nb := NumBins(edges);
    var idx := IndexOf(uniq, x);
    res := BinSweepEffect(prev, edges, t, idx, nb);
    forall u, j | 0 <= u < |uniq| && 0 <= j < nb
      ensures res.counts[u][j] == prev.counts[u][j] + (if uniq[u] == x && Hit(edges, j, t) then 1 else 0)
    {
      IndexOfUnique(uniq, x, u);
    }
    if wasPicked && res.maxCount != 1 && res.maxCount == prev.maxCount {
      var j0 :| 0 <= j0 < nb && Row0(prev.counts, j0) == prev.maxCount;
      assert Row0(prev.counts, j0) <= Row0(res.counts, j0);
    }
  }

  /** What the outer loop does to a rectangular matrix started with `maxCount = 1`:
      every entry rises by the number of picked spikes of its unit inside its bin, and
      `maxCount` ends as the scale of the result, or 1 when no spike was picked. */
  lemma {:induction false} SpikeSweepEffect(c0: seq<seq<int>>, edges: seq<int>, r: Retained,
                                            uniq: seq<int>, sel: Selection, n: nat)
    returns (res: Tally)
    requires r.Parallel() && n <= |r.times|
    requires Registered(r, uniq) && NoDuplicates(uniq) && |c0| == |uniq|
    requires Rectangular(c0, NumBins(edges))
    ensures res == SpikeSweep(Tally(c0, 1), edges, r, uniq, sel, n)
    ensures |res.counts| == |c0|
    ensures Rectangular(res.counts, NumBins(edges))
    ensures forall u, j {:trigger res.counts[u][j]} :: 0 <= u < |c0| && 0 <= j < NumBins(edges) ==>
              res.counts[u][j] == c0[u][j] + Count(r, sel, uniq[u], edges, j, n)
    ensures if AnyPicked(r, sel, n) then IsScale(res.maxCount, res.counts, NumBins(edges))
            else res.maxCount == 1
  {
    if n == 0 {
      res := Tally(c0, 1);
    } else {
      var nb := NumBins(edges);
      var prev := SpikeSweepEffect(c0, edges, r, uniq, sel, n - 1);
      if Picks(sel, r.trials[n - 1]) {
        var x := r.ids[n - 1];
        assert x in uniq;
        res := SpikeStepEffect(prev, edges, r.times[n - 1], uniq, x, AnyPicked(r, sel, n - 1));
      } else {
        res := prev;
      }
      CountsStep(c0, prev.counts, res.counts, r, sel, uniq, edges, n);
    }
  }

  /** The counting half of one step of `SpikeSweepEffect`: if `before` holds the counts of
      the first `n - 1` spikes on top of `c0`, and `after` adds spike `n - 1` where it is
      picked, then `after` holds the counts of the first `n`. */
  lemma CountsStep(c0: seq<seq<int>>, before: seq<seq<int>>, after: seq<seq<int>>, r: Retained,
                   sel: Selection, uniq: seq<int>, edges: seq<int>, n: nat)
    requires r.Parallel() && 0 < n <= |r.times|
    requires |before| == |c0| && |after| == |c0| && |uniq| == |c0|
    requires Rectangular(c0, NumBins(edges)) && Rectangular(before, NumBins(edges)) && Rectangular(after, NumBins(edges))
    requires forall u, j {:trigger before[u][j]} :: 0 <= u < |c0| && 0 <= j < NumBins(edges) ==>
               before[u][j] == c0[u][j] + Count(r, sel, uniq[u], edges, j, n - 1)
    requires forall u, j {:trigger after[u][j]} :: 0 <= u < |c0| && 0 <= j < NumBins(edges) ==>
               after[u][j] == before[u][j]
                 + (if Picks(sel, r.trials[n - 1]) && uniq[u] == r.ids[n - 1] && Hit(edges, j, r.times[n - 1])
                    then 1 else 0)
    ensures forall u, j {:trigger after[u][j]} :: 0 <= u < |c0| && 0 <= j < NumBins(edges) ==>
              after[u][j] == c0[u][j] + Count(r, sel, uniq[u], edges, j, n)
  {
    forall u, j | 0 <= u < |c0| && 0 <= j < NumBins(edges)
      ensures after[u][j] == c0[u][j] + Count(r, sel, uniq[u], edges, j, n)
    {
      assert before[u][j] == c0[u][j] + Count(r, sel, uniq[u], edges, j, n - 1);
    }
  }

  /** A full recount (Source/Histogram.cpp:325-362 with `full` set): every row has nBins
      entries, entry [u][j] is the number of retained spikes of unit `uniq[u]` strictly
      inside bin j, and `maxCount` is the scale of row 0 (at least 1). */
  lemma FullRecount(counts: seq<seq<int>>, edges: seq<int>, r: Retained, uniq: seq<int>, numTrials: int)
    requires r.Parallel() && Registered(r, uniq) && NoDuplicates(uniq) && |counts| == |uniq|
    ensures var res := Recounted(counts, edges, r, uniq, numTrials, true);
      && |res.counts| == |counts|
      && Rectangular(res.counts, NumBins(edges))
      && (forall u, j :: 0 <= u < |counts| && 0 <= j < NumBins(edges) ==>
            res.counts[u][j] == Count(r, AllTrials, uniq[u], edges, j, |r.times|))
      && IsScale(res.maxCount, res.counts, NumBins(edges))
  {
    var nb := NumBins(edges);
    var start := ResetRows(counts, |edges| - 1);
    assert Rectangular(start, nb);
    var res0 := SpikeSweepEffect(start, edges, r, uniq, AllTrials, |r.times|);
    var res := Recounted(counts, edges, r, uniq, numTrials, true);
    if !AnyPicked(r, AllTrials, |r.times|) {
      assert |r.times| == 0;
      assert res.counts == start;
    }
  }

  /** An incremental recount on a rectangular matrix (`full` clear): each entry rises by
      the number of spikes of the latest trial, `numTrials - 1`, of its unit inside its
      bin; `maxCount` is the scale of row 0 when the latest trial retained a spike and
      is 1 otherwise. */
  lemma IncrementalRecount(counts: seq<seq<int>>, edges: seq<int>, r: Retained, uniq: seq<int>, numTrials: int)
    requires r.Parallel() && Registered(r, uniq) && NoDuplicates(uniq) && |counts| == |uniq|
    requires Rectangular(counts, NumBins(edges))
    ensures var res := Recounted(counts, edges, r, uniq, numTrials, false);
      && |res.counts| == |counts|
      && Rectangular(res.counts, NumBins(edges))
      && (forall u, j :: 0 <= u < |counts| && 0 <= j < NumBins(edges) ==>
            res.counts[u][j] == counts[u][j] + Count(r, OnlyTrial(numTrials - 1), uniq[u], edges, j, |r.times|))
      && (if AnyPicked(r, OnlyTrial(numTrials - 1), |r.times|)
          then IsScale(res.maxCount, res.counts, NumBins(edges))
          else res.maxCount == 1)
  {
    var res0 := SpikeSweepEffect(counts, edges, r, uniq, OnlyTrial(numTrials - 1), |r.times|);
  }

  /** When every trial index is at most `latest`, counting all trials is counting the
      earlier ones plus the latest one. */
  lemma {:induction false} CountSplit(r: Retained, unit: int, edges: seq<int>, j: int, latest: int, n: nat)
    requires r.Parallel() && n <= |r.times| && 0 <= j && j + 1 < |edges|
    requires forall i :: 0 <= i < n ==> r.trials[i] <= latest
    ensures Count(r, AllTrials, unit, edges, j, n)
         == Count(r, BeforeTrial(latest), unit, edges, j, n) + Count(r, OnlyTrial(latest), unit, edges, j, n)
  {
    if n > 0 {
      CountSplit(r, unit, edges, j, latest, n - 1);
    }
  }

  /** The property the incremental path exists for: if the matrix is rectangular and holds
      the counts of every trial before the latest, adding the latest trial incrementally
      gives the same matrix as a full recount; the scales agree too whenever the latest
      trial retained a spike. */
  lemma IncrementalMatchesFull(counts: seq<seq<int>>, edges: seq<int>, r: Retained, uniq: seq<int>, numTrials: int)
    requires r.Parallel() && Registered(r, uniq) && NoDuplicates(uniq) && |counts| == |uniq|
    requires forall i :: 0 <= i < |r.trials| ==> r.trials[i] < numTrials
    requires Rectangular(counts, NumBins(edges))
    requires forall u, j :: 0 <= u < |counts| && 0 <= j < NumBins(edges) ==>
               counts[u][j] == Count(r, BeforeTrial(numTrials - 1), uniq[u], edges, j, |r.times|)
    ensures Recounted(counts, edges, r, uniq, numTrials, false).counts
         == Recounted(counts, edges, r, uniq, numTrials, true).counts
    ensures AnyPicked(r, OnlyTrial(numTrials - 1), |r.times|) ==>
              (Recounted(counts, edges, r, uniq, numTrials, false).maxCount
               == Recounted(counts, edges, r, uniq, numTrials, true).maxCount)
  {
    var nb := NumBins(edges);
    var inc := Recounted(counts, edges, r, uniq, numTrials, false);
    var full := Recounted(counts, edges, r, uniq, numTrials, true);
    IncrementalRecount(counts, edges, r, uniq, numTrials);
    FullRecount(counts, edges, r, uniq, numTrials);
    forall u | 0 <= u < |counts|
      ensures inc.counts[u] == full.counts[u]
    {
      forall j | 0 <= j < nb
        ensures inc.counts[u][j] == full.counts[u][j]
      {
        CountSplit(r, uniq[u], edges, j, numTrials - 1, |r.times|);
      }
    }
    assert inc.counts == full.counts;
    if AnyPicked(r, OnlyTrial(numTrials - 1), |r.times|) {
      ScaleUnique(inc.maxCount, full.maxCount, inc.counts, nb);
    }
  }

  /** A unit first seen after the first trial owns an empty row, and the incremental path
      never resizes it: its spike inside bin 1 is written at position 0, where a full
      recount puts it at position 1. */
  lemma EmptyRowMisplacesCount()
    ensures var edges := [-10, 0, 10];
            var r := Retained([5.0], [7], [1]);
      && Recounted([[0, 0], []], edges, r, [0, 7], 2, false).counts == [[0, 0], [1]]
      && Recounted([[0, 0], []], edges, r, [0, 7], 2, true).counts == [[0, 0], [0, 1]]
  {
    var edges := [-10, 0, 10];
    var r := Retained([5.0], [7], [1]);
    assert IndexOf([0, 7], 7) == 1;
    var inc := Tally([[0, 0], []], 1);
    assert BinStep(inc, edges, 5.0, 1, 0) == inc;
    assert Put([], 1, 1) == [1];
    assert PutRow(inc.counts, 1, [1]) == [[0, 0], [1]];
    assert BinStep(inc, edges, 5.0, 1, 1) == Tally([[0, 0], [1]], 1);
    assert BinSweep(inc, edges, 5.0, 1, 2) == Tally([[0, 0], [1]], 1);
    assert SpikeSweep(inc, edges, r, [0, 7], OnlyTrial(1), 1) == Tally([[0, 0], [1]], 1);
    var full := Tally([[0, 0], [0, 0]], 1);
    assert Zeros(2) == [0, 0];
    assert ResetRows([[0, 0], []], 2) == [Zeros(2), Zeros(2)];
    assert BinStep(full, edges, 5.0, 1, 0) == full;
    assert Put([0, 0], 1, 1) == [0, 1];
    assert PutRow(full.counts, 1, [0, 1]) == [[0, 0], [0, 1]];
    assert BinStep(full, edges, 5.0, 1, 1) == Tally([[0, 0], [0, 1]], 1);
    assert BinSweep(full, edges, 5.0, 1, 2) == Tally([[0, 0], [0, 1]], 1);
    assert SpikeSweep(full, edges, r, [0, 7], AllTrials, 1) == Tally([[0, 0], [0, 1]], 1);
  }

  /** When the latest trial retains no spike, the incremental path leaves `maxCount` at 1
      although row 0 holds larger counts; a full recount gives the larger value. */
  lemma ScaleResetWithoutNewSpikes()
    ensures var edges := [-10, 0, 10];
            var r := Retained([5.0, 5.0, 5.0], [0, 0, 0], [0, 0, 0]);
      && Recounted([[0, 3]], edges, r, [0], 2, false).maxCount == 1
      && Recounted([[0, 3]], edges, r, [0], 2, true).maxCount == 3
  {
    var edges := [-10, 0, 10];
    var r := Retained([5.0, 5.0, 5.0], [0, 0, 0], [0, 0, 0]);
    assert !AnyPicked(r, OnlyTrial(1), 3);
    IncrementalRecount([[0, 3]], edges, r, [0], 2);
    FullRecount([[0, 3]], edges, r, [0], 2);
    var full := Recounted([[0, 3]], edges, r, [0], 2, true);
    assert Count(r, AllTrials, 0, edges, 0, 3) == 0;
    assert Count(r, AllTrials, 0, edges, 1, 3) == 3;
    assert Row0(full.counts, 1) == 3;
  }
}
