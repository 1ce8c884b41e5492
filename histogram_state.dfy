/** The state of one histogram (Source/Histogram.cpp) as a value, the transition each of
    its operations makes, and the properties those transitions keep. */
module HistogramSpec {
  import opened BinEdges
  import opened Counting

  /** The fields of a `Histogram` that its bookkeeping reads and writes.  The three
      parallel arrays of retained spikes (`relativeTimes`, `relativeTimeSortedIds`,
      `relativeTimeTrialIndices`) are grouped as one `Retained` value. */
  datatype HistogramState = HistogramState(
    preMs: int,
    postMs: int,
    binSizeMs: int,
    binEdges: seq<int>,
    retained: Retained,
    newSpikeSampleNumbers: seq<int>,
    newSpikeSortedIds: seq<int>,
    uniqueSortedIds: seq<int>,
    counts: seq<seq<int>>,
    maxSortedId: int,
    maxCount: int,
    numTrials: int,
    waitingForWindowToClose: bool,
    latestEventSampleNumber: int)

  /** The state the constructor sets before it calls `clear` (lines 27-36; `maxSortedId`
      starts at 0). `maxCount` and `numTrials` are written by that `clear` before they
      are read. */
  function Fresh(): HistogramState
  {
    HistogramState(0, 0, 10, [], Retained([], [], []), [], [], [], [], 0, 1, 0, false, 0)
  }

  /** The bookkeeping invariant: the parallel arrays stay parallel, every unit seen has
      exactly one count row and is registered once, every retained or buffered spike's
      unit is registered, every trial tag names a finished trial, and `maxSortedId` is
      the largest unit id seen (0 before any). */
  ghost predicate Consistent(s: HistogramState)
  {
    && s.retained.Parallel()
    && |s.newSpikeSortedIds| == |s.newSpikeSampleNumbers|
    && |s.counts| == |s.uniqueSortedIds|
    && NoDuplicates(s.uniqueSortedIds)
    && Registered(s.retained, s.uniqueSortedIds)
    && (forall i :: 0 <= i < |s.newSpikeSortedIds| ==> s.newSpikeSortedIds[i] in s.uniqueSortedIds)
    && s.numTrials >= 0
    && (forall i :: 0 <= i < |s.retained.trials| ==> 0 <= s.retained.trials[i] < s.numTrials)
    && s.maxSortedId >= 0
    && (forall i :: 0 <= i < |s.uniqueSortedIds| ==> s.uniqueSortedIds[i] <= s.maxSortedId)
    && (s.maxSortedId == 0 || s.maxSortedId in s.uniqueSortedIds)
  }

  /** The count matrix agrees with the retained spikes: every row has one entry per bin
      and entry [u][j] is the number of retained spikes of unit `uniqueSortedIds[u]`
      strictly inside bin j. */
  ghost predicate CountsCurrent(s: HistogramState)
  {
    && s.retained.Parallel()
    && Rectangular(s.counts, NumBins(s.binEdges))
    && (forall u, j {:trigger s.counts[u][j]} :: 0 <= u < |s.counts| && 0 <= u < |s.uniqueSortedIds| && 0 <= j < NumBins(s.binEdges) ==>
          s.counts[u][j] == Count(s.retained, AllTrials, s.uniqueSortedIds[u], s.binEdges, j, |s.retained.times|))
  }

  /** `recount(full)` applied to a state. */
  function AfterRecount(s: HistogramState, full: bool): HistogramState
    requires s.retained.Parallel()
  {
    var t := Recounted(s.counts, s.binEdges, s.retained, s.uniqueSortedIds, s.numTrials, full);
    s.(counts := t.counts, maxCount := t.maxCount)
  }

  /** `addSpike` (lines 155-172): buffer the spike; a unit not seen before is registered,
      given an empty count row, and raises `maxSortedId`. */
  function SpikeAdded(s: HistogramState, sampleNumber: int, sortedId: int): HistogramState
  {
    var s1 := s.(newSpikeSampleNumbers := s.newSpikeSampleNumbers + [sampleNumber],
                 newSpikeSortedIds := s.newSpikeSortedIds + [sortedId]);
    if IndexOf(s.uniqueSortedIds, sortedId) < 0 then
      s1.(uniqueSortedIds := s.uniqueSortedIds + [sortedId],
          counts := s.counts + [[]],
          maxSortedId := Max(sortedId, s.maxSortedId))
    else s1
  }

  /** `addEvent` (lines 174-185): latch the trigger unless a window is already open. */
  function EventAdded(s: HistogramState, sampleNumber: int): HistogramState
  {
    if !s.waitingForWindowToClose
    then s.(latestEventSampleNumber := sampleNumber, waitingForWindowToClose := true)
    else s
  }

  /** Offset of a spike from the trigger in milliseconds (line 277). */
  function Offset(sampleNumber: int, eventSampleNumber: int, sampleRate: real): real
    requires sampleRate > 0.0
  {
    (sampleNumber - eventSampleNumber) as real / sampleRate * 1000.0
  }

  /** The collection window of `update` (line 279): both bounds excluded. */
  predicate InWindow(offsetMs: real)
  {
    -1000.0 < offsetMs < 1000.0
  }

  /** The loop of `update` over the first `n` buffered spikes (lines 275-287): each one
      whose offset is inside the window is appended with its unit and the trial tag. */
  function Aligned(r: Retained, samples: seq<int>, ids: seq<int>, event: int, sampleRate: real,
                   trial: int, n: nat): (aligned: Retained)
    requires sampleRate > 0.0 && n <= |samples|
    ensures r.Parallel() ==> aligned.Parallel() && |r.times| <= |aligned.times| <= |r.times| + n
  {
    if n == 0 then r
    else
      var p := Aligned(r, samples, ids, event, sampleRate, trial, n - 1);
      var o := Offset(samples[n - 1], event, sampleRate);
      if InWindow(o) then Retained(p.times + [o], p.ids + [Get(ids, n - 1)], p.trials + [trial])
      else p
  }

  /** `update` (lines 270-296): align every buffered spike against the latched trigger
      under the current trial index, advance the trial counter, and recount — fully
      after the first trial, incrementally afterwards. */
  function Updated(s: HistogramState, sampleRate: real): HistogramState
    requires sampleRate > 0.0 && s.retained.Parallel()
  {
    var r := Aligned(s.retained, s.newSpikeSampleNumbers, s.newSpikeSortedIds,
                     s.latestEventSampleNumber, sampleRate, s.numTrials, |s.newSpikeSampleNumbers|);
    var s1 := s.(retained := r, numTrials := s.numTrials + 1);
    AfterRecount(s1, s1.numTrials == 1)
  }

  /** `timerCallback` (lines 527-534): the window closes, then `update` runs. */
  function WindowClosed(s: HistogramState, sampleRate: real): HistogramState
    requires sampleRate > 0.0 && s.retained.Parallel()
  {
    Updated(s.(waitingForWindowToClose := false), sampleRate)
  }

  /** `setBinSizeMs` (lines 299-317): rebuild the edges, then recount fully.  The edge loop
      only terminates when the bin size is positive or the window is empty. */
  function BinSizeSet(s: HistogramState, ms: int): HistogramState
    requires ms > 0 || -s.preMs >= s.postMs
    requires s.retained.Parallel()
  {
    AfterRecount(s.(binSizeMs := ms, binEdges := Edges(s.preMs, s.postMs, ms)), true)
  }

  /** `setWindowSizeMs` (lines 187-197): new window, edges rebuilt with the current bin
      size, and one more full recount. */
  function WindowSizeSet(s: HistogramState, pre: int, post: int): HistogramState
    requires s.binSizeMs > 0 || -pre >= post
    requires s.retained.Parallel()
  {
    AfterRecount(BinSizeSet(s.(preMs := pre, postMs := post), s.binSizeMs), true)
  }

  /** `clear` (lines 144-153): forget the retained spikes and the trial count, recount. */
  function Cleared(s: HistogramState): HistogramState
  {
    AfterRecount(s.(retained := Retained([], [], []), numTrials := 0), true)
  }

  /** The numeric part of the `getInfo` snapshot. */
  datatype HistogramInfo = HistogramInfo(trialCount: int, binEdges: seq<int>, spikeCounts: seq<int>)

  /** `getInfo` (lines 537-564): the trial count, every edge but the last, and row 0. */
  function InfoOf(s: HistogramState): HistogramInfo
  {
    var n := NumBins(s.binEdges);
    HistogramInfo(s.numTrials, s.binEdges[..n], seq(n, j => Row0(s.counts, j)))
  }

  // ---------------------------------------------------------------------------------
  // addSpike

  /** `addSpike` keeps the bookkeeping invariant, buffers the spike in both arrays in
      lock-step, registers its unit exactly once (in arrival order, one new count row
      for a new unit and none for a known one), leaves the retained spikes alone, and
      keeps the counts current exactly when the unit was already known or there are no
      bins: a new unit's row is empty. */
  lemma SpikeAddedEffect(s: HistogramState, sampleNumber: int, sortedId: int)
    requires Consistent(s)
    ensures var s' := SpikeAdded(s, sampleNumber, sortedId);
      && s'.newSpikeSampleNumbers == s.newSpikeSampleNumbers + [sampleNumber]
      && s'.newSpikeSortedIds == s.newSpikeSortedIds + [sortedId]
      && s'.retained == s.retained
      && sortedId in s'.uniqueSortedIds
      && (sortedId in s.uniqueSortedIds ==> s'.uniqueSortedIds == s.uniqueSortedIds && s'.counts == s.counts)
      && (sortedId !in s.uniqueSortedIds ==>
            s'.uniqueSortedIds == s.uniqueSortedIds + [sortedId] && s'.counts == s.counts + [[]])
      && (CountsCurrent(s) ==> (CountsCurrent(s') <==> sortedId in s.uniqueSortedIds || NumBins(s.binEdges) == 0))
  {
    var s' := SpikeAdded(s, sampleNumber, sortedId);
    if sortedId !in s.uniqueSortedIds {
      assert s'.uniqueSortedIds[|s.uniqueSortedIds|] == sortedId;
      if CountsCurrent(s) && NumBins(s.binEdges) != 0 {
        assert |s'.counts[|s.counts|]| == 0;
      }
      if CountsCurrent(s) && NumBins(s.binEdges) == 0 {
        assert Rectangular(s'.counts, 0);
      }
    }
  }

  /** `addSpike` keeps the bookkeeping invariant: a new unit is registered once, with its
      own row, and raises `maxSortedId` to cover it. */
  lemma SpikeAddedConsistent(s: HistogramState, sampleNumber: int, sortedId: int)
    requires Consistent(s)
    ensures Consistent(SpikeAdded(s, sampleNumber, sortedId))
  {
    var s' := SpikeAdded(s, sampleNumber, sortedId);
    if sortedId !in s.uniqueSortedIds {
      assert s'.uniqueSortedIds[|s.uniqueSortedIds|] == sortedId;
      assert forall i :: 0 <= i < |s.uniqueSortedIds| ==> s'.uniqueSortedIds[i] == s.uniqueSortedIds[i];
    }
  }

  // ---------------------------------------------------------------------------------
  // addEvent and timerCallback

  /** A trigger is latched only when no window is open: the window opens and the trigger's
      sample number is recorded; while a window is open a trigger changes nothing. */
  lemma EventLatch(s: HistogramState, sampleNumber: int)
    ensures var s' := EventAdded(s, sampleNumber);
      && s'.waitingForWindowToClose
      && (!s.waitingForWindowToClose ==> s'.latestEventSampleNumber == sampleNumber)
      && (s.waitingForWindowToClose ==> s' == s)
      && s'.retained == s.retained && s'.counts == s.counts && s'.numTrials == s.numTrials
  {
  }

  /** Of two triggers arriving in one window, the second is ignored. */
  lemma SecondEventIgnored(s: HistogramState, first: int, second: int)
    ensures EventAdded(EventAdded(s, first), second) == EventAdded(s, first)
  {
  }

  /** Closing the window re-arms the latch: the next trigger is recorded. */
  lemma WindowCloseRearms(s: HistogramState, sampleRate: real, next: int)
    requires sampleRate > 0.0 && s.retained.Parallel()
    ensures !WindowClosed(s, sampleRate).waitingForWindowToClose
    ensures EventAdded(WindowClosed(s, sampleRate), next).latestEventSampleNumber == next
  {
  }

  // ---------------------------------------------------------------------------------
  // update

  /** The positions among the first `n` buffered spikes whose offset is inside the
      window, in increasing order. */
  function KeptIndices(samples: seq<int>, event: int, sampleRate: real, n: nat): (K: seq<int>)
    requires sampleRate > 0.0 && n <= |samples|
    ensures forall k :: 0 <= k < |K| ==> 0 <= K[k] < n
  {
    if n == 0 then []
    else KeptIndices(samples, event, sampleRate, n - 1)
           + (if InWindow(Offset(samples[n - 1], event, sampleRate)) then [n - 1] else [])
  }

  /** `KeptIndices` lists exactly the in-window positions below `n`, each once, in
      increasing order. */
  lemma {:induction false} KeptIndicesExact(samples: seq<int>, event: int, sampleRate: real, n: nat)
    requires sampleRate > 0.0 && n <= |samples|
    ensures var K := KeptIndices(samples, event, sampleRate, n);
      && (forall a, b :: 0 <= a < b < |K| ==> K[a] < K[b])
      && (forall i :: 0 <= i < n ==> (i in K <==> InWindow(Offset(samples[i], event, sampleRate))))
  {
    if n > 0 {
      KeptIndicesExact(samples, event, sampleRate, n - 1);
    }
  }

  /** What the loop of `update` appends: for the kept positions, in order, their offsets,
      their units and the trial tag; what was retained before is kept as a prefix. */
  lemma {:induction false} AlignedAppends(r: Retained, samples: seq<int>, ids: seq<int>, event: int,
                                          sampleRate: real, trial: int, n: nat)
    requires sampleRate > 0.0 && n <= |samples| && r.Parallel()
    ensures var K := KeptIndices(samples, event, sampleRate, n);
            var r' := Aligned(r, samples, ids, event, sampleRate, trial, n);
      && r'.times == r.times + seq(|K|, k requires 0 <= k < |K| => Offset(samples[K[k]], event, sampleRate))
      && r'.ids == r.ids + seq(|K|, k requires 0 <= k < |K| => Get(ids, K[k]))
      && r'.trials == r.trials + seq(|K|, _ => trial)
  {
    if n > 0 {
      AlignedAppends(r, samples, ids, event, sampleRate, trial, n - 1);
      var K' := KeptIndices(samples, event, sampleRate, n - 1);
      var K := KeptIndices(samples, event, sampleRate, n);
      if InWindow(Offset(samples[n - 1], event, sampleRate)) {
        assert K == K' + [n - 1];
        assert seq(|K|, k requires 0 <= k < |K| => Offset(samples[K[k]], event, sampleRate))
            == seq(|K'|, k requires 0 <= k < |K'| => Offset(samples[K'[k]], event, sampleRate))
               + [Offset(samples[n - 1], event, sampleRate)];
        assert seq(|K|, k requires 0 <= k < |K| => Get(ids, K[k]))
            == seq(|K'|, k requires 0 <= k < |K'| => Get(ids, K'[k])) + [Get(ids, n - 1)];
        assert seq(|K|, _ => trial) == seq(|K'|, _ => trial) + [trial];
      } else {
        assert K == K';
      }
    }
  }

  /** The retained spikes after `update` extend those before: same prefix, the new ones
      tagged with `trial`, each new unit one of the buffered units. */
  lemma AlignedExtends(r: Retained, samples: seq<int>, ids: seq<int>, event: int,
                       sampleRate: real, trial: int, uniq: seq<int>)
    requires sampleRate > 0.0 && |ids| == |samples| && r.Parallel()
    requires Registered(r, uniq) && forall i :: 0 <= i < |ids| ==> ids[i] in uniq
    ensures var r' := Aligned(r, samples, ids, event, sampleRate, trial, |samples|);
      && r'.Parallel()
      && |r'.times| >= |r.times|
      && r'.times[..|r.times|] == r.times
      && r'.ids[..|r.ids|] == r.ids
      && r'.trials[..|r.trials|] == r.trials
      && (forall i :: |r.trials| <= i < |r'.trials| ==> r'.trials[i] == trial)
      && Registered(r', uniq)
  {
    var K := KeptIndices(samples, event, sampleRate, |samples|);
    AlignedAppends(r, samples, ids, event, sampleRate, trial, |samples|);
    KeptIndicesExact(samples, event, sampleRate, |samples|);
    var r' := Aligned(r, samples, ids, event, sampleRate, trial, |samples|);
    assert r'.times[..|r.times|] == r.times;
    assert r'.ids[..|r.ids|] == r.ids;
    assert r'.trials[..|r.trials|] == r.trials;
    forall i | 0 <= i < |r'.ids|
      ensures r'.ids[i] in uniq
    {
      if i >= |r.ids| {
        assert r'.ids[i] == Get(ids, K[i - |r.ids|]);
      }
    }
  }

  /** Counting over the first `n` spikes only looks at those `n`. */
  lemma {:induction false} CountPrefix(r: Retained, r': Retained, sel: Selection, unit: int,
                                       edges: seq<int>, j: int, n: nat)
    requires r.Parallel() && r'.Parallel() && n <= |r.times| <= |r'.times|
    requires r'.times[..|r.times|] == r.times && r'.ids[..|r.ids|] == r.ids
    requires r'.trials[..|r.trials|] == r.trials
    requires 0 <= j && j + 1 < |edges|
    ensures Count(r', sel, unit, edges, j, n) == Count(r, sel, unit, edges, j, n)
  {
    if n > 0 {
      CountPrefix(r, r', sel, unit, edges, j, n - 1);
      assert r'.times[n - 1] == r.times[n - 1];
      assert r'.ids[n - 1] == r.ids[n - 1];
      assert r'.trials[n - 1] == r.trials[n - 1];
    }
  }

  /** Spikes tagged `latest` or later add nothing to a count of the earlier trials. */
  lemma {:induction false} CountBeforeSkipsLatest(r: Retained, unit: int, edges: seq<int>, j: int,
                                                  latest: int, m: nat, n: nat)
    requires r.Parallel() && m <= n <= |r.times| && 0 <= j && j + 1 < |edges|
    requires forall i :: m <= i < n ==> r.trials[i] == latest
    ensures Count(r, BeforeTrial(latest), unit, edges, j, n) == Count(r, BeforeTrial(latest), unit, edges, j, m)
  {
    if n > m {
      CountBeforeSkipsLatest(r, unit, edges, j, latest, m, n - 1);
    }
  }

  /** When every tag is below `latest`, counting the earlier trials counts everything. */
  lemma {:induction false} CountBeforeIsAll(r: Retained, unit: int, edges: seq<int>, j: int, latest: int, n: nat)
    requires r.Parallel() && n <= |r.times| && 0 <= j && j + 1 < |edges|
    requires forall i :: 0 <= i < n ==> r.trials[i] < latest
    ensures Count(r, BeforeTrial(latest), unit, edges, j, n) == Count(r, AllTrials, unit, edges, j, n)
  {
    if n > 0 {
      CountBeforeIsAll(r, unit, edges, j, latest, n - 1);
    }
  }

  /** `update` keeps the bookkeeping invariant, advances the trial counter by exactly one,
      and leaves the buffers, the registry and the edges alone. */
  lemma UpdatedEffect(s: HistogramState, sampleRate: real)
    requires sampleRate > 0.0 && Consistent(s)
    ensures var s' := Updated(s, sampleRate);
      && Consistent(s')
      && s'.numTrials == s.numTrials + 1
      && s'.newSpikeSampleNumbers == s.newSpikeSampleNumbers
      && s'.newSpikeSortedIds == s.newSpikeSortedIds
      && s'.uniqueSortedIds == s.uniqueSortedIds
      && s'.binEdges == s.binEdges
  {
    var samples := s.newSpikeSampleNumbers;
    AlignedExtends(s.retained, samples, s.newSpikeSortedIds, s.latestEventSampleNumber,
                   sampleRate, s.numTrials, s.uniqueSortedIds);
    var r := Aligned(s.retained, samples, s.newSpikeSortedIds, s.latestEventSampleNumber,
                     sampleRate, s.numTrials, |samples|);
    var s1 := s.(retained := r, numTrials := s.numTrials + 1);
    RecountedRows(s1.counts, s1.binEdges, r, s1.uniqueSortedIds, s1.numTrials, s1.numTrials == 1);
    forall i | 0 <= i < |r.trials|
      ensures 0 <= r.trials[i] < s1.numTrials
    {
      if i < |s.retained.trials| {
        assert r.trials[i] == r.trials[..|s.retained.trials|][i];
      }
    }
  }

  /** `update` extends the retained spikes by exactly the in-window buffered ones, in
      buffer order, each with its unit and tagged with the trial index from before the
      increment; the spikes retained earlier stay in front. */
  lemma UpdatedRetains(s: HistogramState, sampleRate: real)
    requires sampleRate > 0.0 && Consistent(s)
    ensures var r' := Updated(s, sampleRate).retained;
            var K := KeptIndices(s.newSpikeSampleNumbers, s.latestEventSampleNumber, sampleRate,
                                 |s.newSpikeSampleNumbers|);
      && r'.times == s.retained.times
           + seq(|K|, k requires 0 <= k < |K| =>
                   Offset(s.newSpikeSampleNumbers[K[k]], s.latestEventSampleNumber, sampleRate))
      && r'.ids == s.retained.ids + seq(|K|, k requires 0 <= k < |K| => s.newSpikeSortedIds[K[k]])
      && r'.trials == s.retained.trials + seq(|K|, _ => s.numTrials)
  {
    var samples := s.newSpikeSampleNumbers;
    var ids := s.newSpikeSortedIds;
    var K := KeptIndices(samples, s.latestEventSampleNumber, sampleRate, |samples|);
    AlignedAppends(s.retained, samples, ids, s.latestEventSampleNumber,
                   sampleRate, s.numTrials, |samples|);
    assert seq(|K|, k requires 0 <= k < |K| => Get(ids, K[k]))
        == seq(|K|, k requires 0 <= k < |K| => ids[K[k]]);
  }

  /** A recount keeps the number of rows. */
  lemma RecountedRows(counts: seq<seq<int>>, edges: seq<int>, r: Retained, uniq: seq<int>,
                      numTrials: int, full: bool)
    requires r.Parallel()
    ensures |Recounted(counts, edges, r, uniq, numTrials, full).counts| == |counts|
  {
    var start := if full then ResetRows(counts, |edges| - 1) else counts;
    SweepRows(Tally(start, 1), edges, r, uniq, RecountSelection(numTrials, full), |r.times|);
  }

  lemma {:induction false} SweepRows(tl: Tally, edges: seq<int>, r: Retained, uniq: seq<int>,
                                     sel: Selection, n: nat)
    requires r.Parallel() && n <= |r.times|
    ensures |SpikeSweep(tl, edges, r, uniq, sel, n).counts| == |tl.counts|
  {
    if n > 0 {
      SweepRows(tl, edges, r, uniq, sel, n - 1);
      var prev := SpikeSweep(tl, edges, r, uniq, sel, n - 1);
      BinSweepRows(prev, edges, r.times[n - 1], IndexOf(uniq, r.ids[n - 1]), NumBins(edges));
    }
  }

  lemma {:induction false} BinSweepRows(tl: Tally, edges: seq<int>, t: real, idx: int, k: nat)
    requires k <= NumBins(edges)
    ensures |BinSweep(tl, edges, t, idx, k).counts| == |tl.counts|
  {
    if k > 0 {
      BinSweepRows(tl, edges, t, idx, k - 1);
    }
  }

  /** The guarantee the incremental path of `update` is built on: if the counts were
      current and every row already has one entry per bin, they are current after
      `update` too, and after the first trial they are current whatever they held. */
  lemma UpdatedKeepsCountsCurrent(s: HistogramState, sampleRate: real)
    requires sampleRate > 0.0 && Consistent(s)
    requires CountsCurrent(s) || s.numTrials == 0
    ensures CountsCurrent(Updated(s, sampleRate))
  {
    var r := UpdatedRecountInputs(s, sampleRate);
    var res := Recounted(s.counts, s.binEdges, r, s.uniqueSortedIds, s.numTrials + 1, s.numTrials == 0);
    assert Updated(s, sampleRate).counts == res.counts;
  }

  /** When the trial just finished retained at least one spike, `update` leaves
      `maxCount` as the display scale of row 0 (the largest count, at least 1). */
  lemma UpdatedScale(s: HistogramState, sampleRate: real)
    requires sampleRate > 0.0 && Consistent(s)
    requires CountsCurrent(s) || s.numTrials == 0
    ensures var s' := Updated(s, sampleRate);
      AnyPicked(s'.retained, OnlyTrial(s.numTrials), |s'.retained.times|) ==>
        IsScale(s'.maxCount, s'.counts, NumBins(s.binEdges))
  {
    var r := UpdatedRecountInputs(s, sampleRate);
    var res := Recounted(s.counts, s.binEdges, r, s.uniqueSortedIds, s.numTrials + 1, s.numTrials == 0);
    assert Updated(s, sampleRate).counts == res.counts;
  }

  /** The retained spikes `update` recounts, and the facts its recount relies on. */
  lemma UpdatedRecountInputs(s: HistogramState, sampleRate: real) returns (r: Retained)
    requires sampleRate > 0.0 && Consistent(s)
    requires CountsCurrent(s) || s.numTrials == 0
    ensures r == Aligned(s.retained, s.newSpikeSampleNumbers, s.newSpikeSortedIds,
                         s.latestEventSampleNumber, sampleRate, s.numTrials, |s.newSpikeSampleNumbers|)
    ensures var res := Recounted(s.counts, s.binEdges, r, s.uniqueSortedIds, s.numTrials + 1, s.numTrials == 0);
      && r.Parallel()
      && Rectangular(res.counts, NumBins(s.binEdges))
      && (forall u, j {:trigger res.counts[u][j]} :: 0 <= u < |res.counts| && 0 <= u < |s.uniqueSortedIds| && 0 <= j < NumBins(s.binEdges) ==>
            res.counts[u][j] == Count(r, AllTrials, s.uniqueSortedIds[u], s.binEdges, j, |r.times|))
      && (AnyPicked(r, OnlyTrial(s.numTrials), |r.times|) ==> IsScale(res.maxCount, res.counts, NumBins(s.binEdges)))
  {
    var uniq := s.uniqueSortedIds;
    var T := s.numTrials;
    AlignedExtends(s.retained, s.newSpikeSampleNumbers, s.newSpikeSortedIds, s.latestEventSampleNumber,
                   sampleRate, T, uniq);
    r := Aligned(s.retained, s.newSpikeSampleNumbers, s.newSpikeSortedIds, s.latestEventSampleNumber,
                 sampleRate, T, |s.newSpikeSampleNumbers|);
    if T != 0 {
      ExtensionCountsEarlierTrials(s.retained, r, s.counts, uniq, s.binEdges, T);
    }
    RecountedCurrent(s.counts, s.binEdges, r, uniq, T + 1, T == 0);
  }

  /** Either recount path leaves the counts current: the full one always, the incremental
      one when the matrix already held the counts of every earlier trial.  `maxCount` is
      then the scale of row 0 whenever the latest trial retained a spike. */
  lemma RecountedCurrent(counts: seq<seq<int>>, edges: seq<int>, r: Retained, uniq: seq<int>,
                         numTrials: int, full: bool)
    requires r.Parallel() && Registered(r, uniq) && NoDuplicates(uniq) && |counts| == |uniq|
    requires !full ==>
      && (forall i :: 0 <= i < |r.trials| ==> r.trials[i] < numTrials)
      && Rectangular(counts, NumBins(edges))
      && (forall u, j :: 0 <= u < |counts| && 0 <= j < NumBins(edges) ==>
            counts[u][j] == Count(r, BeforeTrial(numTrials - 1), uniq[u], edges, j, |r.times|))
    ensures var res := Recounted(counts, edges, r, uniq, numTrials, full);
      && Rectangular(res.counts, NumBins(edges))
      && (forall u, j {:trigger res.counts[u][j]} :: 0 <= u < |res.counts| && 0 <= u < |uniq| && 0 <= j < NumBins(edges) ==>
            res.counts[u][j] == Count(r, AllTrials, uniq[u], edges, j, |r.times|))
      && (AnyPicked(r, OnlyTrial(numTrials - 1), |r.times|) ==> IsScale(res.maxCount, res.counts, NumBins(edges)))
  {
    FullRecount(counts, edges, r, uniq, numTrials);
    if !full {
      IncrementalMatchesFull(counts, edges, r, uniq, numTrials);
    }
  }

  /** When `r` extends `r0` by spikes of trial `T` only, and every spike of `r0` belongs to
      an earlier trial, counts that were current for `r0` are the counts of the trials
      before `T` in `r`. */
  lemma ExtensionCountsEarlierTrials(r0: Retained, r: Retained, counts: seq<seq<int>>, uniq: seq<int>,
                                     edges: seq<int>, T: int)
    requires r0.Parallel() && r.Parallel() && |r0.times| <= |r.times| && |counts| == |uniq|
    requires Rectangular(counts, NumBins(edges))
    requires r.times[..|r0.times|] == r0.times && r.ids[..|r0.ids|] == r0.ids
    requires r.trials[..|r0.trials|] == r0.trials
    requires forall i :: |r0.trials| <= i < |r.trials| ==> r.trials[i] == T
    requires forall i :: 0 <= i < |r0.trials| ==> r0.trials[i] < T
    requires forall u, j {:trigger counts[u][j]} :: 0 <= u < |counts| && 0 <= u < |uniq| && 0 <= j < NumBins(edges) ==>
               counts[u][j] == Count(r0, AllTrials, uniq[u], edges, j, |r0.times|)
    ensures forall i :: 0 <= i < |r.trials| ==> r.trials[i] < T + 1
    ensures forall u, j :: 0 <= u < |counts| && 0 <= j < NumBins(edges) ==>
              counts[u][j] == Count(r, BeforeTrial(T), uniq[u], edges, j, |r.times|)
  {
    forall i | 0 <= i < |r.trials|
      ensures r.trials[i] < T + 1
    {
      if i < |r0.trials| {
        assert r.trials[i] == r.trials[..|r0.trials|][i];
      }
    }
    forall u, j | 0 <= u < |counts| && 0 <= j < NumBins(edges)
      ensures counts[u][j] == Count(r, BeforeTrial(T), uniq[u], edges, j, |r.times|)
    {
      CountBeforeSkipsLatest(r, uniq[u], edges, j, T, |r0.times|, |r.times|);
      CountPrefix(r0, r, BeforeTrial(T), uniq[u], edges, j, |r0.times|);
      CountBeforeIsAll(r0, uniq[u], edges, j, T, |r0.times|);
    }
  }

  // ---------------------------------------------------------------------------------
  // setBinSizeMs, setWindowSizeMs, clear

  /** A full recount keeps the bookkeeping invariant and makes the counts current with
      `maxCount` the scale of row 0. */
  lemma FullRecountEffect(s: HistogramState)
    requires Consistent(s)
    ensures var s' := AfterRecount(s, true);
      && Consistent(s')
      && CountsCurrent(s')
      && IsScale(s'.maxCount, s'.counts, NumBins(s.binEdges))
  {
    FullRecount(s.counts, s.binEdges, s.retained, s.uniqueSortedIds, s.numTrials);
  }

  /** `setBinSizeMs` installs the edges from -pre to post in steps of the bin size and
      leaves the counts current for them. */
  lemma BinSizeSetEffect(s: HistogramState, ms: int)
    requires Consistent(s) && (ms > 0 || -s.preMs >= s.postMs)
    ensures var s' := BinSizeSet(s, ms);
      && Consistent(s')
      && s'.binSizeMs == ms
      && s'.binEdges == Edges(s.preMs, s.postMs, ms)
      && CountsCurrent(s')
      && s'.retained == s.retained
  {
    FullRecountEffect(s.(binSizeMs := ms, binEdges := Edges(s.preMs, s.postMs, ms)));
  }

  /** `setWindowSizeMs` installs the new window's edges and leaves the counts current. */
  lemma WindowSizeSetEffect(s: HistogramState, pre: int, post: int)
    requires Consistent(s) && (s.binSizeMs > 0 || -pre >= post)
    ensures var s' := WindowSizeSet(s, pre, post);
      && Consistent(s')
      && s'.preMs == pre && s'.postMs == post
      && s'.binEdges == Edges(pre, post, s.binSizeMs)
      && CountsCurrent(s')
  {
    var s1 := s.(preMs := pre, postMs := post);
    BinSizeSetEffect(s1, s.binSizeMs);
    FullRecountEffect(BinSizeSet(s1, s.binSizeMs));
  }

  /** `clear` forgets the retained spikes and the trial count and leaves every count row
      all zero, one entry per bin; the registry, the buffered spikes and the edges are
      untouched, and `maxCount` is 1. */
  lemma ClearedEffect(s: HistogramState)
    requires Consistent(s)
    ensures var s' := Cleared(s);
      && Consistent(s')
      && CountsCurrent(s')
      && s'.retained == Retained([], [], [])
      && s'.numTrials == 0
      && |s'.counts| == |s.counts|
      && (forall u, j :: 0 <= u < |s'.counts| && 0 <= j < NumBins(s.binEdges) ==> s'.counts[u][j] == 0)
      && s'.maxCount == 1
      && s'.uniqueSortedIds == s.uniqueSortedIds
      && s'.newSpikeSampleNumbers == s.newSpikeSampleNumbers
      && s'.newSpikeSortedIds == s.newSpikeSortedIds
      && s'.binEdges == s.binEdges
  {
    var s1 := s.(retained := Retained([], [], []), numTrials := 0);
    FullRecountEffect(s1);
  }

  /** A fresh histogram is consistent, and so is the one its constructor leaves. */
  lemma FreshConsistent()
    ensures Consistent(Fresh()) && Consistent(Cleared(Fresh()))
    ensures Cleared(Fresh()).numTrials == 0 && Cleared(Fresh()).binEdges == []
  {
    ClearedEffect(Fresh());
  }

  // ---------------------------------------------------------------------------------
  // getInfo

  /** The snapshot reports the trial count, the first `nBins` edges (every edge but the
      final `post`), and for each bin the count of the first registered unit — when the
      counts are current, the number of its retained spikes inside that bin. */
  lemma InfoReportsFirstUnit(s: HistogramState)
    ensures var info := InfoOf(s);
      && info.trialCount == s.numTrials
      && |info.binEdges| == NumBins(s.binEdges) == |info.spikeCounts|
      && (forall j :: 0 <= j < |info.binEdges| ==> info.binEdges[j] == s.binEdges[j])
      && (|s.binEdges| > 0 ==> info.binEdges + [s.binEdges[|s.binEdges| - 1]] == s.binEdges)
      && (CountsCurrent(s) && |s.counts| > 0 && |s.uniqueSortedIds| > 0 ==>
            forall j :: 0 <= j < |info.spikeCounts| ==>
              info.spikeCounts[j] == Count(s.retained, AllTrials, s.uniqueSortedIds[0], s.binEdges, j,
                                           |s.retained.times|))
      && (|s.counts| == 0 ==> forall j :: 0 <= j < |info.spikeCounts| ==> info.spikeCounts[j] == 0)
  {
    var info := InfoOf(s);
    if |s.binEdges| > 0 {
      assert info.binEdges + [s.binEdges[|s.binEdges| - 1]] == s.binEdges;
    }
  }

  // ---------------------------------------------------------------------------------
  // Behaviour of the code as written

  /** The new-spike buffer is not emptied by `update`: a spike buffered before the first
      trial is retained again in the second trial when it lies within a second of both
      triggers. */
  lemma BufferedSpikeRetainedTwice()
    ensures var s := SpikeAdded(Fresh(), 100, 0);
            var s1 := Updated(EventAdded(s, 0), 1000.0);
            var s2 := Updated(EventAdded(s1.(waitingForWindowToClose := false), 200), 1000.0);
      && |s1.retained.times| == 1
      && s2.retained.times == [100.0, -100.0]
      && s2.retained.trials == [0, 1]
  {
    var s := SpikeAdded(Fresh(), 100, 0);
    var e1 := EventAdded(s, 0);
    assert Offset(100, 0, 1000.0) == 100.0;
    assert Offset(100, 200, 1000.0) == -100.0;
    var s1 := Updated(e1, 1000.0);
    assert s1.retained == Retained([100.0], [0], [0]);
    var e2 := EventAdded(s1.(waitingForWindowToClose := false), 200);
    assert e2.latestEventSampleNumber == 200;
    assert Aligned(e2.retained, [100], [0], 200, 1000.0, 1, 1) == Retained([100.0, -100.0], [0, 0], [0, 1]);
  }

  // ---------------------------------------------------------------------------------
  // setPlotType

  /** Which layers are drawn: raster, histogram bars, histogram line. */
  datatype PlotFlags = PlotFlags(raster: bool, histogram: bool, line: bool)

  /** `setPlotType` (lines 199-232): types 1..5 select a layer combination; any other
      value leaves the flags as they were. */
  function PlotFlagsFor(plotType: int, current: PlotFlags): PlotFlags
  {
    if plotType == 1 then PlotFlags(false, true, false)
    else if plotType == 2 then PlotFlags(true, false, false)
    else if plotType == 3 then PlotFlags(true, true, false)
    else if plotType == 4 then PlotFlags(false, false, true)
    else if plotType == 5 then PlotFlags(true, false, true)
    else current
  }

  /** Each of the five plot types draws something, never bars and line together, and no
      two types draw the same combination; other values change nothing. */
  lemma PlotTypesDistinct(a: int, b: int, current: PlotFlags)
    ensures 1 <= a <= 5 ==> var f := PlotFlagsFor(a, current);
              (f.raster || f.histogram || f.line) && !(f.histogram && f.line)
    ensures 1 <= a <= 5 && 1 <= b <= 5 && a != b ==> PlotFlagsFor(a, current) != PlotFlagsFor(b, current)
    ensures !(1 <= a <= 5) ==> PlotFlagsFor(a, current) == current
  {
  }
}
