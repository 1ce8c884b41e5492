/** One PSTH for one spike channel and one trigger source (Source/Histogram.cpp): spikes
    are buffered, a trigger is latched, and when the collection window closes the
    buffered spikes are aligned to the trigger and binned.  Every method is proved to
    leave the state the matching transition of `HistogramSpec` describes. */
module Histograms {
  import opened BinEdges
  import opened Counting
  import opened HistogramSpec

  class Histogram {
    const sampleRate: real
    const streamId: int

    var preMs: int
    var postMs: int
    var binSizeMs: int
    var binEdges: seq<int>

    var relativeTimes: seq<real>
    var relativeTimeSortedIds: seq<int>
    var relativeTimeTrialIndices: seq<int>

    var newSpikeSampleNumbers: seq<int>
    var newSpikeSortedIds: seq<int>

    var uniqueSortedIds: seq<int>
    var counts: seq<seq<int>>
    var maxSortedId: int
    var maxCount: int
    var numTrials: int

    var waitingForWindowToClose: bool
    var latestEventSampleNumber: int

    var plotRaster: bool
    var plotHistogram: bool
    var plotLine: bool

    /** The fields as a `HistogramState` value. */
    ghost function State(): HistogramState
      reads this
    {
      HistogramState(preMs, postMs, binSizeMs, binEdges,
                     Retained(relativeTimes, relativeTimeSortedIds, relativeTimeTrialIndices),
                     newSpikeSampleNumbers, newSpikeSortedIds, uniqueSortedIds, counts,
                     maxSortedId, maxCount, numTrials, waitingForWindowToClose, latestEventSampleNumber)
    }

    /** The layers drawn, which only `SetPlotType` changes. */
    ghost function Flags(): PlotFlags
      reads this
    {
      PlotFlags(plotRaster, plotHistogram, plotLine)
    }

    ghost predicate Valid()
      reads this
    {
      sampleRate > 0.0 && Consistent(State())
    }

    /** Lines 27-81 without the labels and colours: window 0/0 ms, 10 ms bins, no edges
        yet, then `clear`. */
    constructor (sampleRate: real, streamId: int)
      requires sampleRate > 0.0
      ensures Valid()
      ensures State() == Cleared(Fresh())
      ensures this.sampleRate == sampleRate && this.streamId == streamId
    {
      this.sampleRate := sampleRate;
      this.streamId := streamId;
      preMs := 0;
      postMs := 0;
      binSizeMs := 10;
      binEdges := [];
      relativeTimes := [];
      relativeTimeSortedIds := [];
      relativeTimeTrialIndices := [];
      newSpikeSampleNumbers := [];
      newSpikeSortedIds := [];
      uniqueSortedIds := [];
      counts := [];
      maxSortedId := 0;
      maxCount := 1;
      numTrials := 0;
      waitingForWindowToClose := false;
      latestEventSampleNumber := 0;
      new;
      FreshConsistent();
      Clear();
    }

    /** `addSpike` (lines 155-172). */
    method AddSpike(sampleNumber: int, sortedId: int)
      requires Valid()
      modifies this
      ensures Valid()
      ensures State() == SpikeAdded(old(State()), sampleNumber, sortedId)
      ensures Flags() == old(Flags())
    {
      ghost var s0 := State();
      SpikeAddedConsistent(s0, sampleNumber, sortedId);
      newSpikeSampleNumbers := newSpikeSampleNumbers + [sampleNumber];
      newSpikeSortedIds := newSpikeSortedIds + [sortedId];
      var sortedIdIndex := IndexOf(uniqueSortedIds, sortedId);
      if sortedIdIndex < 0 {
        uniqueSortedIds := uniqueSortedIds + [sortedId];
        counts := counts + [[]];
        maxSortedId := Max(sortedId, maxSortedId);
      }
      assert State() == SpikeAdded(s0, sampleNumber, sortedId);
    }

    /** `addEvent` (lines 174-185); starting the 1010 ms timer is not modelled. */
    method AddEvent(sampleNumber: int)
      requires Valid()
      modifies this
      ensures Valid()
      ensures State() == EventAdded(old(State()), sampleNumber)
      ensures Flags() == old(Flags())
    {
      if !waitingForWindowToClose {
        latestEventSampleNumber := sampleNumber;
        waitingForWindowToClose := true;
      }
    }

    /** `timerCallback` (lines 527-534): the window has expired. */
    method OnWindowTimeout()
      requires Valid()
      modifies this
      ensures Valid()
      ensures State() == WindowClosed(old(State()), sampleRate)
      ensures Flags() == old(Flags())
    {
      waitingForWindowToClose := false;
      Update();
    }

    /** `update` (lines 270-296). */
    method Update()
      requires Valid()
      modifies this
      ensures Valid()
      ensures State() == Updated(old(State()), sampleRate)
      ensures Flags() == old(Flags())
    {
      UpdatedEffect(State(), sampleRate);
      var r := AlignBuffered(Retained(relativeTimes, relativeTimeSortedIds, relativeTimeTrialIndices),
                             newSpikeSampleNumbers, newSpikeSortedIds, latestEventSampleNumber,
                             sampleRate, numTrials);
      relativeTimes := r.times;
      relativeTimeSortedIds := r.ids;
      relativeTimeTrialIndices := r.trials;
      numTrials := numTrials + 1;
      Recount(numTrials == 1);
    }

    /** `setBinSizeMs` (lines 299-317).  The edge loop only ends when the bin size is
        positive or the window is empty, which is what the caller must guarantee. */
    method SetBinSizeMs(ms: int)
      requires Valid()
      requires ms > 0 || -preMs >= postMs
      modifies this
      ensures Valid()
      ensures State() == BinSizeSet(old(State()), ms)
      ensures Flags() == old(Flags())
    {
      BinSizeSetEffect(State(), ms);
      binSizeMs := ms;
      binEdges := BuildEdges(preMs, postMs, ms);
      Recount(true);
    }

    /** `setWindowSizeMs` (lines 187-197). */
    method SetWindowSizeMs(pre: int, post: int)
      requires Valid()
      requires binSizeMs > 0 || -pre >= post
      modifies this
      ensures Valid()
      ensures State() == WindowSizeSet(old(State()), pre, post)
      ensures Flags() == old(Flags())
    {
      WindowSizeSetEffect(State(), pre, post);
      preMs := pre;
      postMs := post;
      SetBinSizeMs(binSizeMs);
      Recount(true);
    }

    /** `recount(full)` (lines 320-366): the rows are reset to zeros when `full` is set,
        then the retained spikes the pass selects are binned. */
    method Recount(full: bool)
      requires |relativeTimeSortedIds| == |relativeTimes| && |relativeTimeTrialIndices| == |relativeTimes|
      modifies this
      ensures State() == AfterRecount(old(State()), full)
      ensures Flags() == old(Flags())
    {
      var cs := counts;
      if full {
        cs := ZeroedRows(cs, |binEdges| - 1);
      }
      var mc;
      cs, mc := CountRetained(cs, binEdges,
                              Retained(relativeTimes, relativeTimeSortedIds, relativeTimeTrialIndices),
                              uniqueSortedIds, RecountSelection(numTrials, full));
      counts := cs;
      maxCount := mc;
    }

    /** `clear` (lines 144-153). */
    method Clear()
      requires Valid()
      modifies this
      ensures Valid()
      ensures State() == Cleared(old(State()))
      ensures Flags() == old(Flags())
    {
      ClearedEffect(State());
      relativeTimes := [];
      relativeTimeSortedIds := [];
      relativeTimeTrialIndices := [];
      numTrials := 0;
      Recount(true);
    }

    /** The numeric part of `getInfo` (lines 537-564): the trial count, every edge but the
        last, and the counts of row 0. */
    method GetInfo() returns (info: HistogramInfo)
      ensures info == InfoOf(State())
      ensures info.trialCount == numTrials
      ensures |info.binEdges| == |info.spikeCounts| == NumBins(binEdges)
      ensures forall j :: 0 <= j < |info.binEdges| ==> info.binEdges[j] == binEdges[j]
      ensures forall j :: 0 <= j < |info.spikeCounts| ==> info.spikeCounts[j] == Row0(counts, j)
    {
      var edges, cs := binEdges, counts;
      var edgesOut: seq<int> := [];
      var spikeCounts: seq<int> := [];
      var bin := 0;
      while bin < |edges| - 1
        invariant 0 <= bin <= NumBins(edges)
        invariant edgesOut == edges[..bin]
        invariant spikeCounts == seq(bin, j => Row0(cs, j))
      {
        edgesOut := edgesOut + [edges[bin]];
        spikeCounts := spikeCounts + [Get(RowAt(cs, 0), bin)];
        bin := bin + 1;
      }
      info := HistogramInfo(numTrials, edgesOut, spikeCounts);
    }

    /** `setPlotType` (lines 199-232); the repaint is not modelled. */
    method SetPlotType(plotType: int)
      modifies this
      ensures Flags() == PlotFlagsFor(plotType, old(Flags()))
      ensures State() == old(State())
    {
      if plotType == 1 {
        plotRaster, plotHistogram, plotLine := false, true, false;
      } else if plotType == 2 {
        plotRaster, plotHistogram, plotLine := true, false, false;
      } else if plotType == 3 {
        plotRaster, plotHistogram, plotLine := true, true, false;
      } else if plotType == 4 {
        plotRaster, plotHistogram, plotLine := false, false, true;
      } else if plotType == 5 {
        plotRaster, plotHistogram, plotLine := true, false, true;
      }
    }
  }

  /** The edge loop of `setBinSizeMs` (lines 303-314): -pre, -pre + ms, ... while below
      post, then post itself. */
  method BuildEdges(pre: int, post: int, ms: int) returns (edges: seq<int>)
    requires ms > 0 || -pre >= post
    ensures edges == Edges(pre, post, ms)
  {
    edges := [];
    var binEdge := -pre;
    while binEdge < post
      invariant ms > 0 || binEdge >= post
      invariant edges + EdgesFrom(binEdge, post, ms) == Edges(pre, post, ms)
      decreases post - binEdge
    {
      assert EdgesFrom(binEdge, post, ms) == [binEdge] + EdgesFrom(binEdge + ms, post, ms);
      assert edges + ([binEdge] + EdgesFrom(binEdge + ms, post, ms))
          == (edges + [binEdge]) + EdgesFrom(binEdge + ms, post, ms);
      edges := edges + [binEdge];
      binEdge := binEdge + ms;
    }
    assert EdgesFrom(binEdge, post, ms) == [post];
    edges := edges + [post];
  }

  /** The reset loop of `recount(true)` (lines 327-331): every row becomes `nBins` zeros. */
  method ZeroedRows(counts: seq<seq<int>>, nBins: int) returns (cs: seq<seq<int>>)
    ensures cs == ResetRows(counts, nBins)
    ensures forall u :: 0 <= u < |cs| ==> |cs[u]| == (if nBins < 0 then 0 else nBins)
    ensures forall u, j :: 0 <= u < |cs| && 0 <= j < |cs[u]| ==> cs[u][j] == 0
  {
    cs := counts;
    var u := 0;
    while u < |cs|
      invariant 0 <= u <= |cs| == |counts|
      invariant forall k :: 0 <= k < u ==> cs[k] == Zeros(nBins)
    {
      cs := cs[u := Zeros(nBins)];
      u := u + 1;
    }
  }

  /** The loop over retained spikes of `recount` (lines 334-363): `maxCount` starts at 1
      and every spike the selection picks is binned. */
  method CountRetained(counts: seq<seq<int>>, edges: seq<int>, r: Retained, uniq: seq<int>, sel: Selection)
    returns (cs: seq<seq<int>>, mc: int)
    requires r.Parallel()
    ensures Tally(cs, mc) == SpikeSweep(Tally(counts, 1), edges, r, uniq, sel, |r.times|)
  {
    cs, mc := counts, 1;
    var i := 0;
    while i < |r.times|
      invariant 0 <= i <= |r.times|
      invariant Tally(cs, mc) == SpikeSweep(Tally(counts, 1), edges, r, uniq, sel, i)
    {
      if Picks(sel, r.trials[i]) {
        cs, mc := CountInBins(cs, mc, edges, r.times[i], uniq, r.ids[i]);
      }
      i := i + 1;
    }
  }

  /** The loop over bins of `recount` for one spike (lines 341-360): every bin first raises
      `maxCount` to row 0's count there; the bin strictly holding the offset gets one more
      count in the spike's unit row, and row 0's new count raises `maxCount` too. */
  method CountInBins(counts: seq<seq<int>>, maxCount: int, edges: seq<int>, t: real,
                     uniq: seq<int>, sortedId: int)
    returns (cs: seq<seq<int>>, mc: int)
    ensures Tally(cs, mc) == BinSweep(Tally(counts, maxCount), edges, t, IndexOf(uniq, sortedId), NumBins(edges))
  {
    cs, mc := counts, maxCount;
    var nBins := |edges| - 1;
    var j := 0;
    while j < nBins
      invariant 0 <= j <= NumBins(edges)
      invariant Tally(cs, mc) == BinSweep(Tally(counts, maxCount), edges, t, IndexOf(uniq, sortedId), j)
    {
      mc := Max(Get(RowAt(cs, 0), j), mc);
      if t > edges[j] as real && t < edges[j + 1] as real {
        var sortedIdIndex := IndexOf(uniq, sortedId);
        var lastCount := Get(RowAt(cs, sortedIdIndex), j);
        var newCount := lastCount + 1;
        if sortedIdIndex == 0 {
          mc := Max(newCount, mc);
        }
        cs := PutRow(cs, sortedIdIndex, Put(RowAt(cs, sortedIdIndex), j, newCount));
      }
      j := j + 1;
    }
  }

  /** The loop of `update` over the buffered spikes (lines 275-287): each spike's offset
      from the trigger in milliseconds; the ones strictly inside one second of it are
      retained with their unit and the current trial index. */
  method AlignBuffered(r: Retained, samples: seq<int>, ids: seq<int>, event: int, sampleRate: real, trial: int)
    returns (aligned: Retained)
    requires sampleRate > 0.0
    ensures aligned == Aligned(r, samples, ids, event, sampleRate, trial, |samples|)
  {
    var times, sortedIds, trials := r.times, r.ids, r.trials;
    var index := 0;
    while index < |samples|
      invariant 0 <= index <= |samples|
      invariant Retained(times, sortedIds, trials) == Aligned(r, samples, ids, event, sampleRate, trial, index)
    {
      var offsetMs := (samples[index] - event) as real / sampleRate * 1000.0;
      if offsetMs > -1000.0 && offsetMs < 1000.0 {
        times := times + [offsetMs];
        sortedIds := sortedIds + [Get(ids, index)];
        trials := trials + [trial];
      }
      index := index + 1;
    }
    aligned := Retained(times, sortedIds, trials);
  }
}
