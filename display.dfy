/** The dispatch layer (Source/OnlinePSTHDisplay.cpp): the list of histograms, the map
    from spike channel to histogram, routing of spikes and triggers, broadcasting of
    settings, and the vertical layout. */
module Display {
  import opened HistogramSpec
  import opened Histograms

  /** What the display needs of a spike channel: its identity, its stream and the
      sample rate its histogram converts sample numbers with. */
  datatype SpikeChannel = SpikeChannel(id: int, streamId: int, sampleRate: real)

  class OnlinePsthDisplay {
    var histograms: seq<Histogram>
    var histogramMap: map<SpikeChannel, Histogram>
    var totalHeight: int
    var postMs: int
    /** The y coordinate each histogram was placed at by the last layout. */
    var tops: seq<int>

    /** Pixel height of one histogram and the gap below it (Source/OnlinePSTHDisplay.h:115-116). */
    const histogramHeight: int := 100
    const borderSize: int := 10

    /** Every histogram is valid and appears once, and every mapped histogram is listed. */
    ghost predicate Valid()
      reads this, set h | h in histograms
    {
      && AllValid(histograms)
      && (forall c :: c in histogramMap ==> histogramMap[c] in histograms)
    }

    /** `totalHeight` accounts for one histogram row per histogram. */
    ghost predicate HeightAccounted()
      reads this
    {
      totalHeight == |histograms| * (histogramHeight + borderSize)
    }

    constructor ()
      ensures Valid() && HeightAccounted()
      ensures histograms == [] && histogramMap == map[] && totalHeight == 0 && tops == []
    {
      histograms := [];
      histogramMap := map[];
      totalHeight := 0;
      tops := [];
    }

    /** `prepareToUpdate` (lines 41-46): every histogram and every mapping is dropped.  The
        zero-height bounds it sets change the component's size, so `resized` (lines 49-60)
        runs at once over the now empty list: `totalHeight` drops to 0 and nothing is laid
        out. */
    method PrepareToUpdate()
      modifies this
      ensures Valid() && HeightAccounted()
      ensures histograms == [] && histogramMap == map[]
      ensures totalHeight == 0 && tops == [] && postMs == old(postMs)
    {
      histograms := [];
      histogramMap := map[];
      Resized();
    }

    /** `addSpikeChannel` (lines 63-75): one new histogram for the channel, appended to the
        list, mapped from the channel (replacing any earlier mapping), one row taller. */
    method AddSpikeChannel(channel: SpikeChannel)
      requires Valid() && channel.sampleRate > 0.0
      modifies this
      ensures Valid()
      ensures |histograms| == |old(histograms)| + 1
      ensures histograms[..|old(histograms)|] == old(histograms)
      ensures fresh(histograms[|old(histograms)|])
      ensures histogramMap == old(histogramMap)[channel := histograms[|old(histograms)|]]
      ensures totalHeight == old(totalHeight) + histogramHeight + borderSize
      ensures old(HeightAccounted()) ==> HeightAccounted()
      ensures postMs == old(postMs) && tops == old(tops)
      ensures var h := histograms[|old(histograms)|];
        h.State() == Cleared(Fresh()) && h.streamId == channel.streamId && h.sampleRate == channel.sampleRate
    {
      var h := new Histogram(channel.sampleRate, channel.streamId);
      histograms := histograms + [h];
      histogramMap := histogramMap[channel := h];
      totalHeight := totalHeight + histogramHeight + borderSize;
    }

    /** `setWindowSizeMs` (lines 78-87): the same window for every histogram. */
    method SetWindowSizeMs(pre: int, post: int)
      requires Valid()
      requires forall i :: 0 <= i < |histograms| ==> histograms[i].binSizeMs > 0 || -pre >= post
      modifies this, histograms
      ensures Valid()
      ensures histograms == old(histograms) && histogramMap == old(histogramMap)
      ensures totalHeight == old(totalHeight) && postMs == post && tops == old(tops)
      ensures forall i :: 0 <= i < |histograms| ==>
                histograms[i].State() == WindowSizeSet(old(histograms[i].State()), pre, post)
    {
      postMs := post;
      SetWindowSizeEach(histograms, pre, post);
    }

    /** `setBinSizeMs` (lines 89-95): the same bin size for every histogram. */
    method SetBinSizeMs(binSize: int)
      requires Valid()
      requires forall i :: 0 <= i < |histograms| ==> binSize > 0 || -histograms[i].preMs >= histograms[i].postMs
      modifies histograms
      ensures Valid()
      ensures forall i :: 0 <= i < |histograms| ==>
                histograms[i].State() == BinSizeSet(old(histograms[i].State()), binSize)
    {
      SetBinSizeEach(histograms, binSize);
    }

    /** `pushEvent` (lines 97-106): the trigger reaches exactly the histograms of its
        stream; the others are left as they were. */
    method PushEvent(streamId: int, sampleNumber: int)
      requires Valid()
      modifies histograms
      ensures Valid()
      ensures forall i :: 0 <= i < |histograms| ==>
                histograms[i].State()
                  == if histograms[i].streamId == streamId
                     then EventAdded(old(histograms[i].State()), sampleNumber)
                     else old(histograms[i].State())
    {
      AddEventEach(histograms, streamId, sampleNumber);
    }

    /** `pushSpike` (lines 108-111): the spike reaches the histogram mapped to its channel
        and no other.  The channel must have been added: the source dereferences the
        mapping unconditionally. */
    method PushSpike(channel: SpikeChannel, sampleNumber: int, sortedId: int)
      requires Valid() && channel in histogramMap
      modifies histogramMap[channel]
      ensures Valid()
      ensures histogramMap[channel].State() == SpikeAdded(old(histogramMap[channel].State()), sampleNumber, sortedId)
      ensures forall i :: 0 <= i < |histograms| && histograms[i] != histogramMap[channel] ==>
                histograms[i].State() == old(histograms[i].State())
    {
      histogramMap[channel].AddSpike(sampleNumber, sortedId);
    }

    /** `clear` (lines 119-125): every histogram is cleared. */
    method Clear()
      requires Valid()
      modifies histograms
      ensures Valid()
      ensures forall i :: 0 <= i < |histograms| ==>
                histograms[i].State() == Cleared(old(histograms[i].State()))
    {
      ClearEach(histograms);
    }

    /** `resized` (lines 49-60): the histograms are stacked top to bottom, each one row of
        `histogramHeight + borderSize` below the previous, and `totalHeight` is the height
        of the stack. */
    method Resized()
      requires Valid()
      modifies this
      ensures Valid() && HeightAccounted()
      ensures histograms == old(histograms) && histogramMap == old(histogramMap)
      ensures postMs == old(postMs)
      ensures |tops| == |histograms|
      ensures forall i :: 0 <= i < |tops| ==> tops[i] == i * (histogramHeight + borderSize)
    {
      var height := 0;
      var ys: seq<int> := [];
      var i := 0;
      while i < |histograms|
        invariant 0 <= i <= |histograms|
        invariant |ys| == i && height == i * (histogramHeight + borderSize)
        invariant forall k :: 0 <= k < i ==> ys[k] == k * (histogramHeight + borderSize)
      {
        ys := ys + [height];
        height := height + histogramHeight + borderSize;
        i := i + 1;
      }
      totalHeight, tops := height, ys;
    }

    /** `getDesiredHeight` (lines 114-117). */
    method GetDesiredHeight() returns (height: int)
      ensures height == totalHeight
      ensures HeightAccounted() ==> height == |histograms| * (histogramHeight + borderSize)
    {
      height := totalHeight;
    }
  }

  /** Every histogram in `hs` is valid, and none is listed twice. */
  ghost predicate AllValid(hs: seq<Histogram>)
    reads set h | h in hs
  {
    && (forall i :: 0 <= i < |hs| ==> hs[i].Valid())
    && (forall i, j :: 0 <= i < j < |hs| ==> hs[i] != hs[j])
  }

  /** The loop of `setWindowSizeMs` (lines 83-86). */
  method SetWindowSizeEach(hs: seq<Histogram>, pre: int, post: int)
    requires AllValid(hs)
    requires forall i :: 0 <= i < |hs| ==> hs[i].binSizeMs > 0 || -pre >= post
    modifies hs
    ensures AllValid(hs)
    ensures forall i :: 0 <= i < |hs| ==> hs[i].State() == WindowSizeSet(old(hs[i].State()), pre, post)
  {
    var i := 0;
    while i < |hs|
      invariant 0 <= i <= |hs|
      invariant forall k :: 0 <= k < i ==>
                  hs[k].Valid() && hs[k].State() == WindowSizeSet(old(hs[k].State()), pre, post)
      invariant forall k :: i <= k < |hs| ==> unchanged(hs[k])
    {
      hs[i].SetWindowSizeMs(pre, post);
      i := i + 1;
    }
  }

  /** The loop of `setBinSizeMs` (lines 91-94). */
  method SetBinSizeEach(hs: seq<Histogram>, binSize: int)
    requires AllValid(hs)
    requires forall i :: 0 <= i < |hs| ==> binSize > 0 || -hs[i].preMs >= hs[i].postMs
    modifies hs
    ensures AllValid(hs)
    ensures forall i :: 0 <= i < |hs| ==> hs[i].State() == BinSizeSet(old(hs[i].State()), binSize)
  {
    var i := 0;
    while i < |hs|
      invariant 0 <= i <= |hs|
      invariant forall k :: 0 <= k < i ==>
                  hs[k].Valid() && hs[k].State() == BinSizeSet(old(hs[k].State()), binSize)
      invariant forall k :: i <= k < |hs| ==> unchanged(hs[k])
    {
      hs[i].SetBinSizeMs(binSize);
      i := i + 1;
    }
  }

  /** The loop of `pushEvent` (lines 100-104): only histograms of the event's stream see it. */
  method AddEventEach(hs: seq<Histogram>, streamId: int, sampleNumber: int)
    requires AllValid(hs)
    modifies hs
    ensures AllValid(hs)
    ensures forall i :: 0 <= i < |hs| ==>
              hs[i].State() == if hs[i].streamId == streamId
                               then EventAdded(old(hs[i].State()), sampleNumber)
                               else old(hs[i].State())
  {
    var i := 0;
    while i < |hs|
      invariant 0 <= i <= |hs|
      invariant forall k :: 0 <= k < i ==>
                  hs[k].Valid() &&
                  hs[k].State() == if hs[k].streamId == streamId
                                   then EventAdded(old(hs[k].State()), sampleNumber)
                                   else old(hs[k].State())
      invariant forall k :: i <= k < |hs| ==> unchanged(hs[k])
    {
      if hs[i].streamId == streamId {
        hs[i].AddEvent(sampleNumber);
      }
      i := i + 1;
    }
  }

  /** The loop of `clear` (lines 121-124). */
  method ClearEach(hs: seq<Histogram>)
    requires AllValid(hs)
    modifies hs
    ensures AllValid(hs)
    ensures forall i :: 0 <= i < |hs| ==> hs[i].State() == Cleared(old(hs[i].State()))
  {
    var i := 0;
    while i < |hs|
      invariant 0 <= i <= |hs|
      invariant forall k :: 0 <= k < i ==>
                  hs[k].Valid() && hs[k].State() == Cleared(old(hs[k].State()))
      invariant forall k :: i <= k < |hs| ==> unchanged(hs[k])
    {
      hs[i].Clear();
      i := i + 1;
    }
  }
}
