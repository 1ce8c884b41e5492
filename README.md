# Online PSTH — a verified model of the histogram engine, its dispatcher and the configuration rules

This project models the core of the Open Ephys "Online PSTH" plugin in Dafny:

- **The histogram engine** (`Source/Histogram.cpp`). It buffers spikes as they arrive. It latches one trigger at a time. When the one-second collection window closes, it turns the buffered spikes into offsets from the trigger, in milliseconds, and keeps those strictly inside (-1000, 1000). Each kept spike is tagged with the trial index. The engine builds integer bin edges from the window and the bin size, and counts retained spikes per unit and per bin. It recounts either fully or incrementally (the latest trial only). It exports the snapshot that `getInfo` returns.
- **The dispatcher** (`Source/OnlinePSTHDisplay.cpp`). It holds the list of histograms and the map from spike channel to histogram. It routes spikes by channel and triggers by stream. It broadcasts window, bin-size and clear requests to every histogram, and lays out the histograms vertically.
- **The popup's decision rules** (`Source/PopupConfigurationWindow.cpp`):
  - the trigger-type cycle;
  - the "number of conditions" field, which is kept in [1, 16];
  - the lines the "+" button adds and the state vector of the channel selector;
  - the TTL-line label and the line selector's state vector;
  - which rows a deletion removes.

The model follows the source's own form:

- `Histogram`, `OnlinePsthDisplay`, `TriggerSourceGenerator` and `OnlinePsthTableModel` are classes whose methods update their fields. Their loops carry invariants.
- Each `Histogram` method is proved equal to a transition on the value `HistogramState`, for example `State() == Updated(old(State()), sampleRate)`.
- The properties are proved as lemmas about those transitions.

Modules:

- `BinEdges` (bin_edges.dfy): the edge sequence and its geometry.
- `Counting` (counting.dfy):
  - the recount exactly as written, including JUCE `Array` access semantics;
  - its closed form: counts equal the number of retained spikes strictly inside each bin;
  - the agreement of the incremental and the full recount.
- `HistogramSpec` (histogram_state.dfy): the state value, its bookkeeping invariant, and one transition and its lemmas per operation.
- `Histograms` (histogram.dfy): the `Histogram` class, plus its loops as stand-alone methods.
- `Display` (display.dfy): the dispatcher.
- `Popup` (popup.dfy): the popup rules.

Choices made where the source leaves a question open:

- **JUCE `Array` semantics.** `operator[]` outside the array reads 0, or an empty row. `set(j, v)` with j at or past the end appends. So the incremental recount writes a new unit's count into that unit's empty row at position 0, not at its bin. `Counting.EmptyRowMisplacesCount` shows this with concrete values. The equality of the incremental and full recount is therefore proved under the condition that every row already has one entry per bin, which `update` guarantees once the counts are current (`HistogramSpec.UpdatedKeepsCountsCurrent`).
- **`recount()` without an argument.** The calls at `Source/Histogram.cpp:152`, `195` and `316` pass no argument, and no shown header declares a default. They are modelled as `recount(true)`.
- **`maxSortedId`** starts at 0. It is never initialised in `Source/Histogram.cpp`; 0 comes from `Source/Histogram.h:94`.
- **The new-spike buffer is not emptied** by `update` or `clear`, so a buffered spike is aligned again against every later trigger. `HistogramSpec.BufferedSpikeRetainedTwice` shows a spike retained in two trials. The model follows the code.
- **`maxCount` follows row 0 only**, that is the first registered unit, not the largest count over all units. An incremental recount whose latest trial retained no spike leaves it at 1 (`Counting.ScaleResetWithoutNewSpikes`).
- **`getInfo` reports row 0**, the first registered unit, whatever its id.

## Model

| member | source | states |
|---|---|---|
| BinEdges.EdgesGeometry | Source/Histogram.cpp:299-317 | The edges start at -pre and end at post, and increase strictly. Every bin is at most one bin size wide, and every bin but the last exactly one bin size. The number of bins is the ceiling of (pre + post) / bin. |
| BinEdges.EdgesFromShape | Source/Histogram.cpp:305-314 | Output of the edge loop: the running edge, then one bin size further each step, all below post. The last edge is post, and the last stepped edge plus one bin reaches post. An empty window gives just [post]. |
| BinEdges.EdgesIncrease | Source/Histogram.cpp:305-314 | A non-empty window with a positive bin size gives strictly increasing edges. |
| BinEdges.EdgesCount | Source/Histogram.cpp:305-314 | The loop makes ceil((pre + post) / bin) bins. |
| BinEdges.SymmetricWindowEdges | Source/Histogram.cpp:305-314 | A 50/50 ms window with 10 ms bins gives the eleven edges -50, -40, ..., 50. |
| BinEdges.TruncatedLastBin | Source/Histogram.cpp:305-314 | With post 45 the last bin is 40..45, so only the last bin is narrower. |
| Counting.IndexOf | Source/Histogram.cpp:163 | The position of the first occurrence of the id, or -1 exactly when the id is absent. |
| Counting.BinSweepEffect | Source/Histogram.cpp:341-360 | One spike's pass over the bins, on a rectangular matrix: only its unit's row rises by one, in every bin whose open interval holds the offset. `maxCount` becomes the max over row 0, old and new. |
| Counting.SpikeSweepEffect | Source/Histogram.cpp:334-363 | The pass over retained spikes adds, to each entry, the number of picked spikes of that unit strictly inside that bin. `maxCount` ends as the scale of row 0, or 1 when no spike was picked. |
| Counting.FullRecount | Source/Histogram.cpp:320-366 | After `recount(true)` every row has nBins entries. Entry [u][j] equals the number of retained spikes of unit u with edge[j] < t < edge[j+1]. `maxCount` is the maximum of row 0 and at least 1. |
| Counting.IncrementalRecount | Source/Histogram.cpp:320-366 | `recount(false)` on a rectangular matrix adds exactly the latest trial's spikes. `maxCount` is row 0's scale when that trial retained a spike, and 1 otherwise. |
| Counting.IncrementalMatchesFull | Source/Histogram.cpp:320-366 | If the rows hold the counts of the earlier trials, the incremental recount gives the same matrix as the full one. The scales agree too whenever the latest trial retained a spike. |
| Counting.EmptyRowMisplacesCount | Source/Histogram.cpp:349-355 | A unit first seen after the first trial has an empty row. The incremental path writes its bin-1 spike at position 0, where a full recount puts it at position 1. |
| Counting.ScaleResetWithoutNewSpikes | Source/Histogram.cpp:334 | When the latest trial retained no spike, the incremental path leaves `maxCount` at 1 while row 0 holds 3; the full recount gives 3. |
| HistogramSpec.SpikeAddedEffect | Source/Histogram.cpp:155-172 | Both buffers grow by the spike, in lock-step. A known unit changes neither the registry nor the counts. A new unit is appended with one empty row. Current counts stay current exactly when the unit was known or there are no bins. |
| HistogramSpec.SpikeAddedConsistent | Source/Histogram.cpp:155-172 | `addSpike` keeps the registry duplicate-free and in step with the rows, and keeps `maxSortedId` the largest id seen. |
| HistogramSpec.EventLatch | Source/Histogram.cpp:174-185 | A trigger is recorded and opens the window only when no window is open. While a window is open, a trigger changes nothing. |
| HistogramSpec.SecondEventIgnored | Source/Histogram.cpp:174-185 | Of two triggers in one window, the second has no effect. |
| HistogramSpec.WindowCloseRearms | Source/Histogram.cpp:527-534 | After the window closes, the latch is open and the next trigger is recorded. |
| HistogramSpec.KeptIndicesExact | Source/Histogram.cpp:275-287 | The kept buffer positions are increasing. A position is kept exactly when its offset lies strictly inside (-1000, 1000). |
| HistogramSpec.AlignedAppends | Source/Histogram.cpp:275-287 | The loop appends, for the kept positions in buffer order, their offsets, their units and the trial tag. |
| HistogramSpec.AlignedExtends | Source/Histogram.cpp:275-287 | The earlier retained spikes stay as a prefix, every new one carries the current trial tag, and every retained unit is registered. |
| HistogramSpec.UpdatedEffect | Source/Histogram.cpp:270-296 | `update` keeps the invariant and raises `numTrials` by exactly one. It leaves the buffers, the registry and the edges alone. |
| HistogramSpec.UpdatedRetains | Source/Histogram.cpp:270-296 | After `update` the retained spikes are the old ones followed by exactly the in-window buffered spikes. Each keeps its offset and unit and is tagged with the trial index from before the increment. |
| HistogramSpec.UpdatedKeepsCountsCurrent | Source/Histogram.cpp:289-294 | Counts that were current (or any counts before the first trial) are current after `update`, on both the incremental and the full path. |
| HistogramSpec.UpdatedScale | Source/Histogram.cpp:289-294 | When the trial just closed retained a spike, `maxCount` after `update` is the scale of row 0. |
| HistogramSpec.RecountedCurrent | Source/Histogram.cpp:320-366 | The full recount always makes the counts current. The incremental one does so when the matrix held the earlier trials' counts. Either way `maxCount` is row 0's scale when the latest trial retained a spike. |
| HistogramSpec.FullRecountEffect | Source/Histogram.cpp:320-366 | A full recount keeps the invariant, makes the counts current and sets `maxCount` to row 0's scale. |
| HistogramSpec.BinSizeSetEffect | Source/Histogram.cpp:299-317 | `setBinSizeMs` installs the bin size and the edges from -pre to post. The counts are current for the new edges and the retained spikes are untouched. |
| HistogramSpec.WindowSizeSetEffect | Source/Histogram.cpp:187-197 | `setWindowSizeMs` installs the window and the edges rebuilt with the current bin size. It leaves the counts current. |
| HistogramSpec.ClearedEffect | Source/Histogram.cpp:144-153 | `clear` empties the retained offsets, ids and tags, and sets `numTrials` to 0. Every row becomes all zero with one entry per bin, and `maxCount` 1. The registry, the buffers and the edges are untouched. |
| HistogramSpec.FreshConsistent | Source/Histogram.cpp:27-81 | The constructed histogram satisfies the invariant, with no trials and no edges yet. |
| HistogramSpec.InfoReportsFirstUnit | Source/Histogram.cpp:537-564 | The snapshot has the trial count and every edge but the final post. When the counts are current, it has, per bin, the number of retained spikes of the first registered unit. |
| HistogramSpec.BufferedSpikeRetainedTwice | Source/Histogram.cpp:270-296 | The buffer is not emptied: a spike within a second of two triggers is retained once per trial. |
| HistogramSpec.PlotTypesDistinct | Source/Histogram.cpp:199-232 | Types 1-5 each draw a different non-empty layer set, never bars and line together. Any other value changes nothing. |
| Histograms.Histogram.constructor | Source/Histogram.cpp:27-81 | Window 0/0 ms and 10 ms bins, then `clear`. The result is valid. |
| Histograms.Histogram.AddSpike | Source/Histogram.cpp:155-172 | The new state is `SpikeAdded` of the old, and the invariant holds. The plot flags are kept. |
| Histograms.Histogram.AddEvent | Source/Histogram.cpp:174-185 | The new state is `EventAdded` of the old. The plot flags are kept. |
| Histograms.Histogram.OnWindowTimeout | Source/Histogram.cpp:527-534 | It clears the latch, then runs `update`. The plot flags are kept. |
| Histograms.Histogram.Update | Source/Histogram.cpp:270-296 | The new state is `Updated` of the old: spikes aligned, one more trial, recounted fully when this is the first trial and incrementally after that. The plot flags are kept. |
| Histograms.Histogram.SetBinSizeMs | Source/Histogram.cpp:299-317 | The new state is `BinSizeSet` of the old. The plot flags are kept. |
| Histograms.Histogram.SetWindowSizeMs | Source/Histogram.cpp:187-197 | The new state is `WindowSizeSet` of the old. The plot flags are kept. |
| Histograms.Histogram.Recount | Source/Histogram.cpp:320-366 | The new counts and `maxCount` are the recount of the old state, as written. The plot flags are kept. |
| Histograms.Histogram.Clear | Source/Histogram.cpp:144-153 | The new state is `Cleared` of the old. The plot flags are kept. |
| Histograms.Histogram.GetInfo | Source/Histogram.cpp:537-564 | Returns the trial count, the first nBins edges and row 0's counts. |
| Histograms.Histogram.SetPlotType | Source/Histogram.cpp:199-232 | The layer flags follow the plot type, and the counting state is unchanged. |
| Histograms.BuildEdges | Source/Histogram.cpp:303-314 | The loop's result equals `Edges(pre, post, ms)`. |
| Histograms.ZeroedRows | Source/Histogram.cpp:325-332 | Every row becomes nBins zeros, and the number of rows is kept. |
| Histograms.CountRetained | Source/Histogram.cpp:334-363 | The outer loop equals the spike sweep from `maxCount` 1. |
| Histograms.CountInBins | Source/Histogram.cpp:341-360 | The inner loop equals the bin sweep for one spike. |
| Histograms.AlignBuffered | Source/Histogram.cpp:273-287 | The alignment loop equals `Aligned` over the whole buffer. |
| Display.OnlinePsthDisplay.constructor | Source/OnlinePSTHDisplay.cpp:26-29 | No histograms, an empty map, height 0. |
| Display.OnlinePsthDisplay.PrepareToUpdate | Source/OnlinePSTHDisplay.cpp:41-46 | Leaves no histograms and an empty channel map. The zero-height `setBounds` runs `resized` at once, so `totalHeight` is 0 and nothing is laid out; `postMs` is kept. |
| Display.OnlinePsthDisplay.AddSpikeChannel | Source/OnlinePSTHDisplay.cpp:63-75 | Appends exactly one fresh, cleared histogram for the channel's stream and rate, and maps the channel to it, replacing an earlier mapping. The earlier histograms stay. `totalHeight` grows by one row, and `postMs` and the layout are kept. |
| Display.OnlinePsthDisplay.SetWindowSizeMs | Source/OnlinePSTHDisplay.cpp:78-87 | Records post. Every histogram's new state is `WindowSizeSet` of its old state with the same pre and post. The layout is kept. |
| Display.OnlinePsthDisplay.SetBinSizeMs | Source/OnlinePSTHDisplay.cpp:89-95 | Every histogram's new state is `BinSizeSet` of its old state with the same bin size. |
| Display.OnlinePsthDisplay.PushEvent | Source/OnlinePSTHDisplay.cpp:97-106 | Histograms of the event's stream get `EventAdded`; all others are unchanged. |
| Display.OnlinePsthDisplay.PushSpike | Source/OnlinePSTHDisplay.cpp:108-111 | The mapped histogram gets `SpikeAdded`, and every other histogram is unchanged. |
| Display.OnlinePsthDisplay.Clear | Source/OnlinePSTHDisplay.cpp:119-125 | Every histogram's new state is `Cleared` of its old state. |
| Display.OnlinePsthDisplay.Resized | Source/OnlinePSTHDisplay.cpp:49-60 | Histogram i sits at y = i · (histogramHeight + borderSize), and `totalHeight` is n · (histogramHeight + borderSize). The histograms, the map and `postMs` are kept. |
| Display.OnlinePsthDisplay.GetDesiredHeight | Source/OnlinePSTHDisplay.cpp:114-117 | Returns `totalHeight`, which is n rows once the height is accounted. |
| Display.SetWindowSizeEach | Source/OnlinePSTHDisplay.cpp:83-86 | The broadcast loop applies `WindowSizeSet` to each histogram and keeps them valid. |
| Display.SetBinSizeEach | Source/OnlinePSTHDisplay.cpp:91-94 | The broadcast loop applies `BinSizeSet` to each histogram. |
| Display.AddEventEach | Source/OnlinePSTHDisplay.cpp:100-104 | The routing loop adds the event exactly to the histograms of its stream. |
| Display.ClearEach | Source/OnlinePSTHDisplay.cpp:121-124 | The loop clears each histogram. |
| Popup.TriggerTypeCycle | Source/PopupConfigurationWindow.cpp:103-128 | A click moves TTL → MSG → TTL+MSG → TTL. Every click changes the type, three clicks return, and every type is reachable. While acquisition is active a click changes nothing. |
| Popup.NatToDecimal | Source/PopupConfigurationWindow.cpp:92 | The decimal text of a number is digits only, with no leading zero. |
| Popup.DecimalRoundTrip | Source/PopupConfigurationWindow.cpp:92 | Reading the decimal text of n gives n. |
| Popup.LineLabelRoundTrip | Source/PopupConfigurationWindow.cpp:87-100 | Lines above -1 are labelled "TTL " with the 1-based number, and the label reads back as the line. Every other line is labelled "NONE". |
| Popup.LineLabelInjective | Source/PopupConfigurationWindow.cpp:87-100 | Two lines share a label exactly when they are equal. |
| Popup.SelectionLabel | Source/PopupConfigurationWindow.h:99-110 | After a selection, the cell shows the label of the first chosen line, or "NONE" when none was chosen. |
| Popup.LineSelectorStates | Source/PopupConfigurationWindow.cpp:61-85 | Nothing while acquisition is active. Otherwise 16 entries, where entry i is set exactly when i is the source's line, so at most one is set. |
| Popup.ClampedCountRange | Source/PopupConfigurationWindow.cpp:444-464 | The field ends in [1, 16]. Values in range are kept, values above become 16, values below revert, and the result is stable. |
| Popup.TriggerSourceGenerator.constructor | Source/PopupConfigurationWindow.cpp:400-440 | The field reads 1, TTL is selected, and no line is picked. |
| Popup.TriggerSourceGenerator.LabelTextChanged | Source/PopupConfigurationWindow.cpp:444-464 | The field becomes the clamped value. The last accepted value changes only when a value is accepted. |
| Popup.TriggerSourceGenerator.PlusClicked | Source/PopupConfigurationWindow.cpp:470-492 | Without a selection, lines 0..n-1 for the field value n; otherwise exactly the selected lines. Always the selected type. |
| Popup.TriggerSourceGenerator.ChannelSelectorClicked | Source/PopupConfigurationWindow.cpp:494-536 | 16 entries. Without a selection the first min(n, 16) are set; otherwise exactly the selected lines are. The selector may pick up to n lines. |
| Popup.TriggerSourceGenerator.ChannelStateChanged | Source/PopupConfigurationWindow.cpp:540-545 | The selector's choice becomes the selection, and nothing else changes. |
| Popup.PickedRowsExact | Source/PopupConfigurationWindow.cpp:236-240 | The picked rows are in table order, and a row is picked exactly when it is selected or clicked. |
| Popup.OnlinePsthTableModel.DeleteSelectedRows | Source/PopupConfigurationWindow.cpp:228-247 | Hands over the sources of the selected or clicked rows, in table order, and clears the selection. While acquisition is active it hands over nothing and keeps the selection. |

## Left out

- Timers and locking: `startTimer(1010)`, `stopTimer` and the `ScopedLock` in `addSpike` are not modelled. Window expiry is the explicit `OnWindowTimeout` call on a sequential object.
- Floating point: offsets are `real` values, `(sample - trigger) / sampleRate * 1000` with a positive rate. Bin edges are integers because pre, post and bin size are integers. Rounding is not modelled.
- Histogram labels, colours, names and the hover rate, along with `paint`, `resized` and `mouseMove` of a histogram. The `electrode`, `condition` and `color` fields of `getInfo` are left out too; only the trial count, the edges and the counts are modelled.
- The trigger source a histogram draws for is left out. `addSpikeChannel` constructs a histogram from the channel alone, while the constructor shown takes a channel and a trigger source; the model keeps only the sample rate and the stream id.
- Trigger-source registry: unique names, name counters, the colour palette, TTL+MSG arming, and the editor's `addTriggerSources` and `removeTriggerSources`. These live in code that is not part of this model, so the generator and the table return the lines and sources they would hand over.
- The plugin's TTL line and state gate, the canvas's plot-type persistence, the editor's rebuild loop and the timescale. They only forward or store values.
- Display.OnlinePsthDisplay.PushSpike: requires the channel to be mapped. The source dereferences the mapping without a check, so an unmapped channel is undefined behaviour there.
- Histograms.Histogram.SetBinSizeMs and Histograms.Histogram.SetWindowSizeMs: require a positive bin size unless the window is empty. Otherwise the source's edge loop never ends.
- Popup.TriggerSourceGenerator.LabelTextChanged: takes the integer value of the edited text (what `getIntValue` returns) instead of parsing the text.
- The trigger type chosen in the generator's combo box is a plain field; the combo box itself is not modelled.
- Popup layout and pixel sizing, and every other widget (text editors, buttons, call-out boxes).
- The display's `setPlotType` is declared in `Source/OnlinePSTHDisplay.h:66` and called from `Source/OnlinePSTHCanvas.cpp:146`, but `Source/OnlinePSTHDisplay.cpp` has no definition for it, so it is not modelled. The display's `refresh` only repaints and is not modelled either.
- The component's own bounds and width are not tracked. `PrepareToUpdate` takes the zero-height `setBounds` as always changing the size, which holds because the canvas always gives the display a non-zero height first.
