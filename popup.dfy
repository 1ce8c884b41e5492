/** The decision logic of the configuration popup (Source/PopupConfigurationWindow.cpp):
    the trigger-type cycle, the TTL line label and line selector, the "add conditions"
    generator (count field, "+" button, channel selector) and the deletion of table rows. */
module Popup {

  datatype Option<T> = None | Some(value: T)

  datatype TriggerType = TtlTrigger | MsgTrigger | TtlAndMsgTrigger

  /** A trigger source as a table row sees it. */
  datatype TriggerSource = TriggerSource(name: string, line: int, triggerType: TriggerType)

  // ---------------------------------------------------------------------------------
  // Trigger type

  /** The switch of `TriggerTypeSelectorCustomComponent::mouseDown` (lines 110-123). */
  function NextTriggerType(t: TriggerType): TriggerType
  {
    match t
    case TtlTrigger => MsgTrigger
    case MsgTrigger => TtlAndMsgTrigger
    case TtlAndMsgTrigger => TtlTrigger
  }

  /** The type a click on the selector leaves: unchanged while acquisition is active
      (lines 105-106), otherwise the next one in the cycle. */
  function TypeAfterClick(t: TriggerType, acquisitionIsActive: bool): TriggerType
  {
    if acquisitionIsActive then t else NextTriggerType(t)
  }

  /** Clicking cycles TTL -> MSG -> TTL+MSG -> TTL: every click changes the type, three
      clicks bring it back, and every type is reached from every other; while acquisition
      is active a click changes nothing. */
  lemma TriggerTypeCycle(t: TriggerType, u: TriggerType)
    ensures NextTriggerType(t) != t
    ensures NextTriggerType(NextTriggerType(NextTriggerType(t))) == t
    ensures u == t || u == NextTriggerType(t) || u == NextTriggerType(NextTriggerType(t))
    ensures TypeAfterClick(t, true) == t && TypeAfterClick(t, false) == NextTriggerType(t)
  {
  }

  // ---------------------------------------------------------------------------------
  // Line label

  function DigitChar(d: int): char
    requires 0 <= d < 10
  {
    "0123456789"[d]
  }

  predicate IsDigit(c: char)
  {
    '0' <= c <= '9'
  }

  /** Decimal text of a natural number, as `String(int)` writes it. */
  function NatToDecimal(n: nat): (s: string)
    ensures |s| >= 1 && forall i :: 0 <= i < |s| ==> IsDigit(s[i])
    ensures n > 0 ==> s[0] != '0'
    decreases n
  {
    if n < 10 then [DigitChar(n)] else NatToDecimal(n / 10) + [DigitChar(n % 10)]
  }

  /** Value of a string of decimal digits. */
  function DecimalValue(s: string): int
    requires forall i :: 0 <= i < |s| ==> IsDigit(s[i])
  {
    if |s| == 0 then 0 else 10 * DecimalValue(s[..|s| - 1]) + ((s[|s| - 1] as int) - ('0' as int))
  }

  /** Reading the decimal text of `n` gives `n` back. */
  lemma {:induction false} DecimalRoundTrip(n: nat)
    ensures DecimalValue(NatToDecimal(n)) == n
    decreases n
  {
    var s := NatToDecimal(n);
    if n < 10 {
      assert s[..|s| - 1] == [];
    } else {
      DecimalRoundTrip(n / 10);
      assert s[..|s| - 1] == NatToDecimal(n / 10);
    }
  }

  /** The text of a line selector cell (`setRowAndColumn`, lines 87-100): "TTL " and the
      1-based line number for a line, "NONE" for none. */
  function LineLabel(line: int): string
  {
    if line > -1 then "TTL " + NatToDecimal(line + 1) else "NONE"
  }

  /** The line a label stands for: -1 for "NONE", otherwise one less than the number
      after "TTL ". */
  function LabelLine(text: string): int
  {
    if |text| > 4 && text[..4] == "TTL " && forall i :: 4 <= i < |text| ==> IsDigit(text[i])
    then DecimalValue(text[4..]) - 1
    else -1
  }

  /** The label names its line exactly: reading it back gives the line for every line
      above -1 and "no line" for every other value. */
  lemma LineLabelRoundTrip(line: int)
    ensures line > -1 ==> LabelLine(LineLabel(line)) == line
    ensures line <= -1 ==> LineLabel(line) == "NONE" && LabelLine(LineLabel(line)) == -1
  {
    if line > -1 {
      var text := LineLabel(line);
      assert text[..4] == "TTL ";
      assert text[4..] == NatToDecimal(line + 1);
      DecimalRoundTrip(line + 1);
    }
  }

  /** Two lines above -1 share a label only when they are the same line. */
  lemma LineLabelInjective(line: int, other: int)
    requires line > -1 && other > -1
    ensures LineLabel(line) == LineLabel(other) <==> line == other
  {
    LineLabelRoundTrip(line);
    LineLabelRoundTrip(other);
  }

  /** The line chosen in the line selector popup (Source/PopupConfigurationWindow.h:99-110):
      the first selected channel, or -1 when none is. */
  function SelectedLine(newChannels: seq<int>): int
  {
    if |newChannels| > 0 then newChannels[0] else -1
  }

  /** After a selection the cell shows the label of the line the source was set to. */
  lemma SelectionLabel(newChannels: seq<int>)
    requires forall i :: 0 <= i < |newChannels| ==> newChannels[i] >= 0
    ensures |newChannels| > 0 ==> LineLabel(SelectedLine(newChannels)) == "TTL " + NatToDecimal(newChannels[0] + 1)
    ensures |newChannels| == 0 ==> LineLabel(SelectedLine(newChannels)) == "NONE"
    ensures LabelLine(LineLabel(SelectedLine(newChannels))) == SelectedLine(newChannels)
  {
    LineLabelRoundTrip(SelectedLine(newChannels));
  }

  /** Number of `true` entries. */
  function CountTrue(s: seq<bool>): nat
  {
    if |s| == 0 then 0 else CountTrue(s[..|s| - 1]) + (if s[|s| - 1] then 1 else 0)
  }

  /** The state vector the line selector opens with (`LineSelectorCustomComponent::mouseDown`,
      lines 61-85): nothing while acquisition is active, otherwise 16 entries, entry i set
      exactly when i is the source's line. */
  method LineSelectorStates(line: int, acquisitionIsActive: bool) returns (states: Option<seq<bool>>)
    ensures acquisitionIsActive <==> states.None?
    ensures states.Some? ==> |states.value| == 16
    ensures states.Some? ==> forall i :: 0 <= i < 16 ==> (states.value[i] <==> i == line)
    ensures states.Some? ==> CountTrue(states.value) == (if 0 <= line < 16 then 1 else 0)
  {
    if acquisitionIsActive {
      return None;
    }
    var channelStates: seq<bool> := [];
    var i := 0;
    while i < 16
      invariant 0 <= i <= 16 && |channelStates| == i
      invariant forall k :: 0 <= k < i ==> (channelStates[k] <==> k == line)
      invariant CountTrue(channelStates) == (if 0 <= line < i then 1 else 0)
    {
      assert (channelStates + [i == line])[..i] == channelStates;
      channelStates := channelStates + [i == line];
      i := i + 1;
    }
    return Some(channelStates);
  }

  // ---------------------------------------------------------------------------------
  // Count field

  /** The value the "number of conditions" field holds after an edit to `value`
      (`labelTextChanged`, lines 444-464): a value below 1 reverts to the last accepted
      one, a value above 16 becomes 16, any other is accepted. */
  function ClampedCount(value: int, lastAccepted: int): int
  {
    if value < 1 then lastAccepted else if value > 16 then 16 else value
  }

  /** The field always ends in [1, 16]; a value in range is kept as typed, one above the
      range is capped, one below it is rejected; and an accepted value is stable. */
  lemma ClampedCountRange(value: int, lastAccepted: int)
    requires 1 <= lastAccepted <= 16
    ensures 1 <= ClampedCount(value, lastAccepted) <= 16
    ensures 1 <= value <= 16 ==> ClampedCount(value, lastAccepted) == value
    ensures value > 16 ==> ClampedCount(value, lastAccepted) == 16
    ensures value < 1 ==> ClampedCount(value, lastAccepted) == lastAccepted
    ensures ClampedCount(ClampedCount(value, lastAccepted), lastAccepted) == ClampedCount(value, lastAccepted)
  {
  }

  // ---------------------------------------------------------------------------------
  // The "add conditions" generator

  class TriggerSourceGenerator {
    /** Number of TTL lines offered; always 16 (line 403). */
    const channelCount: int := 16
    /** The integer value of the count field's text. */
    var labelValue: int
    /** The last accepted count. */
    var lastLabelValue: int
    var selectedType: TriggerType
    /** Lines picked in the channel selector, in selection order. */
    var startChannels: seq<int>

    ghost predicate Valid()
      reads this
    {
      1 <= lastLabelValue <= 16 && labelValue == lastLabelValue
    }

    /** Lines 400-440: the field reads "1", TTL is selected, no line is picked. */
    constructor ()
      ensures Valid()
      ensures labelValue == 1 && selectedType == TtlTrigger && startChannels == []
    {
      lastLabelValue := 1;
      labelValue := 1;
      selectedType := TtlTrigger;
      startChannels := [];
    }

    /** `labelTextChanged` with the integer value of the edited text. */
    method LabelTextChanged(value: int)
      requires Valid()
      modifies this
      ensures Valid()
      ensures labelValue == ClampedCount(value, old(lastLabelValue))
      ensures value < 1 ==> lastLabelValue == old(lastLabelValue)
      ensures selectedType == old(selectedType) && startChannels == old(startChannels)
    {
      if value < 1 {
        labelValue := lastLabelValue;
        return;
      }
      if value > 16 {
        labelValue := 16;
      } else {
        labelValue := value;
      }
      lastLabelValue := labelValue;
    }

    /** The "+" button (lines 470-492): the lines to add conditions on, with the selected
        trigger type.  Without a selection these are lines 0 .. n-1 for the count n in the
        field; otherwise exactly the selected lines. */
    method PlusClicked() returns (lines: seq<int>, triggerType: TriggerType)
      requires Valid()
      ensures triggerType == selectedType
      ensures startChannels == [] ==> |lines| == labelValue && forall i :: 0 <= i < |lines| ==> lines[i] == i
      ensures startChannels != [] ==> lines == startChannels
    {
      triggerType := selectedType;
      if |startChannels| == 0 {
        var numTriggerSourcesToAdd := labelValue;
        lines := [];
        var i := 0;
        while i < numTriggerSourcesToAdd
          invariant 0 <= i <= numTriggerSourcesToAdd && |lines| == i
          invariant forall k :: 0 <= k < i ==> lines[k] == k
        {
          lines := lines + [i];
          i := i + 1;
        }
      } else {
        lines := startChannels;
      }
    }

    /** The channel selector button (lines 494-536): the state vector the selector opens
        with, one entry per line, and the most lines it lets the user pick.  Without a
        selection the first min(n, 16) entries are set; otherwise exactly the selected
        lines are. */
    method ChannelSelectorClicked() returns (states: seq<bool>, maxSelectable: int)
      requires Valid()
      ensures |states| == channelCount
      ensures maxSelectable == labelValue
      ensures startChannels == [] ==>
                (forall i :: 0 <= i < |states| ==> (states[i] <==> i < labelValue))
                && CountTrue(states) == if labelValue < channelCount then labelValue else channelCount
      ensures startChannels != [] ==> forall i :: 0 <= i < |states| ==> (states[i] <==> i in startChannels)
    {
      var numTriggerChannelsToAdd := labelValue;
      var skip := 1;
      var channelsAdded := 0;
      states := [];
      var i := 0;
      while i < channelCount
        invariant 0 <= i <= channelCount && |states| == i
        invariant startChannels == [] ==>
                    (forall k :: 0 <= k < i ==> (states[k] <==> k < numTriggerChannelsToAdd))
                    && channelsAdded == CountTrue(states)
                    && channelsAdded == if i < numTriggerChannelsToAdd then i else numTriggerChannelsToAdd
        invariant startChannels != [] ==> forall k :: 0 <= k < i ==> (states[k] <==> k in startChannels)
      {
        assert (states + [true])[..i] == states;
        assert (states + [false])[..i] == states;
        if |startChannels| == 0 {
          if i % skip == 0 && channelsAdded < numTriggerChannelsToAdd {
            states := states + [true];
            channelsAdded := channelsAdded + 1;
          } else {
            states := states + [false];
          }
        } else {
          if i in startChannels {
            states := states + [true];
          } else {
            states := states + [false];
          }
        }
        i := i + 1;
      }
      maxSelectable := numTriggerChannelsToAdd;
    }

    /** `channelStateChanged` (lines 540-545): the selector's choice becomes the selection. */
    method ChannelStateChanged(selectedChannels: seq<int>)
      requires Valid()
      modifies this
      ensures Valid()
      ensures startChannels == selectedChannels
      ensures labelValue == old(labelValue) && lastLabelValue == old(lastLabelValue)
      ensures selectedType == old(selectedType)
    {
      startChannels := selectedChannels;
    }
  }

  // ---------------------------------------------------------------------------------
  // Row deletion

  /** The rows below `n` that are selected or were clicked, in table order. */
  function PickedRows(n: nat, selectedRows: set<int>, clicked: int): (K: seq<int>)
    ensures forall k :: 0 <= k < |K| ==> 0 <= K[k] < n
  {
    if n == 0 then []
    else PickedRows(n - 1, selectedRows, clicked)
           + (if (n - 1) in selectedRows || n - 1 == clicked then [n - 1] else [])
  }

  /** `PickedRows` lists every selected or clicked row once, in increasing order, and no
      other row. */
  lemma {:induction false} PickedRowsExact(n: nat, selectedRows: set<int>, clicked: int)
    ensures var K := PickedRows(n, selectedRows, clicked);
      && (forall a, b :: 0 <= a < b < |K| ==> K[a] < K[b])
      && (forall i :: 0 <= i < n ==> (i in K <==> i in selectedRows || i == clicked))
  {
    if n > 0 {
      PickedRowsExact(n - 1, selectedRows, clicked);
    }
  }

  /** The sources at the rows `K`, in the order of `K`. */
  function SourcesAt(sources: seq<TriggerSource>, K: seq<int>): seq<TriggerSource>
    requires forall k :: 0 <= k < |K| ==> 0 <= K[k] < |sources|
  {
    seq(|K|, k requires 0 <= k < |K| => sources[K[k]])
  }

  class OnlinePsthTableModel {
    var triggerSources: seq<TriggerSource>
    var selectedRows: set<int>
    const acquisitionIsActive: bool

    constructor (triggerSources: seq<TriggerSource>, acquisitionIsActive: bool)
      ensures this.triggerSources == triggerSources && selectedRows == {}
      ensures this.acquisitionIsActive == acquisitionIsActive
    {
      this.triggerSources := triggerSources;
      this.acquisitionIsActive := acquisitionIsActive;
      selectedRows := {};
    }

    /** `deleteSelectedRows` (lines 228-247): the sources handed to the editor for removal —
        those in a selected row or the clicked row, in table order — after which the
        selection is cleared.  While acquisition is active nothing is handed over and the
        selection stays. */
    method DeleteSelectedRows(rowThatWasClicked: int) returns (channelsToDelete: Option<seq<TriggerSource>>)
      modifies this
      ensures triggerSources == old(triggerSources)
      ensures acquisitionIsActive ==> channelsToDelete.None? && selectedRows == old(selectedRows)
      ensures !acquisitionIsActive ==> selectedRows == {}
      ensures !acquisitionIsActive ==>
                var K := PickedRows(|triggerSources|, old(selectedRows), rowThatWasClicked);
                channelsToDelete == Some(SourcesAt(triggerSources, K))
    {
      if acquisitionIsActive {
        return None;
      }
      var rows := selectedRows;
      var sources := triggerSources;
      var picked: seq<TriggerSource> := [];
      var i := 0;
      while i < |sources|
        invariant 0 <= i <= |sources|
        invariant picked == SourcesAt(sources, PickedRows(i, rows, rowThatWasClicked))
      {
        if i in rows || i == rowThatWasClicked {
          picked := picked + [sources[i]];
        }
        i := i + 1;
      }
      selectedRows := {};
      return Some(picked);
    }
  }
}
