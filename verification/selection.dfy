/**
  The selection slice of the client's store: which grid cells are selected
  (a set of cell keys), the drag anchor, the dragging flag and the refresh
  counter, with the six reducers that move between states. Every reducer is a
  pure function from the old state (and its payload) to the new state.
*/
module Selection {
  import opened Wrappers
  import opened TimeBlockKey

  /** A cell together with the precision flag the caller was in when it acted on it. */
  datatype TimeBlockPayload = TimeBlockPayload(block: TimeBlockId, isHalfHour: bool)

  /** `selectedBlocks` holds the keys whose entry is `true`; every other key is absent. */
  datatype SelectionState = SelectionState(
    selectedBlocks: set<string>,
    dragStartBlock: Option<TimeBlockPayload>,
    isDragging: bool,
    refreshCounter: int)

  const InitialState := SelectionState({}, None, false, 0)

  /** JavaScript `a % b` for a positive divisor: truncating, so the remainder has the sign of `a`. */
  function JsRem(a: int, b: int): (r: int)
    requires b > 0
    ensures -b < r < b
    ensures a >= 0 ==> r == a % b
    ensures a < 0 ==> r <= 0
  {
    if a >= 0 then a % b else -((-a) % b)
  }

  /**
    The other quarter of a cell's half-hour unit: 15 minutes later for a cell on
    a multiple of 30, 15 minutes earlier for one 15 past such a multiple, and none
    for any other minute. Date and hour never change.
  */
  function Partner(block: TimeBlockId): (r: Option<TimeBlockId>)
    ensures r.Some? ==> r.value.dateStr == block.dateStr && r.value.hour == block.hour
    ensures r.Some? ==> r.value.minute == block.minute + 15 || r.value.minute == block.minute - 15
    ensures block.minute >= 0 ==> (r.Some? <==> block.minute % 15 == 0)
  {
    if JsRem(block.minute, 30) == 0 then Some(block.(minute := block.minute + 15))
    else if JsRem(block.minute, 30) == 15 then Some(block.(minute := block.minute - 15))
    else None
  }

  /** The keys that selecting or deselecting `block` touches. */
  function PairKeys(block: TimeBlockId, isHalfHour: bool): (keys: set<string>)
    ensures FormatTimeBlockId(block) in keys
    ensures |keys| <= 2
    ensures !isHalfHour || Partner(block).None? ==> keys == {FormatTimeBlockId(block)}
  {
    if isHalfHour && Partner(block).Some? then
      {FormatTimeBlockId(block), FormatTimeBlockId(Partner(block).value)}
    else {FormatTimeBlockId(block)}
  }

  /**
    `selectBlockAndPair`: sets the cell's entry (and, in half-hour mode, its
    partner's) to `selected`; deselecting deletes the entries.
  */
  function SelectBlockAndPair(sel: set<string>, block: TimeBlockId, isHalfHour: bool, selected: bool): (r: set<string>)
    ensures selected ==> r == sel + PairKeys(block, isHalfHour)
    ensures !selected ==> r == sel - PairKeys(block, isHalfHour)
  {
    var blockId := FormatTimeBlockId(block);
    if selected then
      var withBlock := sel + {blockId};
      if isHalfHour && JsRem(block.minute, 30) == 0 then
        withBlock + {FormatTimeBlockId(block.(minute := block.minute + 15))}
      else if isHalfHour && JsRem(block.minute, 30) == 15 then
        withBlock + {FormatTimeBlockId(block.(minute := block.minute - 15))}
      else withBlock
    else
      var withoutBlock := sel - {blockId};
      if isHalfHour then
        if JsRem(block.minute, 30) == 0 then
          withoutBlock - {FormatTimeBlockId(block.(minute := block.minute + 15))}
        else if JsRem(block.minute, 30) == 15 then
          withoutBlock - {FormatTimeBlockId(block.(minute := block.minute - 15))}
        else withoutBlock
      else withoutBlock
  }

  /**
    `toggleBlockSelection`: the cell flips; in half-hour mode its partner takes
    the cell's new state; no other key and no drag field changes.
  */
  function ToggleBlockSelection(s: SelectionState, p: TimeBlockPayload): (r: SelectionState)
    ensures FormatTimeBlockId(p.block) in r.selectedBlocks <==> FormatTimeBlockId(p.block) !in s.selectedBlocks
    ensures p.isHalfHour && Partner(p.block).Some? ==>
      (FormatTimeBlockId(Partner(p.block).value) in r.selectedBlocks <==>
       FormatTimeBlockId(p.block) !in s.selectedBlocks)
    ensures r.selectedBlocks - PairKeys(p.block, p.isHalfHour) == s.selectedBlocks - PairKeys(p.block, p.isHalfHour)
    ensures r.dragStartBlock == s.dragStartBlock && r.isDragging == s.isDragging
    ensures r.refreshCounter == s.refreshCounter
  {
    var isSelected := FormatTimeBlockId(p.block) !in s.selectedBlocks;
    s.(selectedBlocks := SelectBlockAndPair(s.selectedBlocks, p.block, p.isHalfHour, isSelected))
  }

  /**
    `startDragSelection`: the old selection is dropped, the payload becomes the
    anchor, and only the pressed cell (with its partner in half-hour mode) is selected.
  */
  function StartDragSelection(s: SelectionState, p: TimeBlockPayload): (r: SelectionState)
    ensures r.selectedBlocks == PairKeys(p.block, p.isHalfHour)
    ensures r.isDragging && r.dragStartBlock == Some(p)
    ensures r.refreshCounter == s.refreshCounter
  {
    var cleared := s.(selectedBlocks := {}, dragStartBlock := Some(p), isDragging := true);
    cleared.(selectedBlocks := SelectBlockAndPair(cleared.selectedBlocks, p.block, p.isHalfHour, true))
  }

  /** The step of the drag loop: 30 minutes in half-hour mode, 15 otherwise. */
  function Step(isHalfHour: bool): nat {
    if isHalfHour then 30 else 15
  }

  /** The cell at `time` minutes past midnight of `dateStr`: `Math.floor(time / 60)` and `time % 60`. */
  function CellAt(dateStr: string, time: int): (b: TimeBlockId)
    ensures b.dateStr == dateStr
    ensures time >= 0 ==> b.hour >= 0 && 0 <= b.minute < 60 && b.hour * 60 + b.minute == time
  {
    TimeBlockId(dateStr, time / 60, JsRem(time, 60))
  }

  /**
    The drag loop from `time` while `time <= maxTime`, stepping by `Step(isHalfHour)`
    and selecting each visited cell (with its partner in half-hour mode) on `dateStr`.
  */
  function FillRange(sel: set<string>, dateStr: string, time: int, maxTime: int, isHalfHour: bool): (r: set<string>)
    ensures sel <= r
    ensures time > maxTime ==> r == sel
    decreases maxTime + 1 - time
  {
    if time > maxTime then sel
    else
      FillRange(SelectBlockAndPair(sel, CellAt(dateStr, time), isHalfHour, true),
                dateStr, time + Step(isHalfHour), maxTime, isHalfHour)
  }

  /** Minutes since midnight of a cell. */
  function TimeOfDay(b: TimeBlockId): int {
    b.hour * 60 + b.minute
  }

  function Min(a: int, b: int): int { if a <= b then a else b }
  function Max(a: int, b: int): int { if a <= b then b else a }

  /**
    The selection a drag from `anchor` to `end` produces: the time-of-day range
    between the two, on the anchor's date only. It always holds the cell at the
    earlier of the two times, with its partner in half-hour mode.
  */
  function DragRange(anchor: TimeBlockId, end: TimeBlockId, isHalfHour: bool): (r: set<string>)
    ensures PairKeys(CellAt(anchor.dateStr, Min(TimeOfDay(anchor), TimeOfDay(end))), isHalfHour) <= r
  {
    var startTime := TimeOfDay(anchor);
    var endTime := TimeOfDay(end);
    FillRange({}, anchor.dateStr, Min(startTime, endTime), Max(startTime, endTime), isHalfHour)
  }

  /**
    `updateDragSelection`: without a drag in progress nothing changes; otherwise
    the selection is replaced by the range from the stored anchor's cell to the
    payload's cell, with the payload's precision flag.
  */
  function UpdateDragSelection(s: SelectionState, p: TimeBlockPayload): (r: SelectionState)
    ensures !s.isDragging || s.dragStartBlock.None? ==> r == s
    ensures r.dragStartBlock == s.dragStartBlock && r.isDragging == s.isDragging
    ensures r.refreshCounter == s.refreshCounter
    ensures s.isDragging && s.dragStartBlock.Some? ==>
      r.selectedBlocks == DragRange(s.dragStartBlock.value.block, p.block, p.isHalfHour)
  {
    if !s.isDragging || s.dragStartBlock.None? then s
    else
      var startBlock := s.dragStartBlock.value.block;
      var startTime := startBlock.hour * 60 + startBlock.minute;
      var endTime := p.block.hour * 60 + p.block.minute;
      var minTime := Min(startTime, endTime);
      var maxTime := Max(startTime, endTime);
      s.(selectedBlocks := FillRange({}, startBlock.dateStr, minTime, maxTime, p.isHalfHour))
  }

  /** `endDragSelection`: the drag stops, the anchor goes, the selection stays. */
  function EndDragSelection(s: SelectionState): (r: SelectionState)
    ensures !r.isDragging && r.dragStartBlock.None?
    ensures r.selectedBlocks == s.selectedBlocks && r.refreshCounter == s.refreshCounter
  {
    s.(isDragging := false, dragStartBlock := None)
  }

  /** `clearSelection`: nothing selected and no drag; the counter is kept. */
  function ClearSelection(s: SelectionState): (r: SelectionState)
    ensures r.selectedBlocks == {} && !r.isDragging && r.dragStartBlock.None?
    ensures r.refreshCounter == s.refreshCounter
  {
    s.(selectedBlocks := {}, isDragging := false, dragStartBlock := None)
  }

  /** `triggerRefresh`: the counter goes up by one. */
  function TriggerRefresh(s: SelectionState): (r: SelectionState)
    ensures r.refreshCounter == s.refreshCounter + 1
    ensures r.(refreshCounter := s.refreshCounter) == s
  {
    s.(refreshCounter := s.refreshCounter + 1)
  }

  /** The actions the slice exports. */
  datatype Action =
    | ToggleBlock(payload: TimeBlockPayload)
    | StartDrag(payload: TimeBlockPayload)
    | UpdateDrag(payload: TimeBlockPayload)
    | EndDrag
    | Clear
    | Refresh

  /** A drag is in progress exactly when there is an anchor. */
  predicate DragConsistent(s: SelectionState) {
    s.isDragging <==> s.dragStartBlock.Some?
  }

  /**
    The slice's reducer: dispatch on the action. Only a refresh touches the
    counter, adding one and changing nothing else, and no action breaks
    "dragging exactly when there is an anchor".
  */
  function Reduce(s: SelectionState, a: Action): (r: SelectionState)
    ensures r.refreshCounter == s.refreshCounter + (if a.Refresh? then 1 else 0)
    ensures a.Refresh? ==> r.(refreshCounter := s.refreshCounter) == s
    ensures DragConsistent(s) ==> DragConsistent(r)
  {
    match a
    case ToggleBlock(p) => ToggleBlockSelection(s, p)
    case StartDrag(p) => StartDragSelection(s, p)
    case UpdateDrag(p) => UpdateDragSelection(s, p)
    case EndDrag => EndDragSelection(s)
    case Clear => ClearSelection(s)
    case Refresh => TriggerRefresh(s)
  }

  /**
    Dispatching `actions` one after another, starting in `s`: the counter never
    goes down, and a consistent drag state stays consistent.
  */
  function Run(s: SelectionState, actions: seq<Action>): (r: SelectionState)
    ensures r.refreshCounter >= s.refreshCounter
    ensures DragConsistent(s) ==> DragConsistent(r)
    decreases |actions|
  {
    if actions == [] then s else Run(Reduce(s, actions[0]), actions[1..])
  }
}
