/**
  Properties of the selection slice: the half-hour pairing invariant and the
  reducers that keep it, toggling twice, what a drag selects, the refresh
  counter, and the link between the dragging flag and the anchor.
*/
module SelectionProperties {
  import opened Wrappers
  import opened TimeBlockKey
  import opened Selection
  import opened Collections

  /** The cell 15 minutes after `b`, within the same hour. */
  function Later(b: TimeBlockId): TimeBlockId {
    b.(minute := b.minute + 15)
  }

  /**
    Half-hour pairing: for every well-formed cell on a multiple of 30 minutes,
    its key is selected exactly when the key 15 minutes later is.
  */
  ghost predicate Paired(sel: set<string>) {
    forall b: TimeBlockId :: WellFormed(b) && b.minute % 30 == 0 ==>
      (FormatTimeBlockId(b) in sel <==> FormatTimeBlockId(Later(b)) in sel)
  }

  lemma PairedUnion(a: set<string>, b: set<string>)
    requires Paired(a) && Paired(b)
    ensures Paired(a + b)
  {
  }

  lemma PairedDifference(a: set<string>, b: set<string>)
    requires Paired(a) && Paired(b)
    ensures Paired(a - b)
  {
  }

  /** For well-formed cells, membership in a cell's pair keys is a statement about cells. */
  lemma InPairKeys(c: TimeBlockId, block: TimeBlockId)
    requires WellFormed(c) && WellFormed(block)
    ensures FormatTimeBlockId(c) in PairKeys(block, true)
        <==> c == block || (Partner(block).Some? && c == Partner(block).value)
  {
    var k := FormatTimeBlockId(c);
    if k == FormatTimeBlockId(block) {
      KeyInjective(c, block);
    } else if Partner(block).Some? {
      var q := Partner(block).value;
      assert WellFormed(q);
      if k == FormatTimeBlockId(q) {
        KeyInjective(c, q);
      }
    }
  }

  /** The two keys one half-hour select touches are themselves a paired set. */
  lemma PairKeysPaired(block: TimeBlockId)
    requires WellFormed(block)
    ensures Paired(PairKeys(block, true))
  {
    var keys := PairKeys(block, true);
    forall c: TimeBlockId | WellFormed(c) && c.minute % 30 == 0
      ensures FormatTimeBlockId(c) in keys <==> FormatTimeBlockId(Later(c)) in keys
    {
      assert WellFormed(Later(c));
      InPairKeys(c, block);
      InPairKeys(Later(c), block);
      SameUnit(c, block);
    }
  }

  /** A cell on a multiple of 30 and the cell after it belong to the same unit as `block` or neither does. */
  lemma SameUnit(c: TimeBlockId, block: TimeBlockId)
    requires c.minute >= 0 && c.minute % 30 == 0 && block.minute >= 0
    ensures (c == block || (Partner(block).Some? && c == Partner(block).value))
        <==> (Later(c) == block || (Partner(block).Some? && Later(c) == Partner(block).value))
  {
    var m := block.minute;
    assert JsRem(m, 30) == m % 30;
    if m % 30 == 0 {
      assert Partner(block) == Some(Later(block));
    } else if m % 30 == 15 {
      assert Partner(block) == Some(block.(minute := m - 15));
    } else {
      assert Partner(block).None?;
    }
  }

  /** A half-hour toggle of a well-formed cell keeps the pairing. */
  lemma ToggleKeepsPairing(s: SelectionState, p: TimeBlockPayload)
    requires p.isHalfHour && WellFormed(p.block)
    requires Paired(s.selectedBlocks)
    ensures Paired(ToggleBlockSelection(s, p).selectedBlocks)
  {
    PairKeysPaired(p.block);
    var keys := PairKeys(p.block, true);
    PairedUnion(s.selectedBlocks, keys);
    PairedDifference(s.selectedBlocks, keys);
  }

  /** In a paired selection a well-formed cell's unit is wholly selected or wholly unselected. */
  lemma UnitAllOrNothing(sel: set<string>, block: TimeBlockId)
    requires Paired(sel) && WellFormed(block)
    ensures FormatTimeBlockId(block) in sel ==> PairKeys(block, true) <= sel
    ensures FormatTimeBlockId(block) !in sel ==> PairKeys(block, true) !! sel
  {
    if Partner(block).Some? {
      var q := Partner(block).value;
      assert JsRem(block.minute, 30) == block.minute % 30;
      var base := if block.minute % 30 == 0 then block else q;
      assert WellFormed(base) && base.minute % 30 == 0;
      assert {base, Later(base)} == {block, q};
      assert FormatTimeBlockId(base) in sel <==> FormatTimeBlockId(Later(base)) in sel;
      assert PairKeys(block, true) == {FormatTimeBlockId(block), FormatTimeBlockId(q)};
    }
  }

  /**
    Toggling the same cell twice restores the state: always in quarter mode,
    and in half-hour mode when the selection was paired.
  */
  lemma ToggleTwiceRestores(s: SelectionState, p: TimeBlockPayload)
    requires p.isHalfHour ==> WellFormed(p.block) && Paired(s.selectedBlocks)
    ensures ToggleBlockSelection(ToggleBlockSelection(s, p), p) == s
  {
    var sel := s.selectedBlocks;
    var keys := PairKeys(p.block, p.isHalfHour);
    var k := FormatTimeBlockId(p.block);
    if p.isHalfHour {
      UnitAllOrNothing(sel, p.block);
    }
    var once := ToggleBlockSelection(s, p);
    var twice := ToggleBlockSelection(once, p);
    if k in sel {
      assert keys <= sel;
      assert once.selectedBlocks == sel - keys;
      assert twice.selectedBlocks == sel - keys + keys == sel;
    } else {
      assert keys !! sel;
      assert once.selectedBlocks == sel + keys;
      assert twice.selectedBlocks == sel + keys - keys == sel;
    }
  }

  /** Starting a half-hour drag on a well-formed cell leaves a paired selection. */
  lemma StartDragPaired(s: SelectionState, p: TimeBlockPayload)
    requires p.isHalfHour && WellFormed(p.block)
    ensures Paired(StartDragSelection(s, p).selectedBlocks)
  {
    PairKeysPaired(p.block);
  }

  /** The keys the drag loop adds at each time of day on `dateStr`. */
  function PairKeysAt(dateStr: string, isHalfHour: bool): int -> set<string> {
    t => PairKeys(CellAt(dateStr, t), isHalfHour)
  }

  /** One turn of the drag loop adds the visited cell's keys and moves one step on. */
  lemma FillRangeStep(sel: set<string>, dateStr: string, time: int, maxTime: int, isHalfHour: bool)
    requires time <= maxTime
    ensures FillRange(sel, dateStr, time, maxTime, isHalfHour)
         == FillRange(sel + PairKeys(CellAt(dateStr, time), isHalfHour), dateStr, time + Step(isHalfHour), maxTime, isHalfHour)
  {
  }

  /** One step of the drag loop matches one step of the generic loop, given that the rest does. */
  lemma FillRangeStepIsFillStep(sel: set<string>, dateStr: string, time: int, maxTime: int, isHalfHour: bool)
    requires time <= maxTime
    requires var keys := PairKeys(CellAt(dateStr, time), isHalfHour);
      FillRange(sel + keys, dateStr, time + Step(isHalfHour), maxTime, isHalfHour)
        == Fill(sel + keys, PairKeysAt(dateStr, isHalfHour), time + Step(isHalfHour), maxTime, Step(isHalfHour))
    ensures FillRange(sel, dateStr, time, maxTime, isHalfHour)
         == Fill(sel, PairKeysAt(dateStr, isHalfHour), time, maxTime, Step(isHalfHour))
  {
    assert PairKeysAt(dateStr, isHalfHour)(time) == PairKeys(CellAt(dateStr, time), isHalfHour);
    FillRangeStep(sel, dateStr, time, maxTime, isHalfHour);
  }

  /** The drag loop is the generic loop that unions each visited cell's pair keys. */
  lemma {:induction false} FillRangeIsFill(sel: set<string>, dateStr: string, time: int, maxTime: int, isHalfHour: bool)
    ensures FillRange(sel, dateStr, time, maxTime, isHalfHour)
         == Fill(sel, PairKeysAt(dateStr, isHalfHour), time, maxTime, Step(isHalfHour))
    decreases maxTime + 1 - time
  {
    if time <= maxTime {
      FillRangeIsFill(sel + PairKeys(CellAt(dateStr, time), isHalfHour), dateStr, time + Step(isHalfHour), maxTime, isHalfHour);
      FillRangeStepIsFillStep(sel, dateStr, time, maxTime, isHalfHour);
    }
  }

  /** The drag loop only adds: it unions the cells of the range into what it starts from. */
  lemma FillRangeAdds(sel: set<string>, dateStr: string, time: int, maxTime: int, isHalfHour: bool)
    ensures FillRange(sel, dateStr, time, maxTime, isHalfHour)
         == sel + FillRange({}, dateStr, time, maxTime, isHalfHour)
  {
    FillRangeIsFill(sel, dateStr, time, maxTime, isHalfHour);
    FillRangeIsFill({}, dateStr, time, maxTime, isHalfHour);
    FillAdds(sel, PairKeysAt(dateStr, isHalfHour), time, maxTime, Step(isHalfHour));
  }

  lemma PairKeysAtPaired(dateStr: string, time: int)
    requires WellFormedDate(dateStr) && time >= 0
    ensures Paired(PairKeysAt(dateStr, true)(time))
  {
    PairKeysPaired(CellAt(dateStr, time));
  }

  /** A half-hour drag over non-negative times of a well-formed date selects whole pairs. */
  lemma HalfHourRangePaired(dateStr: string, time: int, maxTime: int)
    requires WellFormedDate(dateStr) && time >= 0
    ensures Paired(FillRange({}, dateStr, time, maxTime, true))
  {
    FillRangeIsFill({}, dateStr, time, maxTime, true);
    forall a: set<string>, b: set<string> | Paired(a) && Paired(b) ensures Paired(a + b) {
      PairedUnion(a, b);
    }
    forall t | time <= t ensures Paired(PairKeysAt(dateStr, true)(t)) {
      PairKeysAtPaired(dateStr, t);
    }
    FillKeeps(Paired, {}, PairKeysAt(dateStr, true), time, maxTime, 30);
  }

  /** The reducer's state invariant in half-hour mode: a paired selection and a well-formed anchor. */
  ghost predicate HalfHourInvariant(s: SelectionState) {
    Paired(s.selectedBlocks) && (s.dragStartBlock.Some? ==> WellFormed(s.dragStartBlock.value.block))
  }

  /** Actions whose payloads are well-formed cells acted on in half-hour mode. */
  ghost predicate HalfHourAction(a: Action) {
    (a.ToggleBlock? || a.StartDrag? || a.UpdateDrag?) ==> a.payload.isHalfHour && WellFormed(a.payload.block)
  }

  lemma ReduceKeepsHalfHourInvariant(s: SelectionState, a: Action)
    requires HalfHourInvariant(s) && HalfHourAction(a)
    ensures HalfHourInvariant(Reduce(s, a))
  {
    match a
    case ToggleBlock(p) => ToggleKeepsPairing(s, p);
    case StartDrag(p) => StartDragPaired(s, p);
    case UpdateDrag(p) =>
      if s.isDragging && s.dragStartBlock.Some? {
        var anchor := s.dragStartBlock.value.block;
        var lo := Min(TimeOfDay(anchor), TimeOfDay(p.block));
        HalfHourRangePaired(anchor.dateStr, lo, Max(TimeOfDay(anchor), TimeOfDay(p.block)));
      }
    case EndDrag =>
    case Clear =>
    case Refresh =>
  }

  /**
    In half-hour mode, every state reachable from the initial one through
    actions on well-formed cells keeps each half-hour's two quarters in the same state.
  */
  lemma {:induction false} RunKeepsPairing(s: SelectionState, actions: seq<Action>)
    requires HalfHourInvariant(s)
    requires forall i :: 0 <= i < |actions| ==> HalfHourAction(actions[i])
    ensures HalfHourInvariant(Run(s, actions))
    decreases |actions|
  {
    if actions != [] {
      ReduceKeepsHalfHourInvariant(s, actions[0]);
      RunKeepsPairing(Reduce(s, actions[0]), actions[1..]);
    }
  }

  // ---------------------------------------------------------------------------
  // What a drag selects

  /** The times `lo`, `lo + 15`, ..., `lo + 15 * n` minutes past midnight. */
  ghost function QuarterTimes(lo: int, n: int): set<int> {
    set i | 0 <= i <= n :: lo + 15 * i
  }

  /** The key of the cell at a given time of day on `dateStr`. */
  function KeyAt(dateStr: string): int -> string {
    t => FormatTimeBlockId(CellAt(dateStr, t))
  }

  /** The keys of every quarter-hour step from `lo` up to `hi` inclusive, on `dateStr`. */
  ghost function QuarterCells(dateStr: string, lo: int, hi: int): set<string> {
    Image(QuarterTimes(lo, (hi - lo) / 15), KeyAt(dateStr))
  }

  lemma QuarterTimesFirst(lo: int, n: int)
    requires n >= 0
    ensures QuarterTimes(lo, n) == {lo} + QuarterTimes(lo + 15, n - 1)
  {
    var whole := QuarterTimes(lo, n);
    var rest := QuarterTimes(lo + 15, n - 1);
    forall t | t in whole ensures t in {lo} + rest {
      var i :| 0 <= i <= n && t == lo + 15 * i;
      if i > 0 {
        assert t == (lo + 15) + 15 * (i - 1);
      }
    }
    forall t | t in rest ensures t in whole {
      var j :| 0 <= j <= n - 1 && t == (lo + 15) + 15 * j;
      assert t == lo + 15 * (j + 1);
    }
    assert lo == lo + 15 * 0;
  }

  lemma QuarterTimesLast(lo: int, n: int)
    requires n >= 0
    ensures QuarterTimes(lo, n) == QuarterTimes(lo, n - 1) + {lo + 15 * n}
  {
  }

  /** A loop adding one key per quarter-hour step collects the image of the quarter-hour times. */
  lemma {:induction false} FillQuarterImage<K>(keysAt: int -> set<K>, f: int -> K, time: int, maxTime: int)
    requires forall t :: keysAt(t) == {f(t)}
    ensures Fill({}, keysAt, time, maxTime, 15) == Image(QuarterTimes(time, (maxTime - time) / 15), f)
    decreases maxTime + 1 - time
  {
    var n := (maxTime - time) / 15;
    if time > maxTime {
      assert n < 0;
      assert QuarterTimes(time, n) == {};
      ImageEmpty(f);
    } else {
      assert {} + keysAt(time) == {f(time)};
      FillAdds({f(time)}, keysAt, time + 15, maxTime, 15);
      FillQuarterImage(keysAt, f, time + 15, maxTime);
      assert (maxTime - (time + 15)) / 15 == n - 1;
      QuarterTimesFirst(time, n);
      ImageUnion({time}, QuarterTimes(time + 15, n - 1), f);
      ImageSingleton(time, f);
    }
  }

  /** In quarter mode the drag loop selects exactly the quarter-hour steps from `time` to `maxTime`. */
  lemma QuarterFillRange(dateStr: string, time: int, maxTime: int)
    ensures FillRange({}, dateStr, time, maxTime, false) == QuarterCells(dateStr, time, maxTime)
  {
    FillRangeIsFill({}, dateStr, time, maxTime, false);
    forall t ensures PairKeysAt(dateStr, false)(t) == {KeyAt(dateStr)(t)} {
    }
    FillQuarterImage(PairKeysAt(dateStr, false), KeyAt(dateStr), time, maxTime);
  }

  lemma {:induction false} QuarterTimesCount(lo: int, n: int)
    requires n >= -1
    ensures |QuarterTimes(lo, n)| == n + 1
    ensures forall t :: t in QuarterTimes(lo, n) ==> lo <= t
    decreases n
  {
    if n == -1 {
      assert QuarterTimes(lo, n) == {};
    } else {
      QuarterTimesLast(lo, n);
      QuarterTimesCount(lo, n - 1);
      assert lo + 15 * n !in QuarterTimes(lo, n - 1);
    }
  }

  /** Distinct non-negative times of a well-formed date have distinct keys. */
  lemma KeyAtInjective(dateStr: string, times: set<int>)
    requires WellFormedDate(dateStr)
    requires forall t :: t in times ==> t >= 0
    ensures InjectiveOn(times, KeyAt(dateStr))
  {
    forall t, u | t in times && u in times && KeyAt(dateStr)(t) == KeyAt(dateStr)(u)
      ensures t == u
    {
      var a, b := CellAt(dateStr, t), CellAt(dateStr, u);
      assert WellFormed(a) && WellFormed(b);
      KeyInjective(a, b);
    }
  }

  /**
    A quarter-mode drag selects the key of every quarter-hour step from the
    earlier to the later of the two times of day, on the anchor's date, and
    nothing else.
  */
  lemma QuarterDragSelectsRange(s: SelectionState, anchor: TimeBlockId, p: TimeBlockPayload)
    requires s.isDragging && s.dragStartBlock.Some? && s.dragStartBlock.value.block == anchor
    requires !p.isHalfHour
    ensures UpdateDragSelection(s, p).selectedBlocks
         == QuarterCells(anchor.dateStr, Min(TimeOfDay(anchor), TimeOfDay(p.block)), Max(TimeOfDay(anchor), TimeOfDay(p.block)))
  {
    QuarterFillRange(anchor.dateStr, Min(TimeOfDay(anchor), TimeOfDay(p.block)), Max(TimeOfDay(anchor), TimeOfDay(p.block)));
  }

  /** For well-formed cells a quarter-mode drag selects (max - min) / 15 + 1 keys. */
  lemma QuarterDragCount(s: SelectionState, anchor: TimeBlockId, p: TimeBlockPayload)
    requires s.isDragging && s.dragStartBlock.Some? && s.dragStartBlock.value.block == anchor
    requires !p.isHalfHour && WellFormed(anchor) && WellFormed(p.block)
    ensures |UpdateDragSelection(s, p).selectedBlocks|
         == (Max(TimeOfDay(anchor), TimeOfDay(p.block)) - Min(TimeOfDay(anchor), TimeOfDay(p.block))) / 15 + 1
  {
    var lo := Min(TimeOfDay(anchor), TimeOfDay(p.block));
    var hi := Max(TimeOfDay(anchor), TimeOfDay(p.block));
    QuarterDragSelectsRange(s, anchor, p);
    QuarterTimesCount(lo, (hi - lo) / 15);
    KeyAtInjective(anchor.dateStr, QuarterTimes(lo, (hi - lo) / 15));
    ImageCardinality(QuarterTimes(lo, (hi - lo) / 15), KeyAt(anchor.dateStr));
  }

  /**
    When both minutes are multiples of 15, a quarter-mode drag selects the cell
    at every multiple of 15 minutes from the earlier time to the later one.
  */
  lemma QuarterDragCoversEveryQuarter(s: SelectionState, anchor: TimeBlockId, p: TimeBlockPayload, t: int)
    requires s.isDragging && s.dragStartBlock.Some? && s.dragStartBlock.value.block == anchor
    requires !p.isHalfHour && anchor.minute % 15 == 0 && p.block.minute % 15 == 0
    requires Min(TimeOfDay(anchor), TimeOfDay(p.block)) <= t <= Max(TimeOfDay(anchor), TimeOfDay(p.block))
    requires t % 15 == 0
    ensures FormatTimeBlockId(CellAt(anchor.dateStr, t)) in UpdateDragSelection(s, p).selectedBlocks
  {
    QuarterDragSelectsRange(s, anchor, p);
    QuarterStart(anchor, p.block);
    QuarterCellsContain(anchor.dateStr, Min(TimeOfDay(anchor), TimeOfDay(p.block)), Max(TimeOfDay(anchor), TimeOfDay(p.block)), t);
  }

  /** The earlier of two quarter-aligned cells starts on a multiple of 15 minutes. */
  lemma QuarterStart(a: TimeBlockId, b: TimeBlockId)
    requires a.minute % 15 == 0 && b.minute % 15 == 0
    ensures Min(TimeOfDay(a), TimeOfDay(b)) % 15 == 0
  {
    assert TimeOfDay(a) == 15 * (4 * a.hour + a.minute / 15);
    assert TimeOfDay(b) == 15 * (4 * b.hour + b.minute / 15);
  }

  /** Every multiple of 15 between `lo` and `hi` has its cell among the quarter cells. */
  lemma QuarterCellsContain(dateStr: string, lo: int, hi: int, t: int)
    requires lo % 15 == 0 && t % 15 == 0 && lo <= t <= hi
    ensures FormatTimeBlockId(CellAt(dateStr, t)) in QuarterCells(dateStr, lo, hi)
  {
    var i := (t - lo) / 15;
    assert lo + 15 * i == t;
    assert t in QuarterTimes(lo, (hi - lo) / 15);
    ImageMember(t, QuarterTimes(lo, (hi - lo) / 15), KeyAt(dateStr));
  }

  /** Swapping the anchor and the end cell on one date gives the same selection. */
  lemma DragDirectionIrrelevant(s: SelectionState, t: SelectionState, a: TimeBlockId, b: TimeBlockId, isHalfHour: bool)
    requires s.isDragging && s.dragStartBlock.Some? && s.dragStartBlock.value.block == a
    requires t.isDragging && t.dragStartBlock.Some? && t.dragStartBlock.value.block == b
    requires a.dateStr == b.dateStr
    ensures UpdateDragSelection(s, TimeBlockPayload(b, isHalfHour)).selectedBlocks
         == UpdateDragSelection(t, TimeBlockPayload(a, isHalfHour)).selectedBlocks
  {
  }

  /**
    The selection after an update depends only on the anchor cell, the end
    cell's time of day and the payload's flag: not on the end cell's date, not
    on the selection before, not on the flag stored with the anchor.
  */
  lemma DragDependsOnlyOnAnchorAndEnd(s: SelectionState, t: SelectionState, p: TimeBlockPayload, q: TimeBlockPayload)
    requires s.isDragging && s.dragStartBlock.Some?
    requires t.isDragging && t.dragStartBlock.Some?
    requires s.dragStartBlock.value.block == t.dragStartBlock.value.block
    requires p.block.hour == q.block.hour && p.block.minute == q.block.minute
    requires p.isHalfHour == q.isHalfHour
    ensures UpdateDragSelection(s, p).selectedBlocks == UpdateDragSelection(t, q).selectedBlocks
  {
    var anchor := s.dragStartBlock.value.block;
    assert TimeOfDay(p.block) == TimeOfDay(q.block);
    assert DragRange(anchor, p.block, p.isHalfHour) == DragRange(anchor, q.block, q.isHalfHour);
  }

  /**
    A quarter-mode drag from 23:00 on one date to 01:00 on another fills
    01:00 through 23:00 of the anchor's date (noon included) and no cell of
    the other date.
  */
  lemma OvernightQuarterDrag(s: SelectionState, d1: string, d2: string)
    requires WellFormedDate(d1) && WellFormedDate(d2) && d1 != d2
    requires s.isDragging
    requires s.dragStartBlock == Some(TimeBlockPayload(TimeBlockId(d1, 23, 0), false))
    ensures var r := UpdateDragSelection(s, TimeBlockPayload(TimeBlockId(d2, 1, 0), false));
      && |r.selectedBlocks| == 89
      && FormatTimeBlockId(TimeBlockId(d1, 12, 0)) in r.selectedBlocks
      && FormatTimeBlockId(TimeBlockId(d2, 0, 0)) !in r.selectedBlocks
      && FormatTimeBlockId(TimeBlockId(d2, 1, 0)) !in r.selectedBlocks
  {
    var anchor := TimeBlockId(d1, 23, 0);
    var p := TimeBlockPayload(TimeBlockId(d2, 1, 0), false);
    QuarterDragSelectsRange(s, anchor, p);
    QuarterDragCount(s, anchor, p);
    QuarterCellsContain(d1, 60, 1380, 720);
    assert CellAt(d1, 720) == TimeBlockId(d1, 12, 0);
    QuarterCellsOtherDate(d1, d2, 60, 1380, TimeBlockId(d2, 0, 0));
    QuarterCellsOtherDate(d1, d2, 60, 1380, TimeBlockId(d2, 1, 0));
  }

  /**
    Only the anchor's date is filled: a quarter-mode drag from 23:00 on
    2024-01-01 to 01:00 on 2024-01-02 selects 01:00 through 23:00 of 2024-01-01
    (noon included) and no cell of 2024-01-02.
  */
  lemma CrossDayDragFillsAnchorDateOnly(s: SelectionState, d1: string, d2: string)
    requires d1 == "2024-01-01" && d2 == "2024-01-02"
    requires s.isDragging
    requires s.dragStartBlock == Some(TimeBlockPayload(TimeBlockId(d1, 23, 0), false))
    ensures var r := UpdateDragSelection(s, TimeBlockPayload(TimeBlockId(d2, 1, 0), false));
      && |r.selectedBlocks| == 89
      && FormatTimeBlockId(TimeBlockId(d1, 12, 0)) in r.selectedBlocks
      && FormatTimeBlockId(TimeBlockId(d2, 0, 0)) !in r.selectedBlocks
      && FormatTimeBlockId(TimeBlockId(d2, 1, 0)) !in r.selectedBlocks
  {
    DateWellFormed("2024", "01", "01");
    DateWellFormed("2024", "01", "02");
    assert d1 == "2024" + "-" + "01" + "-" + "01";
    assert d2 == "2024" + "-" + "01" + "-" + "02";
    assert d1 != d2 by { assert d1[9] != d2[9]; }
    OvernightQuarterDrag(s, d1, d2);
  }

  /** A quarter-mode drag never selects a cell of any date other than the anchor's. */
  lemma QuarterDragStaysOnAnchorDate(s: SelectionState, anchor: TimeBlockId, p: TimeBlockPayload, cell: TimeBlockId)
    requires s.isDragging && s.dragStartBlock.Some? && s.dragStartBlock.value.block == anchor
    requires !p.isHalfHour && WellFormed(anchor) && p.block.hour >= 0 && p.block.minute >= 0
    requires WellFormed(cell) && cell.dateStr != anchor.dateStr
    ensures FormatTimeBlockId(cell) !in UpdateDragSelection(s, p).selectedBlocks
  {
    QuarterDragSelectsRange(s, anchor, p);
    QuarterCellsOtherDate(anchor.dateStr, cell.dateStr, Min(TimeOfDay(anchor), TimeOfDay(p.block)), Max(TimeOfDay(anchor), TimeOfDay(p.block)), cell);
  }

  /** No cell of another well-formed date is among the quarter cells of `dateStr`. */
  lemma QuarterCellsOtherDate(dateStr: string, other: string, lo: int, hi: int, cell: TimeBlockId)
    requires WellFormedDate(dateStr) && WellFormed(cell) && cell.dateStr == other && other != dateStr
    requires lo >= 0
    ensures FormatTimeBlockId(cell) !in QuarterCells(dateStr, lo, hi)
  {
    if FormatTimeBlockId(cell) in QuarterCells(dateStr, lo, hi) {
      var t :| t in QuarterTimes(lo, (hi - lo) / 15) && KeyAt(dateStr)(t) == FormatTimeBlockId(cell);
      KeyInjective(cell, CellAt(dateStr, t));
    }
  }

  // ---------------------------------------------------------------------------
  // What a half-hour drag selects

  /** The times `lo`, `lo + 30`, ..., `lo + 30 * n` minutes past midnight. */
  ghost function HalfHourTimes(lo: int, n: int): set<int> {
    set i | 0 <= i <= n :: lo + 30 * i
  }

  /** The pair keys of every half-hour step from `lo` up to `hi` inclusive, on `dateStr`. */
  ghost function HalfHourCells(dateStr: string, lo: int, hi: int): set<string> {
    UnionOver(HalfHourTimes(lo, (hi - lo) / 30), PairKeysAt(dateStr, true))
  }

  lemma HalfHourTimesFirst(lo: int, n: int)
    requires n >= 0
    ensures HalfHourTimes(lo, n) == {lo} + HalfHourTimes(lo + 30, n - 1)
  {
    var whole := HalfHourTimes(lo, n);
    var rest := HalfHourTimes(lo + 30, n - 1);
    forall t | t in whole ensures t in {lo} + rest {
      var i :| 0 <= i <= n && t == lo + 30 * i;
      if i > 0 {
        assert t == (lo + 30) + 30 * (i - 1);
      }
    }
    forall t | t in rest ensures t in whole {
      var j :| 0 <= j <= n - 1 && t == (lo + 30) + 30 * j;
      assert t == lo + 30 * (j + 1);
    }
    assert lo == lo + 30 * 0;
  }

  /** A loop stepping by 30 minutes collects the keys of every half-hour step. */
  lemma {:induction false} FillHalfHourUnion<K>(keysAt: int -> set<K>, time: int, maxTime: int)
    ensures Fill({}, keysAt, time, maxTime, 30) == UnionOver(HalfHourTimes(time, (maxTime - time) / 30), keysAt)
    decreases maxTime + 1 - time
  {
    var n := (maxTime - time) / 30;
    if time > maxTime {
      assert n < 0;
      assert HalfHourTimes(time, n) == {};
      UnionOverEmpty(keysAt);
    } else {
      assert {} + keysAt(time) == keysAt(time);
      FillAdds(keysAt(time), keysAt, time + 30, maxTime, 30);
      FillHalfHourUnion(keysAt, time + 30, maxTime);
      assert (maxTime - (time + 30)) / 30 == n - 1;
      HalfHourTimesFirst(time, n);
      UnionOverUnion({time}, HalfHourTimes(time + 30, n - 1), keysAt);
      UnionOverSingleton(time, keysAt);
    }
  }

  /** In half-hour mode the drag loop selects exactly the pair keys of the half-hour steps from `time` to `maxTime`. */
  lemma HalfHourFillRange(dateStr: string, time: int, maxTime: int)
    ensures FillRange({}, dateStr, time, maxTime, true) == HalfHourCells(dateStr, time, maxTime)
  {
    FillRangeIsFill({}, dateStr, time, maxTime, true);
    FillHalfHourUnion(PairKeysAt(dateStr, true), time, maxTime);
  }

  /**
    A half-hour drag selects the cell of every 30-minute step from the earlier
    to the later of the two times of day, each with its partner, on the
    anchor's date, and nothing else.
  */
  lemma HalfHourDragSelectsRange(s: SelectionState, anchor: TimeBlockId, p: TimeBlockPayload)
    requires s.isDragging && s.dragStartBlock.Some? && s.dragStartBlock.value.block == anchor
    requires p.isHalfHour
    ensures UpdateDragSelection(s, p).selectedBlocks
         == HalfHourCells(anchor.dateStr, Min(TimeOfDay(anchor), TimeOfDay(p.block)), Max(TimeOfDay(anchor), TimeOfDay(p.block)))
  {
    HalfHourFillRange(anchor.dateStr, Min(TimeOfDay(anchor), TimeOfDay(p.block)), Max(TimeOfDay(anchor), TimeOfDay(p.block)));
  }

  /** Every 30-minute step from `lo` up to `hi` contributes its cell and that cell's partner. */
  lemma HalfHourCellsContain(dateStr: string, lo: int, hi: int, t: int)
    requires lo <= t <= hi && (t - lo) % 30 == 0
    ensures PairKeys(CellAt(dateStr, t), true) <= HalfHourCells(dateStr, lo, hi)
  {
    var i := (t - lo) / 30;
    assert lo + 30 * i == t;
    assert t in HalfHourTimes(lo, (hi - lo) / 30);
    assert PairKeysAt(dateStr, true)(t) == PairKeys(CellAt(dateStr, t), true);
  }

  /** No cell of another well-formed date is among the half-hour cells of `dateStr`. */
  lemma HalfHourCellsOtherDate(dateStr: string, lo: int, hi: int, cell: TimeBlockId)
    requires WellFormedDate(dateStr) && WellFormed(cell) && cell.dateStr != dateStr
    requires lo >= 0
    ensures FormatTimeBlockId(cell) !in HalfHourCells(dateStr, lo, hi)
  {
    if FormatTimeBlockId(cell) in HalfHourCells(dateStr, lo, hi) {
      var t :| t in HalfHourTimes(lo, (hi - lo) / 30) && FormatTimeBlockId(cell) in PairKeysAt(dateStr, true)(t);
      var block := CellAt(dateStr, t);
      assert WellFormed(block);
      InPairKeys(cell, block);
    }
  }

  /** A half-hour drag never selects a cell of any date other than the anchor's. */
  lemma HalfHourDragStaysOnAnchorDate(s: SelectionState, anchor: TimeBlockId, p: TimeBlockPayload, cell: TimeBlockId)
    requires s.isDragging && s.dragStartBlock.Some? && s.dragStartBlock.value.block == anchor
    requires p.isHalfHour && WellFormed(anchor) && p.block.hour >= 0 && p.block.minute >= 0
    requires WellFormed(cell) && cell.dateStr != anchor.dateStr
    ensures FormatTimeBlockId(cell) !in UpdateDragSelection(s, p).selectedBlocks
  {
    HalfHourDragSelectsRange(s, anchor, p);
    HalfHourCellsOtherDate(anchor.dateStr, Min(TimeOfDay(anchor), TimeOfDay(p.block)), Max(TimeOfDay(anchor), TimeOfDay(p.block)), cell);
  }

  lemma DateWellFormed(y: string, m: string, d: string)
    requires '-' !in y && '-' !in m && '-' !in d
    ensures WellFormedDate(y + "-" + m + "-" + d)
  {
    assert y + "-" + m + "-" + d == y + ['-'] + (m + ['-'] + d);
    Text.SplitAtSeparator(y, m + ['-'] + d, '-');
    Text.SplitAtSeparator(m, d, '-');
    Text.SplitWithoutSeparator(y, '-');
    Text.SplitWithoutSeparator(m, '-');
    Text.SplitWithoutSeparator(d, '-');
  }

  /** A half-hour drag over less than 30 minutes visits only its first cell, with that cell's partner. */
  lemma HalfHourSingleStep(dateStr: string, time: int, maxTime: int)
    requires time <= maxTime < time + 30
    ensures FillRange({}, dateStr, time, maxTime, true) == PairKeys(CellAt(dateStr, time), true)
  {
    FillRangeStep({}, dateStr, time, maxTime, true);
    assert {} + PairKeys(CellAt(dateStr, time), true) == PairKeys(CellAt(dateStr, time), true);
  }

  /** A quarter-past cell is paired with the hour before it, and with nothing else. */
  lemma QuarterPastPair(dateStr: string, hour: nat)
    requires WellFormedDate(dateStr)
    ensures var keys := PairKeys(TimeBlockId(dateStr, hour, 15), true);
      && keys == {FormatTimeBlockId(TimeBlockId(dateStr, hour, 15)), FormatTimeBlockId(TimeBlockId(dateStr, hour, 0))}
      && FormatTimeBlockId(TimeBlockId(dateStr, hour, 30)) !in keys
  {
    var quarter, half := TimeBlockId(dateStr, hour, 15), TimeBlockId(dateStr, hour, 30);
    assert Partner(quarter) == Some(TimeBlockId(dateStr, hour, 0));
    if FormatTimeBlockId(half) == FormatTimeBlockId(quarter) {
      KeyInjective(half, quarter);
    }
    if FormatTimeBlockId(half) == FormatTimeBlockId(TimeBlockId(dateStr, hour, 0)) {
      KeyInjective(half, TimeBlockId(dateStr, hour, 0));
    }
  }

  /**
    A half-hour update steps by 30 from the earlier time, so an end cell that
    is not 30 minutes away is missed: anchoring at 10:15 and dragging to 10:30
    selects 10:00 and 10:15 only.
  */
  lemma HalfHourDragMissesUnalignedEnd(s: SelectionState, d: string)
    requires d == "2024-01-01"
    requires s.isDragging
    requires s.dragStartBlock == Some(TimeBlockPayload(TimeBlockId(d, 10, 15), true))
    ensures var sel := UpdateDragSelection(s, TimeBlockPayload(TimeBlockId(d, 10, 30), true)).selectedBlocks;
      && sel == {FormatTimeBlockId(TimeBlockId(d, 10, 0)), FormatTimeBlockId(TimeBlockId(d, 10, 15))}
      && FormatTimeBlockId(TimeBlockId(d, 10, 30)) !in sel
  {
    assert WellFormedDate(d) by {
      DateWellFormed("2024", "01", "01");
      assert d == "2024" + "-" + "01" + "-" + "01";
    }
    assert UpdateDragSelection(s, TimeBlockPayload(TimeBlockId(d, 10, 30), true)).selectedBlocks
        == FillRange({}, d, 615, 630, true);
    HalfHourSingleStep(d, 615, 630);
    assert CellAt(d, 615) == TimeBlockId(d, 10, 15);
    QuarterPastPair(d, 10);
  }

  // ---------------------------------------------------------------------------
  // The refresh counter and the drag flag

  /** How many refreshes a sequence of actions triggers. */
  function RefreshCount(actions: seq<Action>): (n: nat)
    ensures n <= |actions|
  {
    if actions == [] then 0
    else (if actions[0].Refresh? then 1 else 0) + RefreshCount(actions[1..])
  }

  /** Over any run the counter grows by the number of refreshes, so it never decreases. */
  lemma {:induction false} RunCounter(s: SelectionState, actions: seq<Action>)
    ensures Run(s, actions).refreshCounter == s.refreshCounter + RefreshCount(actions)
    ensures Run(s, actions).refreshCounter >= s.refreshCounter
    decreases |actions|
  {
    if actions != [] {
      RunCounter(Reduce(s, actions[0]), actions[1..]);
    }
  }

  /**
    The initial state: nothing selected, no drag and counter 0. It is
    drag-consistent and paired, so every state reachable from it is
    drag-consistent, and paired as long as every action works on well-formed
    cells in half-hour mode.
  */
  lemma ReachableFromInitialState(actions: seq<Action>)
    ensures InitialState.selectedBlocks == {} && !InitialState.isDragging && InitialState.refreshCounter == 0
    ensures DragConsistent(Run(InitialState, actions))
    ensures (forall i :: 0 <= i < |actions| ==> HalfHourAction(actions[i])) ==>
      HalfHourInvariant(Run(InitialState, actions))
  {
    if forall i :: 0 <= i < |actions| ==> HalfHourAction(actions[i]) {
      RunKeepsPairing(InitialState, actions);
    }
  }
}
