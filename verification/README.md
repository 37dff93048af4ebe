# Blocky Time: selection reducer, colours, configuration and trend grouping

A Dafny model of the pure logic at the heart of Blocky Time, a tracker that
splits the day into quarter-hour blocks:

- **The client's selection slice** (`selectionSlice.ts`):
  - the string key of a grid cell (`formatTimeBlockId` / `parseTimeBlockId`);
  - the half-hour pairing helper `selectBlockAndPair`;
  - the initial state and the six reducers.

  The state is an immutable record. `selectedBlocks` is a set of cell keys, because entries are only ever set to `true` or deleted. Each reducer is a pure function. `Reduce` dispatches one action and `Run` dispatches a list of them.
- **The client's colour helper** `getColorFromDecimal` (`utils.ts`), including JavaScript's `toString(16)` and `padStart`.
- **The server's configuration**:
  - the `TimePrecision` enum and `BlockyTimeConfig.to_dict`;
  - the per-key value parsing of `ConfigService.get_config`, over the stored configuration rows given as a sequence of `(key, value)` pairs. The value column is nullable, so a value is `Option<string>`, with `None` standing for NULL. Python's `int()`, `str.replace` and `str.split` are modelled as far as the parsing needs them.
- **The server's trend grouping** in `TrendService.get_trends`: the query's rows are gathered into one entry per activity type, sorted by type id.

The files:

- `wrappers.dfy`: `Option` and `Result`.
- `text.dfy`: numerals in any radix and their values, and `Split`/`Join` on one separator.
- `collections.dfy`: set images, and the generic "union the keys of every step" loop `Fill` that the drag loop is an instance of.
- `time_block_key.dfy`: the cell codec, with JavaScript's `${n}` and `parseInt`.
- `selection.dfy`: the slice's state, helpers and reducers.
- `selection_properties.dfy`: what the reducers guarantee:
  - half-hour pairing;
  - toggling twice;
  - what a drag selects;
  - the counter;
  - the drag flag.
- `colors.dfy`: `getColorFromDecimal`.
- `config_dto.dfy`: `TimePrecision` and `to_dict`.
- `config_service.dfy`: `get_config`, both as written and corrected (see Findings).
- `trend_service.dfy`: the grouping, with reference definitions of each type's points and first row.

Two behaviours of the drag are easy to miss:

- **A drag that crosses midnight** selects a time-of-day range on the anchor's date alone, because only the anchor's date is read (`selectionSlice.ts:119`). `CrossDayDragFillsAnchorDateOnly`, `QuarterDragStaysOnAnchorDate` and `HalfHourDragStaysOnAnchorDate` state this.
- **The step of a half-hour drag** comes from the update's payload, not from the anchor. An end cell off the 30-minute grid can be left out (`HalfHourDragMissesUnalignedEnd`).

## Model

| member | source | states |
|---|---|---|
| Text.Split | typescript/v1/blockytime-app/src/store/selectionSlice.ts:21 | splitting always yields at least one part and no part contains the separator |
| Text.JoinSplit | typescript/v1/blockytime-app/src/store/selectionSlice.ts:21 | joining the parts of a split with the separator gives back the string |
| Text.SplitJoin | typescript/v1/blockytime-app/src/store/selectionSlice.ts:21 | splitting a join of separator-free parts gives back the parts |
| Text.ToStringRadix | typescript/v1/blockytime-app/src/utils.ts:8 | an integer prints as one or more characters that start with '-' exactly when it is negative |
| Text.ToStringRadixDigits | typescript/v1/blockytime-app/src/utils.ts:8 | after the sign come digits of the radix only, and they read back as the magnitude |
| TimeBlockKey.NumberToStringShape | typescript/v1/blockytime-app/src/store/selectionSlice.ts:17-18 | a printed integer contains '-' exactly when it is negative, and then only as its first character |
| TimeBlockKey.NumberToStringInjective | typescript/v1/blockytime-app/src/store/selectionSlice.ts:17-18 | different integers print differently |
| TimeBlockKey.TrimStart | typescript/v1/blockytime-app/src/store/selectionSlice.ts:24-25 | parseInt's white-space skip yields a suffix of the input that does not start with white space |
| TimeBlockKey.TrimStartDropsWhiteSpace | typescript/v1/blockytime-app/src/store/selectionSlice.ts:24-25 | every character the skip drops is white space, so exactly the leading white space goes |
| TimeBlockKey.DigitPrefix | typescript/v1/blockytime-app/src/store/selectionSlice.ts:24-25 | parseInt reads the longest prefix of digits: all digits, and followed by a non-digit or the end |
| TimeBlockKey.DigitPrefixOfDigits | typescript/v1/blockytime-app/src/store/selectionSlice.ts:24-25 | a string of digits is read entirely |
| TimeBlockKey.ParseMagnitude | typescript/v1/blockytime-app/src/store/selectionSlice.ts:24-25 | the magnitude after the sign is a number only when it starts with a decimal digit, and it is never negative |
| TimeBlockKey.ParseSigned | typescript/v1/blockytime-app/src/store/selectionSlice.ts:24-25 | after the white space, a number comes only from text that holds a decimal digit |
| TimeBlockKey.ParseInt | typescript/v1/blockytime-app/src/store/selectionSlice.ts:24-25 | parseInt gives a number only when the text holds a decimal digit |
| TimeBlockKey.TrimStartSkipsWhiteSpace | typescript/v1/blockytime-app/src/store/selectionSlice.ts:24-25 | the skip gives the same result with or without extra white space in front |
| TimeBlockKey.ParseIntSkipsWhiteSpace | typescript/v1/blockytime-app/src/store/selectionSlice.ts:24-25 | white space in front of the text does not change what `parseInt` reads |
| TimeBlockKey.ParseIntOfDecimal | typescript/v1/blockytime-app/src/store/selectionSlice.ts:24-25 | an optional sign, decimal digits and a rest that does not start with a digit read as the digits' value, negated after '-'; a lone '0' before 'x' or 'X' is excluded because it starts a hexadecimal number |
| TimeBlockKey.ParseIntOfHex | typescript/v1/blockytime-app/src/store/selectionSlice.ts:24-25 | `parseInt` without a radix reads the hexadecimal digits after a leading `0x` or `0X` in base 16, stopping at the first character that does not continue them |
| TimeBlockKey.HexPrefixIsNotDecimal | typescript/v1/blockytime-app/src/store/selectionSlice.ts:24-25 | `parseInt("0x1f")` is 31, so the decimal reading of a digit run does not extend to a lone `0` before `x` |
| TimeBlockKey.ParseIntOfNumberToString | typescript/v1/blockytime-app/src/store/selectionSlice.ts:17-25 | parseInt reads every printed integer back to itself, negative ones included |
| TimeBlockKey.FormatTimeBlockId | typescript/v1/blockytime-app/src/store/selectionSlice.ts:17-18 | a key starts with the cell's date and a hyphen and goes on after it; ParseFormatRoundTrip is its inverse |
| TimeBlockKey.UndefinedIsNaN | typescript/v1/blockytime-app/src/store/selectionSlice.ts:22-26 | a missing part, interpolated as "undefined", parses to NaN |
| TimeBlockKey.ParseTimeBlockId | typescript/v1/blockytime-app/src/store/selectionSlice.ts:20-27 | the hour is a number only if the key splits into at least four parts, the minute only if into at least five |
| TimeBlockKey.KeyParts | typescript/v1/blockytime-app/src/store/selectionSlice.ts:17-21 | a key splits into the date's segments, the hour, then the minute's pieces |
| TimeBlockKey.DateOfThreeParts | typescript/v1/blockytime-app/src/store/selectionSlice.ts:23 | rejoining the three segments of a three-segment date gives the date back |
| TimeBlockKey.ParseFormatRoundTrip | typescript/v1/blockytime-app/src/store/selectionSlice.ts:17-27 | parsing the key of a cell with a three-segment date and non-negative hour and minute gives back its date, hour and minute |
| TimeBlockKey.KeyInjective | typescript/v1/blockytime-app/src/store/selectionSlice.ts:17-18 | distinct well-formed cells have distinct keys |
| TimeBlockKey.NegativeMinuteReadsAsNaN | typescript/v1/blockytime-app/src/store/selectionSlice.ts:17-27 | the key of a cell with a negative minute parses back with a NaN minute, so the round trip needs non-negative fields |
| Selection.JsRem | typescript/v1/blockytime-app/src/store/selectionSlice.ts:53 | JavaScript's `%` agrees with the mathematical remainder on non-negative operands and is never positive on negative ones |
| Selection.Partner | typescript/v1/blockytime-app/src/store/selectionSlice.ts:53-66 | the partner shares date and hour and is 15 minutes away; a non-negative minute has one exactly when it is a multiple of 15 |
| Selection.PairKeys | typescript/v1/blockytime-app/src/store/selectionSlice.ts:50-66 | the keys a select touches include the cell's own key and are at most two; in quarter mode, or for a cell with no partner (`minute % 30` neither 0 nor 15), they are the cell's own key alone (the partner side is `InPairKeys`) |
| Selection.SelectBlockAndPair | typescript/v1/blockytime-app/src/store/selectionSlice.ts:44-78 | selecting adds exactly the cell's pair keys and deselecting removes exactly them |
| Selection.ToggleBlockSelection | typescript/v1/blockytime-app/src/store/selectionSlice.ts:84-89 | the cell's key flips; in half-hour mode the partner takes the cell's new state; no other key, drag field or counter changes |
| Selection.StartDragSelection | typescript/v1/blockytime-app/src/store/selectionSlice.ts:91-96 | the selection becomes exactly the cell and, in half-hour mode, its partner; dragging with the payload as anchor; counter kept |
| Selection.CellAt | typescript/v1/blockytime-app/src/store/selectionSlice.ts:114-119 | for a non-negative time the cell has the anchor's date, minute below 60, and hour*60+minute equal to the time |
| Selection.FillRange | typescript/v1/blockytime-app/src/store/selectionSlice.ts:113-123 | the drag loop only adds keys, and adds none to an empty range |
| Selection.DragRange | typescript/v1/blockytime-app/src/store/selectionSlice.ts:106-122 | the range always holds the cell at the earlier of the anchor's and the end's times of day, with its partner in half-hour mode |
| Selection.UpdateDragSelection | typescript/v1/blockytime-app/src/store/selectionSlice.ts:98-124 | without a drag and an anchor nothing changes; otherwise the selection is replaced by the range between the anchor and the end cell, drag fields and counter kept |
| Selection.EndDragSelection | typescript/v1/blockytime-app/src/store/selectionSlice.ts:126-129 | the drag stops and the anchor goes; the selection and counter stay |
| Selection.ClearSelection | typescript/v1/blockytime-app/src/store/selectionSlice.ts:131-135 | nothing selected, no drag, no anchor; counter kept |
| Selection.TriggerRefresh | typescript/v1/blockytime-app/src/store/selectionSlice.ts:137-139 | the counter rises by exactly one and nothing else changes |
| Selection.Reduce | typescript/v1/blockytime-app/src/store/selectionSlice.ts:84-139 | only the refresh action touches the counter, adding one and changing nothing else; no action breaks "dragging exactly when there is an anchor" |
| Selection.Run | typescript/v1/blockytime-app/src/store/selectionSlice.ts:84-139 | over any run the counter never goes down and a consistent drag state stays consistent |
| SelectionProperties.PairedUnion | typescript/v1/blockytime-app/src/store/selectionSlice.ts:53-66 | the union of two paired selections is paired |
| SelectionProperties.PairedDifference | typescript/v1/blockytime-app/src/store/selectionSlice.ts:69-75 | removing a paired set from a paired selection leaves it paired |
| SelectionProperties.InPairKeys | typescript/v1/blockytime-app/src/store/selectionSlice.ts:53-66 | for well-formed cells, a key is among a cell's half-hour keys exactly when it is that cell or its partner |
| SelectionProperties.PairKeysPaired | typescript/v1/blockytime-app/src/store/selectionSlice.ts:53-66 | the keys one half-hour select touches form a paired set |
| SelectionProperties.SameUnit | typescript/v1/blockytime-app/src/store/selectionSlice.ts:53-66 | a :00/:30 cell is in a cell's half-hour unit exactly when the cell 15 minutes after it is |
| SelectionProperties.ToggleKeepsPairing | typescript/v1/blockytime-app/src/store/selectionSlice.ts:84-89 | a half-hour toggle of a well-formed cell keeps every :00/:30 key selected exactly when its :15/:45 partner is |
| SelectionProperties.UnitAllOrNothing | typescript/v1/blockytime-app/src/store/selectionSlice.ts:53-75 | in a paired selection a cell's unit is wholly selected or wholly unselected |
| SelectionProperties.ToggleTwiceRestores | typescript/v1/blockytime-app/src/store/selectionSlice.ts:84-89 | toggling the same cell twice restores the state, in half-hour mode under the pairing invariant |
| SelectionProperties.StartDragPaired | typescript/v1/blockytime-app/src/store/selectionSlice.ts:91-96 | starting a half-hour drag leaves a paired selection |
| SelectionProperties.FillRangeStep | typescript/v1/blockytime-app/src/store/selectionSlice.ts:113-123 | one turn of the drag loop adds the visited cell's keys and advances one step |
| SelectionProperties.FillRangeStepIsFillStep | typescript/v1/blockytime-app/src/store/selectionSlice.ts:113-123 | a turn of the drag loop and a turn of the generic loop agree whenever the remaining turns do |
| SelectionProperties.FillRangeIsFill | typescript/v1/blockytime-app/src/store/selectionSlice.ts:113-123 | the drag loop is the generic loop that unions the pair keys of every visited time |
| SelectionProperties.FillRangeAdds | typescript/v1/blockytime-app/src/store/selectionSlice.ts:113-123 | the loop's result is its starting set united with what it selects from nothing |
| SelectionProperties.PairKeysAtPaired | typescript/v1/blockytime-app/src/store/selectionSlice.ts:113-122 | each half-hour step of the loop on a well-formed date adds a paired set |
| SelectionProperties.HalfHourRangePaired | typescript/v1/blockytime-app/src/store/selectionSlice.ts:113-123 | a half-hour drag over non-negative times of a well-formed date (three hyphen-separated segments) selects whole pairs |
| SelectionProperties.ReduceKeepsHalfHourInvariant | typescript/v1/blockytime-app/src/store/selectionSlice.ts:84-139 | every reducer given well-formed half-hour payloads keeps the selection paired and the anchor well-formed |
| SelectionProperties.RunKeepsPairing | typescript/v1/blockytime-app/src/store/selectionSlice.ts:84-139 | any run of such actions keeps the pairing invariant |
| SelectionProperties.QuarterFillRange | typescript/v1/blockytime-app/src/store/selectionSlice.ts:113-123 | in quarter mode the loop selects exactly the keys of the quarter-hour steps from the start time to the end time |
| SelectionProperties.KeyAtInjective | typescript/v1/blockytime-app/src/store/selectionSlice.ts:114-119 | distinct non-negative times on a well-formed date give distinct keys |
| SelectionProperties.QuarterDragSelectsRange | typescript/v1/blockytime-app/src/store/selectionSlice.ts:106-122 | a quarter-mode update selects exactly the keys on the anchor's date at every 15 minutes from min to max time of day |
| SelectionProperties.QuarterDragCount | typescript/v1/blockytime-app/src/store/selectionSlice.ts:106-122 | for well-formed cells a quarter-mode drag selects (max - min) / 15 + 1 keys |
| SelectionProperties.QuarterCellsContain | typescript/v1/blockytime-app/src/store/selectionSlice.ts:113-122 | every multiple of 15 between the bounds has its cell among the selected quarter cells |
| SelectionProperties.QuarterDragCoversEveryQuarter | typescript/v1/blockytime-app/src/store/selectionSlice.ts:106-122 | with quarter-aligned ends every quarter-hour between them is selected |
| SelectionProperties.DragDirectionIrrelevant | typescript/v1/blockytime-app/src/store/selectionSlice.ts:106-110 | for an anchor and an end cell on the same date, swapping them gives the same selection |
| SelectionProperties.DragDependsOnlyOnAnchorAndEnd | typescript/v1/blockytime-app/src/store/selectionSlice.ts:98-124 | the update's selection depends only on the anchor, the end cell's time and the flag: the old selection and the end date do not matter |
| SelectionProperties.OvernightQuarterDrag | typescript/v1/blockytime-app/src/store/selectionSlice.ts:106-123 | for any two distinct well-formed dates, a quarter drag from 23:00 on the first to 01:00 on the second selects 89 keys of the first date, 12:00 among them, and neither 00:00 nor 01:00 of the second |
| SelectionProperties.CrossDayDragFillsAnchorDateOnly | typescript/v1/blockytime-app/src/store/selectionSlice.ts:119 | a quarter drag from 23:00 on one day to 01:00 on the next selects 89 keys on the first day, 12:00 among them, and none on the second |
| SelectionProperties.QuarterDragStaysOnAnchorDate | typescript/v1/blockytime-app/src/store/selectionSlice.ts:119 | a quarter-mode drag never selects a cell of another date |
| SelectionProperties.QuarterCellsOtherDate | typescript/v1/blockytime-app/src/store/selectionSlice.ts:119 | no well-formed cell of another date is among the quarter cells of a date |
| SelectionProperties.FillHalfHourUnion | typescript/v1/blockytime-app/src/store/selectionSlice.ts:113-123 | a loop stepping by 30 minutes gathers exactly the keys of each 30-minute step from its start to its end |
| SelectionProperties.HalfHourFillRange | typescript/v1/blockytime-app/src/store/selectionSlice.ts:113-123 | in half-hour mode the loop selects exactly the pair keys (cell and partner) of the 30-minute steps from the start time to the end time |
| SelectionProperties.HalfHourDragSelectsRange | typescript/v1/blockytime-app/src/store/selectionSlice.ts:106-122 | a half-hour update selects exactly the cell and partner keys on the anchor's date at every 30 minutes from the min to the max time of day |
| SelectionProperties.HalfHourCellsContain | typescript/v1/blockytime-app/src/store/selectionSlice.ts:113-122 | every 30-minute step in the range contributes both its cell and that cell's partner |
| SelectionProperties.HalfHourCellsOtherDate | typescript/v1/blockytime-app/src/store/selectionSlice.ts:119 | no well-formed cell of another date is among the half-hour cells of a well-formed date |
| SelectionProperties.HalfHourDragStaysOnAnchorDate | typescript/v1/blockytime-app/src/store/selectionSlice.ts:119 | a half-hour drag from a well-formed anchor never selects a cell of another date |
| SelectionProperties.HalfHourSingleStep | typescript/v1/blockytime-app/src/store/selectionSlice.ts:113-123 | a half-hour drag spanning less than 30 minutes selects exactly the first cell and its partner |
| SelectionProperties.QuarterPastPair | typescript/v1/blockytime-app/src/store/selectionSlice.ts:59-65 | in half-hour mode a quarter-past cell touches itself and the cell on the hour, and not the half-past cell |
| SelectionProperties.HalfHourDragMissesUnalignedEnd | typescript/v1/blockytime-app/src/store/selectionSlice.ts:102-113 | a half-hour drag from 10:15 to 10:30 selects only 10:00 and 10:15, leaving out the end cell |
| SelectionProperties.ReachableFromInitialState | typescript/v1/blockytime-app/src/store/selectionSlice.ts:36-41 | the initial state has nothing selected, no drag and counter 0; every state reachable from it drags exactly when it has an anchor, and stays paired while the actions use well-formed cells in half-hour mode |
| SelectionProperties.RunCounter | typescript/v1/blockytime-app/src/store/selectionSlice.ts:137-139 | over a run the counter grows by the number of refreshes and never decreases |
| Colors.PadStart | typescript/v1/blockytime-app/src/utils.ts:8 | padding reaches the width or keeps a longer string, ends with the string and is fill before it |
| Colors.GetColorFromDecimal | typescript/v1/blockytime-app/src/utils.ts:2-10 | no value gives "transparent"; a number gives at least seven characters beginning with '#' |
| Colors.NumeralLowerHex | typescript/v1/blockytime-app/src/utils.ts:8 | base-16 digits are written in lower case |
| Colors.MissingColorIsTransparent | typescript/v1/blockytime-app/src/utils.ts:3-5 | undefined and null both give "transparent" |
| Colors.ColorRoundTrip | typescript/v1/blockytime-app/src/utils.ts:8-9 | a colour below 16^6 gives seven characters, '#' then six lower-case hex digits that read back as the colour |
| Colors.LargeColorNotTruncated | typescript/v1/blockytime-app/src/utils.ts:8 | from 16^6 on the result is '#' and all the digits, longer than seven characters |
| Colors.BlackIsAllZeros | typescript/v1/blockytime-app/src/utils.ts:8-9 | zero gives "#000000" |
| Colors.NegativeColorPadsBeforeSign | typescript/v1/blockytime-app/src/utils.ts:8-9 | -255 gives "#000-ff": the zeros go in front of the minus sign |
| ConfigDto.PrecisionValue | python/blockytime/dtos/blockytimeconfig_dto.py:6-9 | every member's value is 0, 1 or 2 |
| ConfigDto.PrecisionFromValue | python/blockytime/dtos/blockytimeconfig_dto.py:6-9 | calling the enum on a value succeeds exactly for 0 to 2 and raises ValueError otherwise |
| ConfigDto.PrecisionValueRoundTrip | python/blockytime/dtos/blockytimeconfig_dto.py:6-9 | each member's value leads back to the member, and each accepted value is its member's value |
| ConfigDto.PrecisionValuesDistinct | python/blockytime/dtos/blockytimeconfig_dto.py:6-9 | distinct members have distinct values |
| ConfigDto.ToDict | python/blockytime/dtos/blockytimeconfig_dto.py:18-23 | the dictionary has exactly the three camel-case keys; a plain int in the precision field raises AttributeError |
| ConfigDto.ToDictCarriesFields | python/blockytime/dtos/blockytimeconfig_dto.py:18-23 | the periods and the flag pass through unchanged and the precision entry reads back as the stored member |
| ConfigService.DigitGroupValue | python/blockytime/services/configservice.py:21 | a digit group that int() accepts begins and ends with a digit |
| ConfigService.PyInt | python/blockytime/services/configservice.py:21 | int() on a string either returns an integer or raises ValueError |
| ConfigService.DigitGroupOfDigits | python/blockytime/services/configservice.py:21 | a plain run of digits has its numeral value |
| ConfigService.PyIntOfDigits | python/blockytime/services/configservice.py:26 | int() of a run of digits is its decimal value |
| ConfigService.PyIntOfNumeral | python/blockytime/services/configservice.py:26 | int() reads back every printed natural number |
| ConfigService.PyIntOfChar | python/blockytime/services/configservice.py:21 | int() of one character succeeds exactly for a decimal digit, giving its value |
| ConfigService.DigitGroupValueSpec | python/blockytime/services/configservice.py:26 | a digit group is accepted exactly when it is well grouped (`WellGrouped`: digits, with single underscores only between two digits, so a doubled, leading or trailing `_` is refused); an accepted group is worth the numeral of its digits with the underscores dropped |
| ConfigService.DropUnderscoresStep | python/blockytime/services/configservice.py:26 | the digits of a group are those of the part before its last digit (and the underscore before it) followed by that digit |
| ConfigService.StripStartSkips | python/blockytime/services/configservice.py:26 | int() strips leading white space (`AllPyWhiteSpace`) up to the first other character, and nothing more |
| ConfigService.StripEndSkips | python/blockytime/services/configservice.py:26 | int() strips trailing white space back to the last other character, and nothing more |
| ConfigService.PyIntOfStripped | python/blockytime/services/configservice.py:26 | after stripping, an optional sign is read and the rest must be a digit group; `-` negates its value, `+` leaves it, and a refused group raises ValueError |
| ConfigService.PyIntOfGroup | python/blockytime/services/configservice.py:26 | for white space w1 and w2, a sign that is empty, `+` or `-`, and a non-empty g that neither starts with a sign nor starts or ends with white space: int(w1 + sign + g + w2) succeeds exactly when g is well grouped, with the value of g's digits, underscores dropped, negated after `-` |
| ConfigService.UnderscoredPair | python/blockytime/services/configservice.py:26 | two digits joined by one underscore form a group worth the two-digit numeral |
| ConfigService.PaddedGroupExample | python/blockytime/services/configservice.py:26 | int(" -1_0\t") is -10 |
| ConfigService.DoubledUnderscoreExample | python/blockytime/services/configservice.py:26 | int("1__0") raises ValueError |
| ConfigService.ParsePrecision | python/blockytime/services/configservice.py:21 | an empty value raises IndexError, any other failure is ValueError, and a parsed precision is a single digit 0 to 9 |
| ConfigService.ParsePrecisionLastDigit | python/blockytime/services/configservice.py:21 | an empty value raises IndexError; otherwise the value's last character decides: a digit gives its value, anything else raises ValueError |
| ConfigService.RemoveAll | python/blockytime/services/configservice.py:27 | removing occurrences never lengthens the string and keeps only characters of the input |
| ConfigService.RemoveAllSteps | python/blockytime/services/configservice.py:27 | an occurrence at the front is dropped whole and the scan resumes after it; otherwise the first character is kept and the scan resumes at the next one |
| ConfigService.RemoveAllAbsent | python/blockytime/services/configservice.py:27 | a string that lacks the pattern's first character is left alone |
| ConfigService.RemoveAllSinglePass | python/blockytime/services/configservice.py:27 | replace makes one left-to-right pass: "SS__" becomes "S_" |
| ConfigService.MapAll | python/blockytime/services/configservice.py:25-28 | mapping a parser over pieces succeeds exactly when every piece parses, and then gives each piece's value in order |
| ConfigService.ParseTuple | python/blockytime/services/configservice.py:26 | a segment parses to one integer per hyphen-separated piece, each that piece's int(); otherwise it raises ValueError |
| ConfigService.ParsePeriods | python/blockytime/services/configservice.py:25-28 | a value parses to at least one period, each a non-empty tuple; otherwise it raises ValueError |
| ConfigService.ParseTupleRoundTrip | python/blockytime/services/configservice.py:26 | a tuple of naturals printed with '-' parses back to itself |
| ConfigService.ParsePeriodsRoundTrip | python/blockytime/services/configservice.py:25-28 | a non-empty list of such tuples printed as "S_a-b,c-d" parses back to itself |
| ConfigService.TwoSegments | python/blockytime/services/configservice.py:27 | for two segments free of commas and of "S", dropping the leading "S_" and splitting on ',' gives back the two segments |
| ConfigService.ExampleSegments | python/blockytime/services/configservice.py:27 | "S_1-2,3-4" without its "S_" splits on ',' into "1-2" and "3-4" |
| ConfigService.TwoDigitTuple | python/blockytime/services/configservice.py:26 | "a-b" with single digits parses to the pair of their values |
| ConfigService.ParsePeriodsExample | python/blockytime/services/configservice.py:25-28 | "S_1-2,3-4" parses to [(1, 2), (3, 4)] |
| ConfigService.EmptyPeriodsDoNotParse | python/blockytime/services/configservice.py:25-28 | "S_" raises ValueError: it does not give an empty list |
| ConfigService.ApplyRow | python/blockytime/services/configservice.py:19-28 | one row raises exactly when its value does not parse, and changes no field other than the one its key names. A non-NULL value raises only IndexError or ValueError. A NULL value (the value column is nullable, python/blockytime/models/config.py:8) raises TypeError exactly under `mainTimePrecision` (at `value[-1]`) and AttributeError exactly under `specialTimePeriod` (at `.replace`); under `disablePixelate` it sets the flag to False |
| ConfigService.GetConfigWith | python/blockytime/services/configservice.py:13-29 | the loop succeeds exactly when every row parses, and raises only IndexError, ValueError, or, for a NULL value, TypeError or AttributeError |
| ConfigService.GetConfig | python/blockytime/services/configservice.py:13-29 | get_config as written returns a configuration exactly when every row parses; it raises only IndexError, ValueError, TypeError or AttributeError, and only the first two when no row's value is NULL |
| ConfigService.GetConfigErrors | python/blockytime/services/configservice.py:13-29 | a run raises TypeError only if some `mainTimePrecision` row holds NULL, AttributeError only if some `specialTimePeriod` row holds NULL, and with no NULL values only IndexError or ValueError |
| ConfigService.NullValueRow | python/blockytime/services/configservice.py:19-28 | after rows that raised nothing, a NULL `mainTimePrecision` value raises TypeError, a NULL `specialTimePeriod` value raises AttributeError, and a NULL `disablePixelate` value turns the flag off |
| ConfigService.GetConfigFixed | python/blockytime/services/configservice.py:13-29 | the corrected get_config returns a configuration exactly when every row parses under the enum, and its precision is then always an enum member |
| ConfigService.AllRowsParseEach | python/blockytime/services/configservice.py:19-28 | every row parses exactly when each row, taken alone, parses |
| ConfigService.GetConfigLastRowWins | python/blockytime/services/configservice.py:13-29 | get_config succeeds exactly when every row parses, and each field then comes from the last row with its key, or from the default when there is none; the last precision and period rows then hold non-NULL values, and a NULL last pixelation value gives False |
| ConfigService.NoRowsGiveDefaults | python/blockytime/services/configservice.py:14-16 | no rows give precision 1, pixelation enabled and no special periods |
| ConfigService.OtherKeyIgnored | python/blockytime/services/configservice.py:19-28 | a row with any other key changes nothing |
| ConfigService.GetConfigThenToDictFails | python/blockytime/services/configservice.py:13-29 | every configuration get_config returns holds a plain int, so to_dict on it raises AttributeError |
| ConfigService.GetConfigFixedToDict | python/blockytime/services/configservice.py:13-29 | with the enum stored, to_dict succeeds and reports the default 1 or the last precision row's digit |
| ConfigService.FixedAgreesWithAsWritten | python/blockytime/services/configservice.py:13-29 | where the corrected get_config succeeds the written one does too, with the same periods and flag and the member's value as its int |
| ConfigService.CorrectedParsesAsWritten | python/blockytime/services/configservice.py:19-28 | rows the corrected version accepts are accepted as written |
| ConfigService.PrecisionThreeRejectedWhenFixed | python/blockytime/services/configservice.py:21 | a precision row "3" is stored as the int 3 as written but raises ValueError when stored as the enum |
| TrendService.UidsAreRowUids | python/blockytime/services/trendservice.py:144-147 | an id is among the groups exactly when some row carries it |
| TrendService.OccurringTypes | python/blockytime/services/trendservice.py:145-159 | an id that occurs has at least one point and a first row; one that does not has neither |
| TrendService.FirstTypeIsEarliest | python/blockytime/services/trendservice.py:145-154 | an entry's type comes from the earliest row with its id |
| TrendService.TotalPointsStep | python/blockytime/services/trendservice.py:156-159 | one more row adds exactly one point, to its own type |
| TrendService.TotalPointsIsRowCount | python/blockytime/services/trendservice.py:144-159 | over distinct ids covering every type, the points number exactly the rows |
| TrendService.GroupedCount | python/blockytime/services/trendservice.py:144-164 | entries for ascending ids that cover every type hold as many points as there are rows |
| TrendService.Insert | python/blockytime/services/trendservice.py:163 | inserting keeps the list strictly ascending and adds exactly the new id |
| TrendService.Sort | python/blockytime/services/trendservice.py:163 | sorting distinct ids gives a strictly ascending list of the same ids |
| TrendService.CollectByType | python/blockytime/services/trendservice.py:142-159 | after the loop both dictionaries have exactly the ids that occur, each list holds its type's points in row order, each type is its first row's, and the first-seen order lists each id once |
| TrendService.CollectRowKeeps | python/blockytime/services/trendservice.py:145-159 | one turn of the loop over a further row keeps the dictionaries exact for the rows read so far: a new id gets one entry in each and joins the first-seen order once, and the row's point goes at the end of its own type's list |
| TrendService.Entries | python/blockytime/services/trendservice.py:161-164 | the comprehension gives one entry per sorted id, pairing its type with its points |
| TrendService.EntriesDescribeRows | python/blockytime/services/trendservice.py:161-164 | the entries built from the collected dictionaries hold, for each sorted id, that id's points and first type, and cover exactly the ids that occur |
| TrendService.GroupTrends | python/blockytime/services/trendservice.py:141-164 | one non-empty entry per distinct type id, in strictly ascending id order, with the points of that type's rows in row order and the type as its first row gave it; the entries hold as many points as there are rows |

## Left out

- Numbers other than integers. JavaScript numbers are doubles. `${n}`, `toString(16)` and `parseInt` are modelled on integers only: no fractions, no exponent notation at 1e21 and beyond, and no precision loss above 2^53.
- `parseInt` on digits other than ASCII. JavaScript digits are ASCII only, so nothing is lost there. Python's `int()` also accepts other Unicode decimal digits, and the model accepts ASCII digits only.
- Python's `int()` prefixes. Those arise with base 0, which `get_config` does not use.
- The database and the session in `get_config`. The configuration rows are the input, in the order the query returns them.
- The trend SQL query. This covers `get_trend_data`, the time-bucket formatters, the server time-zone offset and `get_local_midnight_timestamp`. Its rows are the input, and a duration is an integer count of quarter-hour blocks.
- `TypeDTO`'s `projects` field. It is always an empty list.
- The DTO classes' own constructors. The module's imports do not match the DTO definitions, so only the grouping is modelled.
- Redux Toolkit's machinery. This covers `createSlice`, the Immer drafts the reducers mutate and the action creators. Each reducer is modelled as the pure function Immer makes of it.
- The React components, the network services, Flask routing, logging and the remaining services. These are rendering, I/O and database access, not part of this model.
- ConfigService.PyInt: reads numerals of any length. CPython 3.11 and later raise ValueError for a decimal numeral of more than 4300 digits (the limit set by sys.set_int_max_str_digits). The model has no such limit, and PyIntOfNumeral, ParseTupleRoundTrip and ParsePeriodsRoundTrip rely on that for numbers of more than 4300 digits.
- TimeBlockKey.ParseInt: its own contract says only that a number needs a decimal digit. The values are stated by ParseIntOfDecimal (signed decimal), ParseIntOfHex (unsigned `0x`), ParseIntSkipsWhiteSpace (leading white space) and ParseIntOfNumberToString (every printed integer). No lemma gives the value of a signed hexadecimal number, which the function also computes.
- Selection.CellAt: states hour and minute only for non-negative times. A negative time of day needs negative hours or minutes, which the grid never produces.
- SelectionProperties.QuarterDragCount: states the count only for well-formed cells. With a date of other than three segments, or negative fields, two cells can share a key.

## Findings

| source | as written | input that shows it | evidently intended | confidence | as-written member | corrected member |
|---|---|---|---|---|---|---|
| python/blockytime/services/configservice.py:14-21 | `get_config` stores the plain int `1` as the default precision and `int(config.value[-1])` for a precision row. `to_dict` (blockytimeconfig_dto.py:22) then reads `.value` of that int | no configuration rows at all: `get_config()` returns precision `1`, and `to_dict` raises `AttributeError`, so the configuration route always answers with an error | store `TimePrecision.HalfHour` as the default and `TimePrecision(int(value[-1]))` for a row. Digits 3 to 9 then raise `ValueError` | not executed | ConfigService.GetConfigThenToDictFails | ConfigService.GetConfigFixedToDict |
