/**
  The server's configuration record: the `TimePrecision` enumeration, the
  `BlockyTimeConfig` dataclass and its `to_dict`, which turns the record into
  the JSON object the configuration route returns.
*/
module ConfigDto {
  import opened Wrappers

  /** The Python exceptions the configuration code can raise. */
  datatype PyError = IndexError | ValueError | AttributeError | TypeError

  /** `TimePrecision(Enum)`. */
  datatype TimePrecision = Rough | HalfHour | QuarterHour

  /** The member's `.value`. */
  function PrecisionValue(p: TimePrecision): (v: int)
    ensures 0 <= v <= 2
  {
    match p
    case Rough => 0
    case HalfHour => 1
    case QuarterHour => 2
  }

  /** `TimePrecision(v)`: the member with value `v`, or `ValueError` when there is none. */
  function PrecisionFromValue(v: int): (r: Result<TimePrecision, PyError>)
    ensures r.Success? <==> 0 <= v <= 2
    ensures r.Failure? ==> r.error == ValueError
  {
    if v == 0 then Success(Rough)
    else if v == 1 then Success(HalfHour)
    else if v == 2 then Success(QuarterHour)
    else Failure(ValueError)
  }

  /** The three members have distinct values, and each value leads back to its member. */
  lemma PrecisionValueRoundTrip(p: TimePrecision, v: int)
    ensures PrecisionFromValue(PrecisionValue(p)) == Success(p)
    ensures PrecisionFromValue(v).Success? ==> PrecisionValue(PrecisionFromValue(v).value) == v
  {
  }

  lemma PrecisionValuesDistinct(p: TimePrecision, q: TimePrecision)
    ensures PrecisionValue(p) == PrecisionValue(q) ==> p == q
  {
    PrecisionValueRoundTrip(p, 0);
    PrecisionValueRoundTrip(q, 0);
  }

  /**
    What the `main_time_precision` attribute holds at run time. It is
    annotated as `TimePrecision`, but nothing stops a plain `int` being stored.
  */
  datatype PrecisionField = Member(member: TimePrecision) | RawInt(raw: int)

  /** `BlockyTimeConfig`; each special period is the tuple one `a-b` segment parsed to. */
  datatype BlockyTimeConfig = BlockyTimeConfig(
    specialTimePeriod: seq<seq<int>>,
    disablePixelate: bool,
    mainTimePrecision: PrecisionField)

  /** A value of the dictionary `to_dict` builds. */
  datatype DictValue = Periods(periods: seq<seq<int>>) | Flag(flag: bool) | IntValue(i: int)

  const SpecialTimePeriodKey := "specialTimePeriod"
  const DisablePixelateKey := "disablePixelate"
  const MainTimePrecisionKey := "mainTimePrecision"

  /**
    `to_dict`: the three fields under their camel-case names, the precision
    as its enum value. Reading `.value` of a plain `int` raises `AttributeError`.
  */
  function ToDict(c: BlockyTimeConfig): (r: Result<map<string, DictValue>, PyError>)
    ensures r.Success? <==> c.mainTimePrecision.Member?
    ensures r.Failure? ==> r.error == AttributeError
    ensures r.Success? ==> r.value.Keys == {SpecialTimePeriodKey, DisablePixelateKey, MainTimePrecisionKey}
  {
    match c.mainTimePrecision
    case RawInt(_) => Failure(AttributeError)
    case Member(p) =>
      Success(map[
        SpecialTimePeriodKey := Periods(c.specialTimePeriod),
        DisablePixelateKey := Flag(c.disablePixelate),
        MainTimePrecisionKey := IntValue(PrecisionValue(p))])
  }

  /**
    The dictionary carries the record: the periods and the flag pass through
    unchanged, and the precision entry reads back as the stored member.
  */
  lemma ToDictCarriesFields(c: BlockyTimeConfig)
    requires c.mainTimePrecision.Member?
    ensures var d := ToDict(c).value;
      && d[SpecialTimePeriodKey] == Periods(c.specialTimePeriod)
      && d[DisablePixelateKey] == Flag(c.disablePixelate)
      && d[MainTimePrecisionKey].IntValue?
      && PrecisionFromValue(d[MainTimePrecisionKey].i) == Success(c.mainTimePrecision.member)
  {
    PrecisionValueRoundTrip(c.mainTimePrecision.member, 0);
  }
}
