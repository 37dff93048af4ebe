/**
  `ConfigService.get_config`: starting from the defaults, every stored
  `(key, value)` row of the configuration table is applied in order. A
  `mainTimePrecision` row sets the precision to the integer of the value's last
  character, a `disablePixelate` row sets the flag to whether the value is
  exactly `"I_1"`, and a `specialTimePeriod` row replaces the periods with the
  tuples parsed from `"S_a-b,c-d"`. Rows with any other key are skipped. A
  value that does not parse raises, and the exception ends the call. The value
  column is nullable: a NULL value is read as Python's `None`.
*/
module ConfigService {
  import opened Wrappers
  import opened Text
  import opened ConfigDto

  /**
    One row of the configuration table. The key is the primary key; the value
    column has a default but no NOT NULL constraint, so `None` stands for NULL.
  */
  datatype ConfigRow = ConfigRow(key: string, value: Option<string>)

  const PrecisionRowKey := "mainTimePrecision"
  const PixelateRowKey := "disablePixelate"
  const PeriodRowKey := "specialTimePeriod"

  // ---------------------------------------------------------------------------
  // Python's int() on a string

  /**
    The characters `int()` strips from both ends: the ASCII white space tab,
    line feed, vertical tab, form feed, carriage return and space, and the
    Unicode white space above 127, which `int()` first turns into a space.
    The ASCII separators 0x1C to 0x1F are not stripped.
  */
  predicate IsPyWhiteSpace(c: char) {
    var k := c as int;
    (0x09 <= k <= 0x0D) || k == 0x20 || k == 0x85 || k == 0xA0 || k == 0x1680
    || (0x2000 <= k <= 0x200A) || k == 0x2028 || k == 0x2029 || k == 0x202F || k == 0x205F || k == 0x3000
  }

  predicate AllPyWhiteSpace(w: string) {
    forall i :: 0 <= i < |w| ==> IsPyWhiteSpace(w[i])
  }

  function StripStart(s: string): (t: string)
  {
    if s != [] && IsPyWhiteSpace(s[0]) then StripStart(s[1..]) else s
  }

  function StripEnd(s: string): (t: string)
  {
    if s != [] && IsPyWhiteSpace(s[|s| - 1]) then StripEnd(s[..|s| - 1]) else s
  }

  /**
    The value of a group of decimal digits in which single underscores may
    separate two digits, as `int()` accepts it; `None` for anything else,
    the empty string included.
  */
  function DigitGroupValue(s: string): (r: Option<nat>)
    ensures r.Some? ==> |s| >= 1 && IsDigitIn(s[0], 10) && IsDigitIn(s[|s| - 1], 10)
    decreases |s|
  {
    if s == [] || !IsDigitIn(s[|s| - 1], 10) then None
    else
      var digit := DigitOf(s[|s| - 1]);
      if |s| == 1 then Some(digit)
      else
        var init := s[..|s| - 1];
        var higher := if init[|init| - 1] == '_' then init[..|init| - 1] else init;
        match DigitGroupValue(higher)
        case None => None
        case Some(v) =>
          assert s[0] == higher[0];
          Some(v * 10 + digit)
  }

  /**
    `int(s)`: surrounding white space is ignored, one optional sign, then a
    group of decimal digits; anything else raises `ValueError`.
  */
  function PyInt(s: string): (r: Result<int, PyError>)
    ensures r.Failure? ==> r.error == ValueError
  {
    var t := StripEnd(StripStart(s));
    var signed := |t| > 0 && (t[0] == '+' || t[0] == '-');
    var body := if signed then t[1..] else t;
    match DigitGroupValue(body)
    case None => Failure(ValueError)
    case Some(magnitude) =>
      var m: int := magnitude;
      Success(if |t| > 0 && t[0] == '-' then -m else m)
  }

  /** Without underscores, a digit group is a plain decimal numeral. */
  lemma {:induction false} DigitGroupOfDigits(d: string)
    requires |d| >= 1 && AllDigitsIn(d, 10)
    ensures DigitGroupValue(d) == Some(NumeralValue(d, 10))
    decreases |d|
  {
    assert IsDigitIn(d[|d| - 1], 10);
    if |d| > 1 {
      var init := d[..|d| - 1];
      assert IsDigitIn(init[|init| - 1], 10);
      assert AllDigitsIn(init, 10) by {
        forall i | 0 <= i < |init| ensures IsDigitIn(init[i], 10) {
          assert init[i] == d[i];
        }
      }
      DigitGroupOfDigits(init);
    } else {
      assert d[..0] == [];
    }
  }

  /** `int()` reads a non-empty string of decimal digits as the number they denote. */
  lemma PyIntOfDigits(d: string)
    requires |d| >= 1 && AllDigitsIn(d, 10)
    ensures PyInt(d) == Success(NumeralValue(d, 10))
  {
    assert IsDigitIn(d[0], 10) && IsDigitIn(d[|d| - 1], 10);
    assert StripStart(d) == d;
    assert StripEnd(d) == d;
    DigitGroupOfDigits(d);
  }

  /** `int()` reads back the decimal numeral of every non-negative integer. */
  lemma PyIntOfNumeral(n: nat)
    ensures PyInt(Numeral(n, 10)) == Success(n)
  {
    NumeralShape(n, 10);
    NumeralRoundTrip(n, 10);
    PyIntOfDigits(Numeral(n, 10));
  }

  /** `int()` of one character: its digit value for a decimal digit, `ValueError` otherwise. */
  lemma PyIntOfChar(c: char)
    ensures PyInt([c]).Success? <==> IsDigitIn(c, 10)
    ensures PyInt([c]).Success? ==> PyInt([c]).value == (c as int) - ('0' as int)
  {
    if IsDigitIn(c, 10) {
      assert AllDigitsIn([c], 10);
      PyIntOfDigits([c]);
      assert [c][..0] == [];
    } else {
      if IsPyWhiteSpace(c) {
        assert [c][1..] == [];
        assert StripStart([c]) == [];
      } else {
        assert StripStart([c]) == [c];
        assert StripEnd([c]) == [c];
      }
      var t := StripEnd(StripStart([c]));
      assert t == [] || t == [c];
    }
  }

  /**
    A digit group as `int()` accepts it: decimal digits, with single
    underscores allowed between two digits only.
  */
  predicate WellGrouped(s: string) {
    && |s| >= 1 && IsDigitIn(s[0], 10) && IsDigitIn(s[|s| - 1], 10)
    && (forall i :: 0 <= i < |s| ==> IsDigitIn(s[i], 10) || s[i] == '_')
    && (forall i :: 0 <= i < |s| - 1 && s[i] == '_' ==> s[i + 1] != '_')
  }

  /** `s` with its underscores dropped. */
  function DropUnderscores(s: string): (r: string)
    ensures (forall i :: 0 <= i < |s| ==> IsDigitIn(s[i], 10) || s[i] == '_') ==> AllDigitsIn(r, 10)
    decreases |s|
  {
    if s == [] then []
    else
      var init := s[..|s| - 1];
      assert forall i :: 0 <= i < |init| ==> init[i] == s[i];
      if s[|s| - 1] == '_' then DropUnderscores(init) else DropUnderscores(init) + [s[|s| - 1]]
  }

  /**
    How a group grows by its last digit: after dropping that digit, and the
    underscore before it if there is one, what remains must itself be a group.
  */
  lemma WellGroupedStep(s: string, higher: string)
    requires |s| >= 2 && IsDigitIn(s[|s| - 1], 10)
    requires higher == if s[|s| - 2] == '_' then s[..|s| - 2] else s[..|s| - 1]
    ensures WellGrouped(s) <==> WellGrouped(higher)
  {
    assert forall i :: 0 <= i < |higher| ==> higher[i] == s[i];
    if s[|s| - 2] == '_' {
      if WellGrouped(s) {
        assert |higher| >= 1;
        assert s[|s| - 3] != '_';
      }
    }
  }

  /** The digits of a group are those of the part before its last digit, then that digit. */
  lemma DropUnderscoresStep(s: string, higher: string)
    requires |s| >= 2 && IsDigitIn(s[|s| - 1], 10)
    requires higher == if s[|s| - 2] == '_' then s[..|s| - 2] else s[..|s| - 1]
    ensures DropUnderscores(s) == DropUnderscores(higher) + [s[|s| - 1]]
  {
    var init := s[..|s| - 1];
    if s[|s| - 2] == '_' {
      assert init[..|init| - 1] == higher;
    }
  }

  /** One step of `DigitGroupValue`: the part before the last digit, then that digit. */
  lemma DigitGroupValueUnfold(s: string, higher: string)
    requires |s| >= 2 && IsDigitIn(s[|s| - 1], 10)
    requires higher == if s[|s| - 2] == '_' then s[..|s| - 2] else s[..|s| - 1]
    ensures DigitGroupValue(s) == match DigitGroupValue(higher)
      case None => None
      case Some(v) => Some(v * 10 + DigitOf(s[|s| - 1]))
  {
    var init := s[..|s| - 1];
    assert init[|init| - 1] == s[|s| - 2];
    assert higher == if init[|init| - 1] == '_' then init[..|init| - 1] else init;
  }

  /** A numeral grows by a digit appended to it. */
  lemma NumeralValueSnoc(d: string, c: char)
    requires AllDigitsIn(d, 10) && IsDigitIn(c, 10)
    ensures AllDigitsIn(d + [c], 10)
    ensures NumeralValue(d + [c], 10) == NumeralValue(d, 10) * 10 + DigitOf(c)
  {
    assert (d + [c])[..|d|] == d;
  }

  /** The value of a group is that of the part before its last digit, shifted, plus that digit. */
  lemma GroupValueAppend(s: string, higher: string, d: string)
    requires |s| >= 2 && IsDigitIn(s[|s| - 1], 10)
    requires higher == if s[|s| - 2] == '_' then s[..|s| - 2] else s[..|s| - 1]
    requires AllDigitsIn(d, 10) && DigitGroupValue(higher) == Some(NumeralValue(d, 10))
    ensures DigitGroupValue(s) == Some(NumeralValue(d + [s[|s| - 1]], 10))
  {
    DigitGroupValueUnfold(s, higher);
    NumeralValueSnoc(d, s[|s| - 1]);
  }

  /** The inductive step of `DigitGroupValueSpec`, its hypothesis taken as given. */
  lemma DigitGroupValueStep(s: string, higher: string)
    requires |s| >= 2 && IsDigitIn(s[|s| - 1], 10)
    requires higher == if s[|s| - 2] == '_' then s[..|s| - 2] else s[..|s| - 1]
    requires DigitGroupValue(higher).Some? <==> WellGrouped(higher)
    requires WellGrouped(higher) ==> DigitGroupValue(higher) == Some(NumeralValue(DropUnderscores(higher), 10))
    ensures DigitGroupValue(s).Some? <==> WellGrouped(s)
    ensures WellGrouped(s) ==> DigitGroupValue(s) == Some(NumeralValue(DropUnderscores(s), 10))
  {
    DigitGroupValueUnfold(s, higher);
    WellGroupedStep(s, higher);
    if WellGrouped(s) {
      var d := DropUnderscores(higher);
      DropUnderscoresStep(s, higher);
      GroupValueAppend(s, higher, d);
    }
  }

  /**
    `DigitGroupValue` accepts exactly the well-formed groups, and a group's
    value is that of its digits with the underscores dropped.
  */
  lemma {:induction false} DigitGroupValueSpec(s: string)
    ensures DigitGroupValue(s).Some? <==> WellGrouped(s)
    ensures WellGrouped(s) ==> DigitGroupValue(s) == Some(NumeralValue(DropUnderscores(s), 10))
    decreases |s|
  {
    if s == [] || !IsDigitIn(s[|s| - 1], 10) {
    } else if |s| == 1 {
      assert DropUnderscores(s) == [s[0]] by {
        assert s[..0] == [];
      }
      assert [s[0]][..0] == [];
    } else {
      var higher := if s[|s| - 2] == '_' then s[..|s| - 2] else s[..|s| - 1];
      DigitGroupValueSpec(higher);
      DigitGroupValueStep(s, higher);
    }
  }

  lemma {:induction false} StripStartSkips(w: string, x: string)
    requires AllPyWhiteSpace(w)
    requires x == [] || !IsPyWhiteSpace(x[0])
    ensures StripStart(w + x) == x
    decreases |w|
  {
    if w == [] {
      assert w + x == x;
    } else {
      assert (w + x)[1..] == w[1..] + x;
      assert forall i :: 0 <= i < |w[1..]| ==> w[1..][i] == w[i + 1];
      StripStartSkips(w[1..], x);
    }
  }

  lemma {:induction false} StripEndSkips(x: string, w: string)
    requires AllPyWhiteSpace(w)
    requires x == [] || !IsPyWhiteSpace(x[|x| - 1])
    ensures StripEnd(x + w) == x
    decreases |w|
  {
    if w == [] {
      assert x + w == x;
    } else {
      var init := w[..|w| - 1];
      assert (x + w)[..|x + w| - 1] == x + init;
      assert forall i :: 0 <= i < |init| ==> init[i] == w[i];
      StripEndSkips(x, init);
    }
  }

  /** White space around a text that neither starts nor ends with it is stripped exactly. */
  lemma StripAround(w1: string, m: string, w2: string)
    requires AllPyWhiteSpace(w1)
    requires AllPyWhiteSpace(w2)
    requires |m| >= 1 && !IsPyWhiteSpace(m[0]) && !IsPyWhiteSpace(m[|m| - 1])
    ensures StripEnd(StripStart(w1 + m + w2)) == m
  {
    assert w1 + m + w2 == w1 + (m + w2);
    assert (m + w2)[0] == m[0];
    StripStartSkips(w1, m + w2);
    StripEndSkips(m, w2);
  }

  /** What `int()` makes of text that strips down to an optional sign and a group. */
  lemma PyIntOfStripped(s: string, sign: string, g: string)
    requires |sign| <= 1 && (|sign| == 1 ==> sign[0] == '-' || sign[0] == '+')
    requires |g| >= 1 && g[0] != '+' && g[0] != '-'
    requires StripEnd(StripStart(s)) == sign + g
    ensures PyInt(s) == match DigitGroupValue(g)
      case None => Failure(ValueError)
      case Some(m) => Success(if |sign| == 1 && sign[0] == '-' then -(m as int) else m)
  {
    var t := sign + g;
    var signed := |t| > 0 && (t[0] == '+' || t[0] == '-');
    if |sign| == 1 {
      assert t[0] == sign[0] && t[1..] == g;
      assert signed;
    } else {
      assert t == g;
      assert !signed;
    }
    assert g == if signed then t[1..] else t;
  }

  /** `int()` on text that strips down to an optional sign and a group, in terms of the group. */
  lemma PyIntOfSignedGroup(s: string, sign: string, g: string)
    requires |sign| <= 1 && (|sign| == 1 ==> sign[0] == '-' || sign[0] == '+')
    requires |g| >= 1 && g[0] != '+' && g[0] != '-'
    requires StripEnd(StripStart(s)) == sign + g
    ensures PyInt(s).Success? <==> WellGrouped(g)
    ensures WellGrouped(g) ==>
      var v: int := NumeralValue(DropUnderscores(g), 10);
      PyInt(s).value == if |sign| == 1 && sign[0] == '-' then -v else v
  {
    PyIntOfStripped(s, sign, g);
    DigitGroupValueSpec(g);
  }

  /** Where the sign and the group sit inside the padded text. */
  lemma SignedGroupEnds(w1: string, sign: string, g: string, w2: string)
    requires |sign| <= 1 && |g| >= 1
    ensures w1 + sign + g + w2 == w1 + (sign + g) + w2
    ensures (sign + g)[0] == if |sign| == 1 then sign[0] else g[0]
    ensures (sign + g)[|sign + g| - 1] == g[|g| - 1]
  {
  }

  /** Stripping text padded around a sign and a group leaves the sign and the group. */
  lemma StripAroundSigned(w1: string, sign: string, g: string, w2: string)
    requires AllPyWhiteSpace(w1)
    requires AllPyWhiteSpace(w2)
    requires |sign| <= 1 && (|sign| == 1 ==> sign[0] == '-' || sign[0] == '+')
    requires |g| >= 1 && !IsPyWhiteSpace(g[0]) && !IsPyWhiteSpace(g[|g| - 1])
    ensures StripEnd(StripStart(w1 + sign + g + w2)) == sign + g
  {
    SignedGroupEnds(w1, sign, g, w2);
    StripAround(w1, sign + g, w2);
  }

  /**
    `int()` ignores white space around an optional sign and a digit group: it
    reads the group's digits, underscores dropped, negated after `-`, and
    raises `ValueError` when the group is not well formed.
  */
  lemma PyIntOfGroup(w1: string, sign: string, g: string, w2: string)
    requires AllPyWhiteSpace(w1)
    requires AllPyWhiteSpace(w2)
    requires |sign| <= 1 && (|sign| == 1 ==> sign[0] == '-' || sign[0] == '+')
    requires |g| >= 1 && !IsPyWhiteSpace(g[0]) && !IsPyWhiteSpace(g[|g| - 1]) && g[0] != '+' && g[0] != '-'
    ensures PyInt(w1 + sign + g + w2).Success? <==> WellGrouped(g)
    ensures WellGrouped(g) ==>
      var v: int := NumeralValue(DropUnderscores(g), 10);
      PyInt(w1 + sign + g + w2).value == if |sign| == 1 && sign[0] == '-' then -v else v
  {
    StripAroundSigned(w1, sign, g, w2);
    PyIntOfSignedGroup(w1 + sign + g + w2, sign, g);
  }

  /** Two digits joined by one underscore form a group worth the two-digit numeral. */
  lemma UnderscoredPair(g: string)
    requires |g| == 3 && IsDigitIn(g[0], 10) && g[1] == '_' && IsDigitIn(g[2], 10)
    ensures WellGrouped(g)
    ensures NumeralValue(DropUnderscores(g), 10) == DigitOf(g[0]) * 10 + DigitOf(g[2])
  {
    var a := g[..1];
    assert a[..0] == [];
    DropUnderscoresStep(g, a);
    NumeralValueSnoc(a, g[2]);
    assert a == [] + [g[0]];
    NumeralValueSnoc([], g[0]);
  }

  /** `int(" -1_0\t")` is -10: padding stripped, the underscore dropped, the sign applied. */
  lemma PaddedGroupExample(s: string)
    requires s == " -1_0\t"
    ensures PyInt(s) == Success(-10)
  {
    var g := "1_0";
    assert s == " " + "-" + g + "\t";
    UnderscoredPair(g);
    PyIntOfGroup(" ", "-", g, "\t");
  }

  /** `int("1__0")` raises `ValueError`: underscores may not be doubled. */
  lemma DoubledUnderscoreExample(s: string)
    requires s == "1__0"
    ensures PyInt(s) == Failure(ValueError)
  {
    assert s == [] + [] + s + [];
    assert !WellGrouped(s) by {
      assert s[1] == '_' && s[2] == '_';
    }
    PyIntOfGroup([], [], s, []);
  }

  // ---------------------------------------------------------------------------
  // The three value formats

  /**
    `int(value[-1])`: the last character of the value; an empty value raises
    `IndexError`.
  */
  function ParsePrecision(value: string): (r: Result<int, PyError>)
    ensures r.Failure? ==> r.error == (if value == [] then IndexError else ValueError)
    ensures r.Success? ==> 0 <= r.value <= 9
  {
    if value == [] then Failure(IndexError)
    else
      PyIntOfChar(value[|value| - 1]);
      PyInt([value[|value| - 1]])
  }

  /**
    The precision is read from the last character alone: it parses exactly when
    that character is a decimal digit, and then it is that digit's value.
  */
  lemma ParsePrecisionLastDigit(value: string)
    ensures value == [] ==> ParsePrecision(value) == Failure(IndexError)
    ensures value != [] ==>
      (ParsePrecision(value).Success? <==> IsDigitIn(value[|value| - 1], 10))
    ensures value != [] && !IsDigitIn(value[|value| - 1], 10) ==> ParsePrecision(value) == Failure(ValueError)
    ensures ParsePrecision(value).Success? ==>
      ParsePrecision(value).value == (value[|value| - 1] as int) - ('0' as int)
  {
    if value != [] {
      PyIntOfChar(value[|value| - 1]);
    }
  }

  /**
    `s.replace(pattern, "")`: scanning from the left, each occurrence of the
    pattern that does not overlap an earlier removed one is deleted.
  */
  function RemoveAll(s: string, pattern: string): (r: string)
    requires |pattern| > 0
    ensures |r| <= |s|
    ensures forall i :: 0 <= i < |r| ==> r[i] in s
    decreases |s|
  {
    if |s| >= |pattern| && s[..|pattern|] == pattern then RemoveAll(s[|pattern|..], pattern)
    else if s == [] then []
    else [s[0]] + RemoveAll(s[1..], pattern)
  }

  /**
    How the scan proceeds: an occurrence of the pattern at the front is
    dropped whole and the scan resumes after it; otherwise the first
    character is kept and the scan resumes at the next one.
  */
  lemma RemoveAllSteps(s: string, pattern: string)
    requires |pattern| > 0
    ensures RemoveAll(pattern + s, pattern) == RemoveAll(s, pattern)
    ensures s != [] && !(|s| >= |pattern| && s[..|pattern|] == pattern) ==>
      RemoveAll(s, pattern) == [s[0]] + RemoveAll(s[1..], pattern)
  {
    assert (pattern + s)[..|pattern|] == pattern && (pattern + s)[|pattern|..] == s;
  }

  /** A string without the pattern's first character is left as it is. */
  lemma {:induction false} RemoveAllAbsent(s: string, pattern: string)
    requires |pattern| > 0 && pattern[0] !in s
    ensures RemoveAll(s, pattern) == s
    decreases |s|
  {
    if s != [] {
      assert s[0] != pattern[0];
      assert s[1..] == s[|s| - (|s| - 1)..];
      assert pattern[0] !in s[1..];
      RemoveAllAbsent(s[1..], pattern);
    }
  }

  /** One pass only: removing `S_` from `SS__` leaves a new `S_`. */
  lemma RemoveAllSinglePass()
    ensures RemoveAll("SS__", "S_") == "S_"
  {
    assert "SS__"[1..] == "S__";
    assert "S__"[2..] == "_";
    assert "S__"[..2] == "S_";
  }

  /** Each element through `f`, in order; the first failure is the result. */
  function MapAll<A, B>(xs: seq<A>, f: A -> Result<B, PyError>): (r: Result<seq<B>, PyError>)
    ensures r.Success? <==> forall i :: 0 <= i < |xs| ==> f(xs[i]).Success?
    ensures r.Success? ==> |r.value| == |xs| && forall i :: 0 <= i < |xs| ==> r.value[i] == f(xs[i]).value
    ensures r.Failure? ==> exists i :: 0 <= i < |xs| && f(xs[i]) == Failure(r.error)
  {
    if xs == [] then Success([])
    else
      match f(xs[0])
      case Failure(e) => Failure(e)
      case Success(y) =>
        match MapAll(xs[1..], f)
        case Failure(e) =>
          assert forall i :: 1 <= i < |xs| ==> xs[1..][i - 1] == xs[i];
          Failure(e)
        case Success(ys) =>
          assert forall i :: 1 <= i < |xs| ==> xs[1..][i - 1] == xs[i];
          Success([y] + ys)
  }

  /**
    `tuple(map(int, s.split("-")))`: one integer per hyphen-separated piece,
    each that piece's `int()`; a piece `int()` rejects raises `ValueError`.
  */
  function ParseTuple(segment: string): (r: Result<seq<int>, PyError>)
    ensures r.Success? ==> |r.value| >= 1
    ensures r.Success? ==>
      var pieces := Split(segment, '-');
      |r.value| == |pieces| && forall i :: 0 <= i < |pieces| ==> PyInt(pieces[i]) == Success(r.value[i])
    ensures r.Failure? ==> r.error == ValueError
  {
    MapAll(Split(segment, '-'), PyInt)
  }

  /**
    The comprehension over `value.replace("S_", "").split(",")`: at least one
    period, each a non-empty tuple; any malformed segment raises `ValueError`.
  */
  function ParsePeriods(value: string): (r: Result<seq<seq<int>>, PyError>)
    ensures r.Success? ==> |r.value| >= 1 && forall i :: 0 <= i < |r.value| ==> |r.value[i]| >= 1
    ensures r.Failure? ==> r.error == ValueError
  {
    MapAll(Split(RemoveAll(value, "S_"), ','), ParseTuple)
  }

  /** The stored form of a list of tuples of non-negative integers: `"S_"`, then `a-b` segments joined by commas. */
  function FormatPeriods(periods: seq<seq<nat>>): string
    requires |periods| >= 1 && forall i :: 0 <= i < |periods| ==> |periods[i]| >= 1
  {
    "S_" + Join(seq(|periods|, i requires 0 <= i < |periods| => FormatTuple(periods[i])), ',')
  }

  function FormatTuple(t: seq<nat>): string
    requires |t| >= 1
  {
    Join(seq(|t|, j requires 0 <= j < |t| => Numeral(t[j], 10)), '-')
  }

  /** A decimal numeral holds only decimal digits. */
  lemma NumeralAvoids(n: nat, c: char)
    requires !IsDigitIn(c, 10)
    ensures c !in Numeral(n, 10)
  {
    var d := Numeral(n, 10);
    NumeralShape(n, 10);
    forall i | 0 <= i < |d| ensures d[i] != c {
      assert IsDigitIn(d[i], 10);
    }
  }

  /** A formatted tuple holds only digits and hyphens. */
  lemma FormatTupleAvoids(t: seq<nat>, c: char)
    requires |t| >= 1 && !IsDigitIn(c, 10) && c != '-'
    ensures c !in FormatTuple(t)
  {
    var parts := seq(|t|, j requires 0 <= j < |t| => Numeral(t[j], 10));
    forall j | 0 <= j < |t| ensures c !in parts[j] {
      NumeralAvoids(t[j], c);
    }
    JoinAvoids(parts, '-', c);
  }

  lemma ParseTupleRoundTrip(t: seq<nat>)
    requires |t| >= 1
    ensures ParseTuple(FormatTuple(t)) == Success(t)
  {
    var parts := seq(|t|, j requires 0 <= j < |t| => Numeral(t[j], 10));
    forall j | 0 <= j < |t| ensures '-' !in parts[j] && PyInt(parts[j]) == Success(t[j] as int) {
      NumeralAvoids(t[j], '-');
      PyIntOfNumeral(t[j]);
    }
    SplitJoin(parts, '-');
    var r := MapAll(parts, PyInt);
    assert r.value == t;
  }

  /**
    Writing a non-empty list of non-empty tuples of non-negative integers in the
    stored form and parsing it gives the list back.
  */
  lemma ParsePeriodsRoundTrip(periods: seq<seq<nat>>)
    requires |periods| >= 1 && forall i :: 0 <= i < |periods| ==> |periods[i]| >= 1
    ensures ParsePeriods(FormatPeriods(periods)) == Success(periods)
  {
    var segments := seq(|periods|, i requires 0 <= i < |periods| => FormatTuple(periods[i]));
    var body := Join(segments, ',');
    forall i | 0 <= i < |periods| ensures ',' !in segments[i] && 'S' !in segments[i] {
      FormatTupleAvoids(periods[i], ',');
      FormatTupleAvoids(periods[i], 'S');
    }
    JoinAvoids(segments, ',', 'S');
    assert ("S_" + body)[..2] == "S_" && ("S_" + body)[2..] == body;
    RemoveAllAbsent(body, "S_");
    assert RemoveAll("S_" + body, "S_") == body;
    SplitJoin(segments, ',');
    forall i | 0 <= i < |periods| ensures ParseTuple(segments[i]) == Success(periods[i]) {
      ParseTupleRoundTrip(periods[i]);
    }
    var r := MapAll(segments, ParseTuple);
    assert r.value == periods;
  }

  /** `"S_1-2,3-4"` holds the periods (1, 2) and (3, 4). */
  lemma ParsePeriodsExample(value: string)
    requires value == "S_1-2,3-4"
    ensures ParsePeriods(value) == Success([[1, 2], [3, 4]])
  {
    var first, second := ['1', '-', '2'], ['3', '-', '4'];
    ExampleSegments(value, first, second);
    TwoDigitTuple('1', '2');
    TwoDigitTuple('3', '4');
    var r := MapAll([first, second], ParseTuple);
    assert r.Success?;
    assert r.value == [[1, 2], [3, 4]];
  }

  /** Two segments after the marker: the marker goes and the comma splits them apart. */
  lemma TwoSegments(first: string, second: string)
    requires ',' !in first && ',' !in second && 'S' !in first && 'S' !in second
    ensures Split(RemoveAll("S_" + (first + [','] + second), "S_"), ',') == [first, second]
  {
    var body := first + [','] + second;
    RemoveAllSteps(body, "S_");
    RemoveAllAbsent(body, "S_");
    SplitAtSeparator(first, second, ',');
    SplitWithoutSeparator(first, ',');
    SplitWithoutSeparator(second, ',');
  }

  lemma ExampleSegments(value: string, first: string, second: string)
    requires value == "S_1-2,3-4" && first == "1-2" && second == "3-4"
    ensures Split(RemoveAll(value, "S_"), ',') == [first, second]
  {
    assert value == "S_" + (first + [','] + second);
    TwoSegments(first, second);
  }

  /** A segment `a-b` of two single digits parses to the pair of their values. */
  lemma TwoDigitTuple(a: char, b: char)
    requires IsDigitIn(a, 10) && IsDigitIn(b, 10)
    ensures ParseTuple([a, '-', b]) == Success([(a as int) - ('0' as int), (b as int) - ('0' as int)])
  {
    assert [a, '-', b] == [a] + ['-'] + [b];
    SplitAtSeparator([a], [b], '-');
    SplitWithoutSeparator([a], '-');
    SplitWithoutSeparator([b], '-');
    var parts := [[a], [b]];
    assert Split([a, '-', b], '-') == parts;
    PyIntOfChar(a);
    PyIntOfChar(b);
    var r := MapAll(parts, PyInt);
    assert r.Success?;
    assert r.value == [(a as int) - ('0' as int), (b as int) - ('0' as int)];
  }

  /** An empty list cannot be stored: `"S_"` leaves one empty segment, and `int("")` raises. */
  lemma EmptyPeriodsDoNotParse()
    ensures ParsePeriods("S_") == Failure(ValueError)
  {
    assert RemoveAll("S_", "S_") == "";
    assert Split("", ',') == [""];
    assert Split("", '-') == [""];
    assert PyInt("") == Failure(ValueError);
  }

  // ---------------------------------------------------------------------------
  // get_config

  /** How the precision digit is stored: as written, a plain `int`; corrected, the `TimePrecision` member. */
  datatype Variant = AsWritten | Corrected

  function Defaults(v: Variant): BlockyTimeConfig {
    BlockyTimeConfig([], false, if v == AsWritten then RawInt(1) else Member(HalfHour))
  }

  function StorePrecision(v: Variant, digit: int): (r: Result<PrecisionField, PyError>)
  {
    if v == AsWritten then Success(RawInt(digit))
    else match PrecisionFromValue(digit)
      case Failure(e) => Failure(e)
      case Success(p) => Success(Member(p))
  }

  /**
    One iteration of the loop over the rows: it raises exactly when the row's
    value does not parse, and it changes at most the field the row's key names.
    A NULL value raises `TypeError` at `value[-1]` and `AttributeError` at
    `value.replace`, and it is not equal to `"I_1"`.
  */
  function ApplyRow(v: Variant, c: BlockyTimeConfig, row: ConfigRow): (r: Result<BlockyTimeConfig, PyError>)
    ensures r.Success? <==> RowParses(v, row)
    ensures r.Failure? && row.value.Some? ==> r.error == IndexError || r.error == ValueError
    ensures r == Failure(TypeError) <==> row.key == PrecisionRowKey && row.value.None?
    ensures r == Failure(AttributeError) <==> row.key == PeriodRowKey && row.value.None?
    ensures row.key == PixelateRowKey ==> r == Success(c.(disablePixelate := row.value == Some("I_1")))
    ensures r.Success? && row.key != PrecisionRowKey ==> r.value.mainTimePrecision == c.mainTimePrecision
    ensures r.Success? && row.key != PixelateRowKey ==> r.value.disablePixelate == c.disablePixelate
    ensures r.Success? && row.key != PeriodRowKey ==> r.value.specialTimePeriod == c.specialTimePeriod
  {
    if row.key == PrecisionRowKey then
      match row.value
      case None => Failure(TypeError)
      case Some(value) =>
        match ParsePrecision(value)
        case Failure(e) => Failure(e)
        case Success(d) =>
          match StorePrecision(v, d)
          case Failure(e) => Failure(e)
          case Success(f) => Success(c.(mainTimePrecision := f))
    else if row.key == PixelateRowKey then
      Success(c.(disablePixelate := row.value == Some("I_1")))
    else if row.key == PeriodRowKey then
      match row.value
      case None => Failure(AttributeError)
      case Some(value) =>
        match ParsePeriods(value)
        case Failure(e) => Failure(e)
        case Success(ps) => Success(c.(specialTimePeriod := ps))
    else Success(c)
  }

  /**
    The loop over `rows` from the defaults, stopped by the first exception: it
    succeeds exactly when every row parses. The exceptions are the `IndexError`
    of an empty precision value, the `ValueError` of `int()`, and the
    `TypeError` or `AttributeError` of a NULL value (see `GetConfigErrors`).
  */
  function GetConfigWith(v: Variant, rows: seq<ConfigRow>): (r: Result<BlockyTimeConfig, PyError>)
    ensures r.Success? <==> AllRowsParse(v, rows)
    ensures r.Failure? ==> r.error in {IndexError, ValueError, TypeError, AttributeError}
    decreases |rows|
  {
    if rows == [] then Success(Defaults(v))
    else
      match GetConfigWith(v, rows[..|rows| - 1])
      case Failure(e) => Failure(e)
      case Success(c) => ApplyRow(v, c, rows[|rows| - 1])
  }

  /**
    `get_config` as written: it returns a configuration exactly when every row
    parses; without NULL values, it raises only `IndexError` or `ValueError`.
  */
  function GetConfig(rows: seq<ConfigRow>): (r: Result<BlockyTimeConfig, PyError>)
    ensures r.Success? <==> AllRowsParse(AsWritten, rows)
    ensures r.Failure? ==> r.error in {IndexError, ValueError, TypeError, AttributeError}
    ensures NoNullValues(rows) && r.Failure? ==> r.error == IndexError || r.error == ValueError
  {
    GetConfigErrors(AsWritten, rows);
    GetConfigWith(AsWritten, rows)
  }

  /**
    `get_config` storing `TimePrecision(int(value[-1]))`, with
    `TimePrecision.HalfHour` as the default: whatever it returns holds a member
    of the enum as its precision.
  */
  function GetConfigFixed(rows: seq<ConfigRow>): (r: Result<BlockyTimeConfig, PyError>)
    ensures r.Success? <==> AllRowsParse(Corrected, rows)
    ensures r.Success? ==> r.value.mainTimePrecision.Member?
  {
    GetConfigLastRowWins(Corrected, rows);
    GetConfigWith(Corrected, rows)
  }

  /** The value of the last row with `key`, if there is such a row (that value may itself be NULL). */
  function LastValue(rows: seq<ConfigRow>, key: string): Option<Option<string>>
    decreases |rows|
  {
    if rows == [] then None
    else if rows[|rows| - 1].key == key then Some(rows[|rows| - 1].value)
    else LastValue(rows[..|rows| - 1], key)
  }

  /** A row whose value its key's parser accepts (rows with other keys always do). */
  predicate RowParses(v: Variant, row: ConfigRow) {
    && (row.key == PrecisionRowKey ==>
          && row.value.Some?
          && ParsePrecision(row.value.value).Success?
          && StorePrecision(v, ParsePrecision(row.value.value).value).Success?)
    && (row.key == PeriodRowKey ==> row.value.Some? && ParsePeriods(row.value.value).Success?)
  }

  /** No row holds a NULL value. */
  predicate NoNullValues(rows: seq<ConfigRow>) {
    forall i :: 0 <= i < |rows| ==> rows[i].value.Some?
  }

  /** Every row parses. */
  predicate AllRowsParse(v: Variant, rows: seq<ConfigRow>)
    decreases |rows|
  {
    rows == [] || (AllRowsParse(v, rows[..|rows| - 1]) && RowParses(v, rows[|rows| - 1]))
  }

  lemma {:induction false} AllRowsParseEach(v: Variant, rows: seq<ConfigRow>)
    ensures AllRowsParse(v, rows) <==> forall i :: 0 <= i < |rows| ==> RowParses(v, rows[i])
    decreases |rows|
  {
    if rows != [] {
      var init := rows[..|rows| - 1];
      AllRowsParseEach(v, init);
      if AllRowsParse(v, rows) {
        forall i | 0 <= i < |rows| ensures RowParses(v, rows[i]) {
          if i < |init| {
            assert rows[i] == init[i];
          }
        }
      }
      if forall i :: 0 <= i < |rows| ==> RowParses(v, rows[i]) {
        forall i | 0 <= i < |init| ensures RowParses(v, init[i]) {
          assert init[i] == rows[i];
        }
      }
    }
  }

  /**
    What `get_config` returns, field by field: it succeeds exactly when every
    row parses, and then each field comes from the last row with its key, or
    is the default when there is none.
  */
  lemma {:induction false} GetConfigLastRowWins(v: Variant, rows: seq<ConfigRow>)
    ensures GetConfigWith(v, rows).Success? <==> AllRowsParse(v, rows)
    ensures GetConfigWith(v, rows).Success? ==>
      var c := GetConfigWith(v, rows).value;
      && (LastValue(rows, PrecisionRowKey).None? ==> c.mainTimePrecision == Defaults(v).mainTimePrecision)
      && (LastValue(rows, PrecisionRowKey).Some? ==>
            && LastValue(rows, PrecisionRowKey).value.Some?
            && var digit := ParsePrecision(LastValue(rows, PrecisionRowKey).value.value);
            digit.Success? && StorePrecision(v, digit.value) == Success(c.mainTimePrecision))
      && c.disablePixelate == (LastValue(rows, PixelateRowKey) == Some(Some("I_1")))
      && (LastValue(rows, PeriodRowKey).None? ==> c.specialTimePeriod == [])
      && (LastValue(rows, PeriodRowKey).Some? ==>
            && LastValue(rows, PeriodRowKey).value.Some?
            && ParsePeriods(LastValue(rows, PeriodRowKey).value.value) == Success(c.specialTimePeriod))
    decreases |rows|
  {
    if rows != [] {
      var init, last := rows[..|rows| - 1], rows[|rows| - 1];
      GetConfigLastRowWins(v, init);
      assert PrecisionRowKey != PixelateRowKey && PrecisionRowKey != PeriodRowKey && PixelateRowKey != PeriodRowKey by {
        assert PrecisionRowKey[0] != PeriodRowKey[0] && |PrecisionRowKey| != |PixelateRowKey|;
        assert |PixelateRowKey| != |PeriodRowKey|;
      }
      if last.key == PrecisionRowKey {
        assert LastValue(rows, PrecisionRowKey) == Some(last.value);
      } else if last.key == PixelateRowKey {
        assert LastValue(rows, PixelateRowKey) == Some(last.value);
      } else if last.key == PeriodRowKey {
        assert LastValue(rows, PeriodRowKey) == Some(last.value);
      }
    }
  }

  /**
    Which exceptions a run raises: a `TypeError` or an `AttributeError` only
    when some row with the precision or the period key holds NULL, so without
    NULL values only `IndexError` and `ValueError` remain.
  */
  lemma {:induction false} GetConfigErrors(v: Variant, rows: seq<ConfigRow>)
    ensures GetConfigWith(v, rows) == Failure(TypeError) ==>
      exists i :: 0 <= i < |rows| && rows[i] == ConfigRow(PrecisionRowKey, None)
    ensures GetConfigWith(v, rows) == Failure(AttributeError) ==>
      exists i :: 0 <= i < |rows| && rows[i] == ConfigRow(PeriodRowKey, None)
    ensures NoNullValues(rows) && GetConfigWith(v, rows).Failure? ==>
      GetConfigWith(v, rows).error == IndexError || GetConfigWith(v, rows).error == ValueError
    decreases |rows|
  {
    if rows != [] {
      var init, last := rows[..|rows| - 1], rows[|rows| - 1];
      GetConfigErrors(v, init);
      NullErrorsStep(v, rows);
    }
  }

  /** The step of `GetConfigErrors`: the error comes from the earlier rows or from the last one. */
  lemma NullErrorsStep(v: Variant, rows: seq<ConfigRow>)
    requires rows != []
    requires var init := rows[..|rows| - 1];
      && (GetConfigWith(v, init) == Failure(TypeError) ==>
            exists i :: 0 <= i < |init| && init[i] == ConfigRow(PrecisionRowKey, None))
      && (GetConfigWith(v, init) == Failure(AttributeError) ==>
            exists i :: 0 <= i < |init| && init[i] == ConfigRow(PeriodRowKey, None))
      && (NoNullValues(init) && GetConfigWith(v, init).Failure? ==>
            GetConfigWith(v, init).error == IndexError || GetConfigWith(v, init).error == ValueError)
    ensures GetConfigWith(v, rows) == Failure(TypeError) ==>
      exists i :: 0 <= i < |rows| && rows[i] == ConfigRow(PrecisionRowKey, None)
    ensures GetConfigWith(v, rows) == Failure(AttributeError) ==>
      exists i :: 0 <= i < |rows| && rows[i] == ConfigRow(PeriodRowKey, None)
    ensures NoNullValues(rows) && GetConfigWith(v, rows).Failure? ==>
      GetConfigWith(v, rows).error == IndexError || GetConfigWith(v, rows).error == ValueError
  {
    var init, last := rows[..|rows| - 1], rows[|rows| - 1];
    assert forall i :: 0 <= i < |init| ==> init[i] == rows[i];
    if NoNullValues(rows) {
      assert NoNullValues(init);
      assert last.value.Some?;
    }
    var lastRow := |rows| - 1;
    assert rows[lastRow] == last;
  }

  /**
    A NULL value, reached with no earlier exception: under the precision key it
    raises `TypeError`, under the period key `AttributeError`, and under the
    pixelation key it turns the flag off.
  */
  lemma NullValueRow(v: Variant, rows: seq<ConfigRow>)
    requires GetConfigWith(v, rows).Success?
    ensures GetConfigWith(v, rows + [ConfigRow(PrecisionRowKey, None)]) == Failure(TypeError)
    ensures GetConfigWith(v, rows + [ConfigRow(PeriodRowKey, None)]) == Failure(AttributeError)
    ensures GetConfigWith(v, rows + [ConfigRow(PixelateRowKey, None)])
      == Success(GetConfigWith(v, rows).value.(disablePixelate := false))
  {
    assert (rows + [ConfigRow(PrecisionRowKey, None)])[..|rows|] == rows;
    assert (rows + [ConfigRow(PeriodRowKey, None)])[..|rows|] == rows;
    assert (rows + [ConfigRow(PixelateRowKey, None)])[..|rows|] == rows;
  }

  /** With no rows the result is the defaults: precision 1, pixelation on, no special periods. */
  lemma NoRowsGiveDefaults()
    ensures GetConfig([]) == Success(BlockyTimeConfig([], false, RawInt(1)))
  {
  }

  /** A row with any other key changes nothing. */
  lemma OtherKeyIgnored(v: Variant, rows: seq<ConfigRow>, row: ConfigRow)
    requires row.key != PrecisionRowKey && row.key != PixelateRowKey && row.key != PeriodRowKey
    ensures GetConfigWith(v, rows + [row]) == GetConfigWith(v, rows)
  {
    assert (rows + [row])[..|rows|] == rows;
  }

  /**
    As written, `get_config` stores a plain `int` as the precision, default
    included, so `to_dict` on any configuration it returns raises
    `AttributeError`.
  */
  lemma {:induction false} GetConfigThenToDictFails(rows: seq<ConfigRow>)
    requires GetConfig(rows).Success?
    ensures GetConfig(rows).value.mainTimePrecision.RawInt?
    ensures ToDict(GetConfig(rows).value) == Failure(AttributeError)
  {
    GetConfigLastRowWins(AsWritten, rows);
  }

  /**
    With the member stored, `to_dict` succeeds on every configuration
    `get_config` returns and carries the precision digit as the enum value;
    digits above 2 raise `ValueError` at the row that holds them.
  */
  lemma GetConfigFixedToDict(rows: seq<ConfigRow>)
    requires GetConfigFixed(rows).Success?
    ensures ToDict(GetConfigFixed(rows).value).Success?
    ensures var d := ToDict(GetConfigFixed(rows).value).value;
      && d[MainTimePrecisionKey].IntValue?
      && (LastValue(rows, PrecisionRowKey).None? ==> d[MainTimePrecisionKey] == IntValue(1))
      && (LastValue(rows, PrecisionRowKey).Some? ==>
            && LastValue(rows, PrecisionRowKey).value.Some?
            && ParsePrecision(LastValue(rows, PrecisionRowKey).value.value) == Success(d[MainTimePrecisionKey].i))
  {
    GetConfigLastRowWins(Corrected, rows);
    var c := GetConfigFixed(rows).value;
    assert c.mainTimePrecision.Member?;
    var last := LastValue(rows, PrecisionRowKey);
    if last.Some? {
      PrecisionValueRoundTrip(c.mainTimePrecision.member, ParsePrecision(last.value.value).value);
    }
  }

  /** The corrected service differs only in the precision's type: it agrees with the original wherever it succeeds. */
  lemma FixedAgreesWithAsWritten(rows: seq<ConfigRow>)
    requires GetConfigFixed(rows).Success?
    ensures GetConfig(rows).Success?
    ensures var a, b := GetConfig(rows).value, GetConfigFixed(rows).value;
      && a.specialTimePeriod == b.specialTimePeriod
      && a.disablePixelate == b.disablePixelate
      && b.mainTimePrecision.Member?
      && a.mainTimePrecision == RawInt(PrecisionValue(b.mainTimePrecision.member))
  {
    GetConfigLastRowWins(AsWritten, rows);
    GetConfigLastRowWins(Corrected, rows);
    CorrectedParsesAsWritten(rows);
    var last := LastValue(rows, PrecisionRowKey);
    var b := GetConfigFixed(rows).value;
    if last.Some? {
      var d := ParsePrecision(last.value.value).value;
      assert StorePrecision(Corrected, d) == Success(b.mainTimePrecision);
      PrecisionValueRoundTrip(b.mainTimePrecision.member, d);
    }
  }

  /** Every row the corrected service accepts, the original accepts too. */
  lemma {:induction false} CorrectedParsesAsWritten(rows: seq<ConfigRow>)
    requires AllRowsParse(Corrected, rows)
    ensures AllRowsParse(AsWritten, rows)
    decreases |rows|
  {
    if rows != [] {
      CorrectedParsesAsWritten(rows[..|rows| - 1]);
    }
  }

  /** A stored `"3"` is accepted as written but rejected by the corrected service. */
  lemma PrecisionThreeRejectedWhenFixed()
    ensures GetConfig([ConfigRow(PrecisionRowKey, Some("3"))]) == Success(BlockyTimeConfig([], false, RawInt(3)))
    ensures GetConfigFixed([ConfigRow(PrecisionRowKey, Some("3"))]) == Failure(ValueError)
  {
    var row := ConfigRow(PrecisionRowKey, Some("3"));
    assert [row][..0] == [];
    ParsePrecisionLastDigit("3");
    assert ParsePrecision("3") == Success(3);
    assert GetConfigWith(AsWritten, []) == Success(Defaults(AsWritten));
    assert GetConfigWith(Corrected, []) == Success(Defaults(Corrected));
    assert GetConfig([row]) == ApplyRow(AsWritten, Defaults(AsWritten), row);
    assert GetConfigFixed([row]) == ApplyRow(Corrected, Defaults(Corrected), row);
  }
}
