/**
  The string key of one grid cell: `formatTimeBlockId` writes a cell
  `{dateStr, hour, minute}` as `"{dateStr}-{hour}-{minute}"` with hour and
  minute unpadded, and `parseTimeBlockId` splits a key on every `-`, rebuilds
  the date from the first three parts and reads hour and minute with
  JavaScript's `parseInt`.
*/
module TimeBlockKey {
  import opened Text

  /** One quarter-hour cell of the grid. */
  datatype TimeBlockId = TimeBlockId(dateStr: string, hour: int, minute: int)

  /** A JavaScript number as far as the codec needs one: an integer, or NaN. */
  datatype JsNumber = NaN | Num(value: int)

  /** `${n}` for an integral number: JavaScript prints it in base 10. */
  function NumberToString(n: int): string {
    ToStringRadix(n, 10)
  }

  /** A printed integer holds a hyphen exactly when it is negative, and then only in front. */
  lemma NumberToStringShape(n: int)
    ensures '-' in NumberToString(n) <==> n < 0
    ensures n < 0 ==> NumberToString(n) == "-" + Numeral(-n, 10) && '-' !in Numeral(-n, 10)
  {
    if n < 0 {
      NoHyphenInDecimal(-n);
    } else {
      NoHyphenInDecimal(n);
    }
  }

  lemma NoHyphenInDecimal(n: nat)
    ensures '-' !in Numeral(n, 10)
  {
    var s := Numeral(n, 10);
    NumeralShape(n, 10);
    forall i | 0 <= i < |s| ensures s[i] != '-' {
      assert IsDigitIn(s[i], 10);
    }
  }

  /** ECMAScript white space and line terminators, which `parseInt` skips at the front. */
  predicate IsJsWhiteSpace(c: char) {
    var k := c as int;
    k == 0x09 || k == 0x0A || k == 0x0B || k == 0x0C || k == 0x0D || k == 0x20
    || k == 0xA0 || k == 0x1680 || (0x2000 <= k <= 0x200A) || k == 0x2028
    || k == 0x2029 || k == 0x202F || k == 0x205F || k == 0x3000 || k == 0xFEFF
  }

  /** The white-space skip of `parseInt`: a suffix that does not start with white space. */
  function TrimStart(s: string): (t: string)
    ensures |t| <= |s| && t == s[|s| - |t|..]
    ensures t == [] || !IsJsWhiteSpace(t[0])
    decreases |s|
  {
    if s != [] && IsJsWhiteSpace(s[0]) then TrimStart(s[1..]) else s
  }

  /** Everything `TrimStart` drops is white space, so exactly the leading white space goes. */
  lemma {:induction false} TrimStartDropsWhiteSpace(s: string)
    ensures var t := TrimStart(s);
      forall i :: 0 <= i < |s| - |t| ==> IsJsWhiteSpace(s[i])
    decreases |s|
  {
    if s != [] && IsJsWhiteSpace(s[0]) {
      var t := TrimStart(s[1..]);
      TrimStartDropsWhiteSpace(s[1..]);
      assert TrimStart(s) == t;
      forall i | 1 <= i < |s| - |t| ensures IsJsWhiteSpace(s[i]) {
        assert s[i] == s[1..][i - 1];
      }
    }
  }

  /** The longest prefix of `s` made of digits in base `radix`. */
  function DigitPrefix(s: string, radix: nat): (p: string)
    ensures |p| <= |s| && p == s[..|p|]
    ensures AllDigitsIn(p, radix)
    ensures |p| < |s| ==> !IsDigitIn(s[|p|], radix)
  {
    if s == [] || !IsDigitIn(s[0], radix) then []
    else
      var rest := DigitPrefix(s[1..], radix);
      var p := [s[0]] + rest;
      assert forall i :: 1 <= i < |p| ==> p[i] == rest[i - 1];
      p
  }

  lemma {:induction false} DigitPrefixOfDigits(s: string, radix: nat)
    requires AllDigitsIn(s, radix)
    ensures DigitPrefix(s, radix) == s
    decreases |s|
  {
    if s != [] {
      DigitPrefixOfDigits(s[1..], radix);
    }
  }

  /**
    The number after the sign: base 16 after a `0x`/`0X` prefix and base 10
    otherwise, up to the first character that is not a digit; no digit at all
    is NaN.
  */
  function ParseMagnitude(u: string): (r: JsNumber)
    ensures r.Num? ==> |u| >= 1 && '0' <= u[0] <= '9' && r.value >= 0
  {
    var hex := |u| >= 2 && u[0] == '0' && (u[1] == 'x' || u[1] == 'X');
    var radix := if hex then 16 else 10;
    var digits := DigitPrefix(if hex then u[2..] else u, radix);
    if digits == [] then NaN
    else
      assert '0' <= u[0] <= '9' by {
        if !hex { assert u[0] == digits[0] && IsDigitIn(digits[0], 10); }
      }
      Num(NumeralValue(digits, radix))
  }

  /** An optional sign and the magnitude after it; `-` negates. */
  function ParseSigned(t: string): (r: JsNumber)
    ensures r.Num? ==> exists i :: 0 <= i < |t| && '0' <= t[i] <= '9'
  {
    var u := if |t| > 0 && (t[0] == '-' || t[0] == '+') then t[1..] else t;
    match ParseMagnitude(u)
    case NaN => NaN
    case Num(m) =>
      assert t[|t| - |u|] == u[0];
      Num(if |t| > 0 && t[0] == '-' then -m else m)
  }

  /**
    JavaScript `parseInt(s)` with no radix: skip leading white space, take an
    optional sign, then read the magnitude.
  */
  function ParseInt(s: string): (r: JsNumber)
    ensures r.Num? ==> exists i :: 0 <= i < |s| && '0' <= s[i] <= '9'
  {
    var t := TrimStart(s);
    assert forall i :: 0 <= i < |t| ==> t[i] == s[|s| - |t| + i];
    ParseSigned(t)
  }

  /** White space in front of the text does not change what `parseInt` reads. */
  lemma ParseIntSkipsWhiteSpace(w: string, s: string)
    requires forall i :: 0 <= i < |w| ==> IsJsWhiteSpace(w[i])
    ensures ParseInt(w + s) == ParseInt(s)
  {
    TrimStartSkipsWhiteSpace(w, s);
  }

  lemma {:induction false} TrimStartSkipsWhiteSpace(w: string, s: string)
    requires forall i :: 0 <= i < |w| ==> IsJsWhiteSpace(w[i])
    ensures TrimStart(w + s) == TrimStart(s)
    decreases |w|
  {
    if w == [] {
      assert w + s == s;
    } else {
      assert (w + s)[0] == w[0] && (w + s)[1..] == w[1..] + s;
      assert forall i :: 0 <= i < |w[1..]| ==> w[1..][i] == w[i + 1];
      TrimStartSkipsWhiteSpace(w[1..], s);
    }
  }

  /** The digit prefix of digits followed by a non-digit is exactly those digits. */
  lemma {:induction false} DigitPrefixOfDigitsThen(d: string, rest: string, radix: nat)
    requires AllDigitsIn(d, radix)
    requires rest == [] || !IsDigitIn(rest[0], radix)
    ensures DigitPrefix(d + rest, radix) == d
    decreases |d|
  {
    if d == [] {
      assert d + rest == rest;
    } else {
      assert (d + rest)[1..] == d[1..] + rest;
      assert AllDigitsIn(d[1..], radix) by {
        forall i | 0 <= i < |d[1..]| ensures IsDigitIn(d[1..][i], radix) {
          assert d[1..][i] == d[i + 1];
        }
      }
      DigitPrefixOfDigitsThen(d[1..], rest, radix);
      assert IsDigitIn(d[0], radix);
      assert [d[0]] + d[1..] == d;
    }
  }

  /**
    `parseInt` on an optional sign, a run of decimal digits and anything that
    does not continue the number: the value of those digits, negated after a
    minus sign. A lone `0` followed by `x` or `X` is excluded, because that
    starts a hexadecimal number. `v` names the value of the digits.
  */
  lemma ParseIntOfDecimal(sign: string, d: string, rest: string, v: int)
    requires |sign| <= 1 && (|sign| == 1 ==> sign[0] == '-' || sign[0] == '+')
    requires |d| >= 1 && AllDigitsIn(d, 10)
    requires rest == [] || !IsDigitIn(rest[0], 10)
    requires !(|d| == 1 && d[0] == '0' && |rest| >= 1 && (rest[0] == 'x' || rest[0] == 'X'))
    requires v == NumeralValue(d, 10)
    ensures ParseInt(sign + d + rest) == Num(if |sign| == 1 && sign[0] == '-' then -v else v)
  {
    MagnitudeOfDecimal(d, rest);
    assert IsDigitIn(d[0], 10);
    ParseIntOfSignedPair(sign, d, rest, v);
  }

  /**
    After a `0x` or `0X` prefix the digits `d` are read in base 16, up to
    `rest`, which does not continue them. `v` names the value of the digits.
  */
  lemma ParseIntOfHex(u: string, d: string, rest: string, v: int)
    requires |u| >= 2 && u[0] == '0' && (u[1] == 'x' || u[1] == 'X') && u[2..] == d + rest
    requires |d| >= 1 && AllDigitsIn(d, 16)
    requires rest == [] || !IsDigitIn(rest[0], 16)
    requires v == NumeralValue(d, 16)
    ensures ParseInt(u) == Num(v)
  {
    HexMagnitude(u, d, rest, v);
    assert [] + u == u;
    ParseIntOfSigned([], u, v);
  }

  lemma HexMagnitude(u: string, d: string, rest: string, v: int)
    requires |u| >= 2 && u[0] == '0' && (u[1] == 'x' || u[1] == 'X') && u[2..] == d + rest
    requires |d| >= 1 && AllDigitsIn(d, 16)
    requires rest == [] || !IsDigitIn(rest[0], 16)
    requires v == NumeralValue(d, 16)
    ensures ParseMagnitude(u) == Num(v)
  {
    DigitPrefixOfDigitsThen(d, rest, 16);
  }

  /** Why `ParseIntOfDecimal` excludes a lone `0` before `x`: `parseInt("0x1f")` is 31, not 0. */
  lemma HexPrefixIsNotDecimal(s: string)
    requires s == "0x1f"
    ensures ParseInt(s) == Num(31)
  {
    var d := "1f";
    assert AllDigitsIn(d, 16) by {
      assert DigitOf(d[0]) == 1 && DigitOf(d[1]) == 15;
    }
    assert NumeralValue(d, 16) == 31 by {
      assert d[..1] == "1" && "1"[..0] == [];
    }
    assert s[2..] == d + [];
    ParseIntOfHex(s, d, [], 31);
  }

  lemma ParseIntOfSignedPair(sign: string, d: string, rest: string, v: int)
    requires |sign| <= 1 && (|sign| == 1 ==> sign[0] == '-' || sign[0] == '+')
    requires |d| >= 1 && '0' <= d[0] <= '9'
    requires ParseMagnitude(d + rest) == Num(v)
    ensures ParseInt(sign + d + rest) == Num(if |sign| == 1 && sign[0] == '-' then -v else v)
  {
    var u := d + rest;
    assert sign + d + rest == sign + u;
    assert u[0] == d[0];
    ParseIntOfSigned(sign, u, v);
  }

  /** A sign directly followed by a digit: no white space to skip, and the sign applies to the magnitude. */
  lemma ParseIntOfSigned(sign: string, u: string, v: int)
    requires |sign| <= 1 && (|sign| == 1 ==> sign[0] == '-' || sign[0] == '+')
    requires |u| >= 1 && '0' <= u[0] <= '9'
    requires ParseMagnitude(u) == Num(v)
    ensures ParseInt(sign + u) == Num(if |sign| == 1 && sign[0] == '-' then -v else v)
  {
    var s := sign + u;
    if |sign| == 0 {
      assert s == u;
    } else {
      assert s[0] == sign[0] && s[1..] == u;
    }
    assert ParseSigned(s) == Num(if |sign| == 1 && sign[0] == '-' then -v else v);
    TrimStartKeeps(s);
  }

  lemma MagnitudeOfDecimal(d: string, rest: string)
    requires |d| >= 1 && AllDigitsIn(d, 10)
    requires rest == [] || !IsDigitIn(rest[0], 10)
    requires !(|d| == 1 && d[0] == '0' && |rest| >= 1 && (rest[0] == 'x' || rest[0] == 'X'))
    ensures ParseMagnitude(d + rest) == Num(NumeralValue(d, 10))
  {
    NotHex(d, rest);
    DigitPrefixOfDigitsThen(d, rest, 10);
  }

  lemma TrimStartKeeps(s: string)
    requires s != [] && (s[0] == '-' || s[0] == '+' || IsDigitIn(s[0], 10))
    ensures TrimStart(s) == s
  {
    assert DigitOf(' ') == 36;
  }

  lemma NotHex(d: string, rest: string)
    requires |d| >= 1 && AllDigitsIn(d, 10)
    requires !(|d| == 1 && d[0] == '0' && |rest| >= 1 && (rest[0] == 'x' || rest[0] == 'X'))
    ensures var u := d + rest; !(|u| >= 2 && u[0] == '0' && (u[1] == 'x' || u[1] == 'X'))
  {
    var u := d + rest;
    if |d| >= 2 {
      assert u[1] == d[1] && IsDigitIn(d[1], 10);
    } else if |u| >= 2 {
      assert u[1] == rest[0];
    }
  }

  lemma ParseIntOfNumberToString(n: int)
    ensures ParseInt(NumberToString(n)) == Num(n)
  {
    var s := NumberToString(n);
    NumberToStringShape(n);
    var m := if n < 0 then -n else n;
    var d := Numeral(m, 10);
    NumeralShape(m, 10);
    DigitPrefixOfDigits(d, 10);
    NumeralRoundTrip(m, 10);
    assert !IsJsWhiteSpace(s[0]);
    assert TrimStart(s) == s;
    if |d| >= 2 {
      assert IsDigitIn(d[1], 10);
    }
  }

  /** Different integers print differently. */
  lemma NumberToStringInjective(a: int, b: int)
    requires NumberToString(a) == NumberToString(b)
    ensures a == b
  {
    ParseIntOfNumberToString(a);
    ParseIntOfNumberToString(b);
  }

  /**
    `formatTimeBlockId`: the key starts with the cell's date and a hyphen;
    `ParseFormatRoundTrip` is its inverse on well-formed cells.
  */
  function FormatTimeBlockId(id: TimeBlockId): (k: string)
    ensures |k| > |id.dateStr| + 1
    ensures k[..|id.dateStr|] == id.dateStr && k[|id.dateStr|] == '-'
  {
    id.dateStr + "-" + NumberToString(id.hour) + "-" + NumberToString(id.minute)
  }

  /** What `parseTimeBlockId` returns: hour and minute may be NaN. */
  datatype ParsedTimeBlockId = ParsedTimeBlockId(dateStr: string, hour: JsNumber, minute: JsNumber)

  /** `parts[i]` interpolated into a template: a missing part reads as "undefined". */
  function Part(parts: seq<string>, i: nat): string {
    if i < |parts| then parts[i] else "undefined"
  }

  /** `parseInt(undefined)` reads the string "undefined", which holds no digit. */
  lemma UndefinedIsNaN()
    ensures ParseInt("undefined") == NaN
  {
    var u := "undefined";
    assert forall i :: 0 <= i < |u| ==> !('0' <= u[i] <= '9');
  }

  function ParseTimeBlockId(key: string): (r: ParsedTimeBlockId)
    ensures r.hour.Num? ==> |Split(key, '-')| >= 4
    ensures r.minute.Num? ==> |Split(key, '-')| >= 5
  {
    var parts := Split(key, '-');
    UndefinedIsNaN();
    ParsedTimeBlockId(
      Part(parts, 0) + "-" + Part(parts, 1) + "-" + Part(parts, 2),
      ParseInt(Part(parts, 3)),
      ParseInt(Part(parts, 4)))
  }

  /** A date written as exactly three hyphen-free segments, like "2024-01-31". */
  predicate WellFormedDate(dateStr: string) {
    |Split(dateStr, '-')| == 3
  }

  /** A cell whose key can be read back: three-segment date, non-negative hour and minute. */
  predicate WellFormed(id: TimeBlockId) {
    WellFormedDate(id.dateStr) && id.hour >= 0 && id.minute >= 0
  }

  /** How a key splits: the date's segments, then hour, then the minute's pieces. */
  lemma KeyParts(id: TimeBlockId)
    requires id.hour >= 0
    ensures Split(FormatTimeBlockId(id), '-')
         == Split(id.dateStr, '-') + [NumberToString(id.hour)] + Split(NumberToString(id.minute), '-')
  {
    var h := NumberToString(id.hour);
    var m := NumberToString(id.minute);
    NumberToStringShape(id.hour);
    assert FormatTimeBlockId(id) == id.dateStr + ['-'] + (h + ['-'] + m);
    SplitAtSeparator(id.dateStr, h + ['-'] + m, '-');
    SplitAtSeparator(h, m, '-');
    SplitWithoutSeparator(h, '-');
  }

  lemma DateOfThreeParts(d: string)
    requires WellFormedDate(d)
    ensures var p := Split(d, '-'); p[0] + "-" + p[1] + "-" + p[2] == d
  {
    var p := Split(d, '-');
    JoinSplit(d, '-');
    assert p[1..][1..] == [p[2]];
    assert Join(p[1..][1..], '-') == p[2];
    assert Join(p[1..], '-') == p[1] + "-" + p[2];
    assert Join(p, '-') == p[0] + "-" + (p[1] + "-" + p[2]);
  }

  /** Parsing the key of a well-formed cell gives back its date, hour and minute. */
  lemma {:induction false} ParseFormatRoundTrip(id: TimeBlockId)
    requires WellFormed(id)
    ensures ParseTimeBlockId(FormatTimeBlockId(id))
         == ParsedTimeBlockId(id.dateStr, Num(id.hour), Num(id.minute))
  {
    var parts := Split(FormatTimeBlockId(id), '-');
    var date := Split(id.dateStr, '-');
    assert |parts| == 5 && parts[..3] == date
        && parts[3] == NumberToString(id.hour) && parts[4] == NumberToString(id.minute) by {
      KeyParts(id);
      NumberToStringShape(id.minute);
      SplitWithoutSeparator(NumberToString(id.minute), '-');
    }
    assert date[0] + "-" + date[1] + "-" + date[2] == id.dateStr by {
      DateOfThreeParts(id.dateStr);
    }
    assert parts[0] == date[0] && parts[1] == date[1] && parts[2] == date[2];
    assert ParseInt(parts[3]) == Num(id.hour) by { ParseIntOfNumberToString(id.hour); }
    assert ParseInt(parts[4]) == Num(id.minute) by { ParseIntOfNumberToString(id.minute); }
  }

  /** Distinct well-formed cells have distinct keys. */
  lemma KeyInjective(a: TimeBlockId, b: TimeBlockId)
    requires WellFormed(a) && WellFormed(b)
    requires FormatTimeBlockId(a) == FormatTimeBlockId(b)
    ensures a == b
  {
    ParseFormatRoundTrip(a);
    ParseFormatRoundTrip(b);
  }

  /**
    A negative minute puts a second hyphen into the key, so the parsed minute is
    read from an empty part and comes back NaN.
  */
  lemma {:induction false} NegativeMinuteReadsAsNaN(id: TimeBlockId)
    requires WellFormedDate(id.dateStr) && id.hour >= 0 && id.minute < 0
    ensures ParseTimeBlockId(FormatTimeBlockId(id)).minute == NaN
  {
    var m := NumberToString(id.minute);
    NumberToStringShape(id.minute);
    KeyParts(id);
    assert m == [] + ['-'] + Numeral(-id.minute, 10);
    SplitAtSeparator([], Numeral(-id.minute, 10), '-');
    assert Split(FormatTimeBlockId(id), '-')[4] == "";
  }
}
