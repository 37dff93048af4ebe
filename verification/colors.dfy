/**
  The client's conversion of a colour stored as a decimal integer into a CSS
  colour: `'transparent'` when there is no value, otherwise `'#'` and the
  value's base-16 digits, left-padded with zeros to six characters.
*/
module Colors {
  import opened Text

  /** What a caller may pass as `decimalColor?: number` at run time: the parameter may be left out or be `null`. */
  datatype MaybeNumber = Undefined | Null | Number(value: int)

  /** `String.prototype.padStart(width, fill)` with a one-character fill: never truncates. */
  function PadStart(s: string, width: nat, fill: char): (r: string)
    ensures |r| == if |s| >= width then |s| else width
    ensures r[|r| - |s|..] == s
    ensures forall i :: 0 <= i < |r| - |s| ==> r[i] == fill
  {
    if |s| >= width then s else seq(width - |s|, _ => fill) + s
  }

  /** `getColorFromDecimal`. */
  function GetColorFromDecimal(c: MaybeNumber): (r: string)
    ensures !c.Number? ==> r == "transparent"
    ensures |r| >= 7 && (c.Number? <==> r[0] == '#')
  {
    match c
    case Undefined => "transparent"
    case Null => "transparent"
    case Number(v) => "#" + PadStart(ToStringRadix(v, 16), 6, '0')
  }

  /** A hex digit as the client writes it: a decimal digit or a lower-case letter up to 'f'. */
  predicate IsLowerHex(ch: char) {
    '0' <= ch <= '9' || 'a' <= ch <= 'f'
  }

  /** Base-16 numerals use lower-case letters only. */
  lemma {:induction false} NumeralLowerHex(n: nat)
    ensures forall i :: 0 <= i < |Numeral(n, 16)| ==> IsLowerHex(Numeral(n, 16)[i])
    decreases n
  {
    if n >= 16 {
      DivStep(n, 16);
      NumeralLowerHex(n / 16);
      var high := Numeral(n / 16, 16);
      var s := high + [DigitChar(n % 16)];
      assert s == Numeral(n, 16);
      forall i | 0 <= i < |s| ensures IsLowerHex(s[i]) {
        if i < |high| { assert s[i] == high[i]; }
      }
    }
  }

  /** Any number of leading zeros leaves a numeral's value unchanged. */
  lemma {:induction false} LeadingZerosIgnored(k: nat, s: string, radix: nat)
    requires 2 <= radix <= 36 && AllDigitsIn(s, radix)
    ensures AllDigitsIn(seq(k, _ => '0') + s, radix)
    ensures NumeralValue(seq(k, _ => '0') + s, radix) == NumeralValue(s, radix)
    decreases k
  {
    if k == 0 {
      assert seq(k, _ => '0') + s == s;
    } else {
      LeadingZerosIgnored(k - 1, s, radix);
      var t := seq(k - 1, _ => '0') + s;
      assert seq(k, _ => '0') + s == "0" + t;
      LeadingZeroIgnored(t, radix);
    }
  }

  /** Absent colours are transparent. */
  lemma MissingColorIsTransparent()
    ensures GetColorFromDecimal(Undefined) == "transparent"
    ensures GetColorFromDecimal(Null) == "transparent"
  {
  }

  /**
    A colour below 16^6 gives exactly seven characters, and the six after '#'
    are lower-case hex digits that read back as the colour.
  */
  lemma ColorRoundTrip(c: nat)
    requires c < Pow(16, 6)
    ensures var r := GetColorFromDecimal(Number(c));
      && |r| == 7 && r[0] == '#'
      && (forall i :: 1 <= i < 7 ==> IsLowerHex(r[i]))
      && AllDigitsIn(r[1..], 16) && NumeralValue(r[1..], 16) == c
  {
    var digits := Numeral(c, 16);
    NumeralLength(c, 16, 6);
    NumeralRoundTrip(c, 16);
    NumeralLowerHex(c);
    var k := 6 - |digits|;
    var padded := seq(k, _ => '0') + digits;
    assert PadStart(digits, 6, '0') == padded;
    LeadingZerosIgnored(k, digits, 16);
    var r := GetColorFromDecimal(Number(c));
    assert r == "#" + padded;
    assert r[1..] == padded;
    forall i | 1 <= i < 7 ensures IsLowerHex(r[i]) {
      if i - 1 >= k { assert r[i] == digits[i - 1 - k]; }
    }
  }

  /** Padding never truncates: from 16^6 on, the result is '#' and all the digits, longer than seven characters. */
  lemma LargeColorNotTruncated(c: nat)
    requires c >= Pow(16, 6)
    ensures var r := GetColorFromDecimal(Number(c));
      |r| > 7 && r == "#" + Numeral(c, 16)
  {
    NumeralLength(c, 16, 6);
  }

  lemma BlackIsAllZeros()
    ensures GetColorFromDecimal(Number(0)) == "#000000"
  {
    assert Numeral(0, 16) == "0";
    assert seq(5, _ => '0') + "0" == "000000";
  }

  /**
    A negative colour is padded in front of its minus sign: -255 gives
    "#000-ff", which is not a CSS colour.
  */
  lemma NegativeColorPadsBeforeSign()
    ensures GetColorFromDecimal(Number(-255)) == "#000-ff"
  {
    DivStep(255, 16);
    assert Numeral(255, 16) == "ff";
    assert ToStringRadix(-255, 16) == "-ff";
    assert seq(3, _ => '0') + "-ff" == "000-ff";
  }
}
