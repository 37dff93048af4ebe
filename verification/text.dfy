/**
  Character-level helpers shared by the codecs: positional numerals in a radix
  between 2 and 36 (lower-case letters above 9, as JavaScript's
  `Number.prototype.toString(radix)` writes them), and splitting / joining a
  string on a one-character separator (JavaScript `split('-')`, Python
  `str.split(",")`).
*/
module Text {

  /** The digit value of a character in any radix up to 36; 36 means "not a digit". */
  function DigitOf(c: char): nat
    ensures DigitOf(c) <= 36
  {
    if '0' <= c <= '9' then (c as int) - ('0' as int)
    else if 'a' <= c <= 'z' then (c as int) - ('a' as int) + 10
    else if 'A' <= c <= 'Z' then (c as int) - ('A' as int) + 10
    else 36
  }

  predicate IsDigitIn(c: char, radix: nat) {
    DigitOf(c) < radix
  }

  predicate AllDigitsIn(s: string, radix: nat) {
    forall i :: 0 <= i < |s| ==> IsDigitIn(s[i], radix)
  }

  /** The lower-case character for digit `d`. */
  function DigitChar(d: nat): (c: char)
    requires d < 36
    ensures DigitOf(c) == d
    ensures d < 10 ==> '0' <= c <= '9'
    ensures 10 <= d ==> 'a' <= c <= 'z'
  {
    if d < 10 then ('0' as int + d) as char else ('a' as int + d - 10) as char
  }

  /** The shortest numeral for `n` in base `radix`: no leading zero, "0" for zero. */
  function Numeral(n: nat, radix: nat): string
    requires 2 <= radix <= 36
    decreases n
  {
    if n < radix then [DigitChar(n)]
    else
      DivStep(n, radix);
      Numeral(n / radix, radix) + [DigitChar(n % radix)]
  }

  /** A numeral is a non-empty string of digits of its radix that does not start with a redundant zero. */
  lemma {:induction false} NumeralShape(n: nat, radix: nat)
    requires 2 <= radix <= 36
    ensures var s := Numeral(n, radix);
      |s| >= 1 && AllDigitsIn(s, radix) && (|s| > 1 ==> s[0] != '0')
    decreases n
  {
    if n >= radix {
      DivStep(n, radix);
      NumeralShape(n / radix, radix);
      var high := Numeral(n / radix, radix);
      var s := high + [DigitChar(n % radix)];
      assert forall i :: 0 <= i < |high| ==> s[i] == high[i];
    }
  }

  /**
    `Number.prototype.toString(radix)` on an integer: a minus sign for a
    negative number, then the numeral of its magnitude.
  */
  function ToStringRadix(n: int, radix: nat): (s: string)
    requires 2 <= radix <= 36
    ensures |s| >= 1 && (s[0] == '-' <==> n < 0)
  {
    var digits := Numeral(if n < 0 then -n else n, radix);
    NumeralShape(if n < 0 then -n else n, radix);
    assert DigitOf('-') == 36 && IsDigitIn(digits[0], radix);
    if n < 0 then "-" + digits else digits
  }

  /** What follows the sign is a non-empty run of digits that reads back as the magnitude. */
  lemma ToStringRadixDigits(n: int, radix: nat)
    requires 2 <= radix <= 36
    ensures var s := ToStringRadix(n, radix);
      var digits := if n < 0 then s[1..] else s;
      |digits| >= 1 && AllDigitsIn(digits, radix)
      && NumeralValue(digits, radix) == if n < 0 then -n else n
  {
    var m := if n < 0 then -n else n;
    NumeralShape(m, radix);
    NumeralRoundTrip(m, radix);
    var digits := Numeral(m, radix);
    if n < 0 {
      assert ("-" + digits)[1..] == digits;
    }
  }

  /** Euclidean division facts for one digit step. */
  lemma DivStep(n: nat, b: nat)
    requires 2 <= b <= n
    ensures 1 <= n / b < n
    ensures n % b < b
    ensures n == (n / b) * b + n % b
  {
    var q, r := n / b, n % b;
    assert n == b * q + r;
    assert b * q >= 2 * q;
  }

  /** The number a string of digits denotes in base `radix` (most significant first). */
  function NumeralValue(s: string, radix: nat): nat
    requires 2 <= radix <= 36 && AllDigitsIn(s, radix)
  {
    if s == [] then 0
    else NumeralValue(s[..|s| - 1], radix) * radix + DigitOf(s[|s| - 1])
  }

  lemma {:induction false} NumeralRoundTrip(n: nat, radix: nat)
    requires 2 <= radix <= 36
    ensures AllDigitsIn(Numeral(n, radix), radix)
    ensures NumeralValue(Numeral(n, radix), radix) == n
    decreases n
  {
    NumeralShape(n, radix);
    if n >= radix {
      var s := Numeral(n, radix);
      DivStep(n, radix);
      NumeralShape(n / radix, radix);
      assert s[..|s| - 1] == Numeral(n / radix, radix);
      assert DigitOf(s[|s| - 1]) == n % radix;
      NumeralRoundTrip(n / radix, radix);
    }
  }

  /** A leading zero does not change the value of a numeral. */
  lemma {:induction false} LeadingZeroIgnored(s: string, radix: nat)
    requires 2 <= radix <= 36 && AllDigitsIn(s, radix)
    ensures AllDigitsIn("0" + s, radix)
    ensures NumeralValue("0" + s, radix) == NumeralValue(s, radix)
    decreases |s|
  {
    assert AllDigitsIn("0" + s, radix) by {
      forall i | 0 <= i < |"0" + s| ensures IsDigitIn(("0" + s)[i], radix) {
        if i > 0 { assert ("0" + s)[i] == s[i - 1]; }
      }
    }
    if s != [] {
      var t := "0" + s;
      assert t[..|t| - 1] == "0" + s[..|s| - 1];
      assert t[|t| - 1] == s[|s| - 1];
      LeadingZeroIgnored(s[..|s| - 1], radix);
    }
  }

  function Pow(b: nat, k: nat): nat {
    if k == 0 then 1 else b * Pow(b, k - 1)
  }

  /** A numeral has at most `k` digits exactly when its value is below `radix^k`. */
  lemma {:induction false} NumeralLength(n: nat, radix: nat, k: nat)
    requires 2 <= radix <= 36 && k >= 1
    ensures |Numeral(n, radix)| <= k <==> n < Pow(radix, k)
    decreases n
  {
    if n < radix {
      PowAtLeastBase(radix, k);
    } else if k == 1 {
      assert Pow(radix, 1) == radix;
    } else {
      NumeralLength(n / radix, radix, k - 1);
      DivBelow(n, radix, Pow(radix, k - 1));
    }
  }

  lemma PowAtLeastBase(b: nat, k: nat)
    requires b >= 1 && k >= 1
    ensures Pow(b, k) >= b
  {
    if k > 1 {
      PowAtLeastBase(b, k - 1);
    }
  }

  lemma DivBelow(n: nat, b: nat, p: nat)
    requires b >= 1
    ensures n / b < p <==> n < b * p
  {
    var q, r := n / b, n % b;
    assert n == b * q + r && 0 <= r < b;
    if q < p {
      assert q + 1 <= p;
      assert b * (q + 1) <= b * p;
    } else {
      assert b * q >= b * p;
    }
  }

  /**
    Splits `s` at every occurrence of `sep`, as JavaScript's `String.prototype.split`
    and Python's `str.split` do with a one-character separator: `k` separators
    give `k + 1` parts, possibly empty, none containing the separator.
  */
  function Split(s: string, sep: char): (parts: seq<string>)
    ensures |parts| >= 1
    ensures forall i :: 0 <= i < |parts| ==> sep !in parts[i]
  {
    if s == [] then [""]
    else
      var rest := Split(s[1..], sep);
      if s[0] == sep then [""] + rest
      else [[s[0]] + rest[0]] + rest[1..]
  }

  /** Concatenates `parts`, putting `sep` between neighbours. */
  function Join(parts: seq<string>, sep: char): string
    requires |parts| >= 1
  {
    if |parts| == 1 then parts[0] else parts[0] + [sep] + Join(parts[1..], sep)
  }

  lemma {:induction false} SplitWithoutSeparator(s: string, sep: char)
    requires sep !in s
    ensures Split(s, sep) == [s]
    decreases |s|
  {
    if s != [] {
      SplitWithoutSeparator(s[1..], sep);
      assert [s[0]] + s[1..] == s;
    }
  }

  /** Splitting distributes over a separator placed between two strings. */
  lemma {:induction false} SplitAtSeparator(a: string, b: string, sep: char)
    ensures Split(a + [sep] + b, sep) == Split(a, sep) + Split(b, sep)
    decreases |a|
  {
    var s := a + [sep] + b;
    if a == [] {
      assert s[1..] == b;
    } else {
      assert s[1..] == a[1..] + [sep] + b;
      SplitAtSeparator(a[1..], b, sep);
      SplitFirst(s, sep);
      SplitFirst(a, sep);
      var ra := Split(a[1..], sep);
      var rb := Split(b, sep);
      if a[0] != sep {
        assert (ra + rb)[0] == ra[0];
        assert (ra + rb)[1..] == ra[1..] + rb;
      }
    }
  }

  /** How `Split` treats the first character of a non-empty string. */
  lemma SplitFirst(s: string, sep: char)
    requires s != []
    ensures s[0] == sep ==> Split(s, sep) == [""] + Split(s[1..], sep)
    ensures s[0] != sep ==> Split(s, sep) == [[s[0]] + Split(s[1..], sep)[0]] + Split(s[1..], sep)[1..]
  {
  }

  /** Joining the parts of a split gives back the original string. */
  lemma {:induction false} JoinSplit(s: string, sep: char)
    ensures Join(Split(s, sep), sep) == s
    decreases |s|
  {
    if s != [] {
      var rest := Split(s[1..], sep);
      JoinSplit(s[1..], sep);
      if s[0] == sep {
        assert Split(s, sep)[1..] == rest;
        assert s == [sep] + s[1..];
      } else if |rest| == 1 {
        assert s == [s[0]] + s[1..];
      } else {
        var parts := Split(s, sep);
        assert parts[1..] == rest[1..];
        assert Join(rest, sep) == rest[0] + [sep] + Join(rest[1..], sep);
        assert s == [s[0]] + s[1..];
      }
    }
  }

  /** Splitting a join of separator-free parts gives back the parts. */
  lemma {:induction false} SplitJoin(parts: seq<string>, sep: char)
    requires |parts| >= 1
    requires forall i :: 0 <= i < |parts| ==> sep !in parts[i]
    ensures Split(Join(parts, sep), sep) == parts
    decreases |parts|
  {
    if |parts| == 1 {
      SplitWithoutSeparator(parts[0], sep);
    } else {
      SplitJoin(parts[1..], sep);
      SplitAtSeparator(parts[0], Join(parts[1..], sep), sep);
      SplitWithoutSeparator(parts[0], sep);
      assert [parts[0]] + parts[1..] == parts;
    }
  }

  /** A character that is neither the separator nor in any part is not in the join. */
  lemma {:induction false} JoinAvoids(parts: seq<string>, sep: char, c: char)
    requires |parts| >= 1 && c != sep
    requires forall i :: 0 <= i < |parts| ==> c !in parts[i]
    ensures c !in Join(parts, sep)
    decreases |parts|
  {
    if |parts| > 1 {
      JoinAvoids(parts[1..], sep, c);
      assert c !in parts[0];
    }
  }
}
