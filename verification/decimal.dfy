/**
 * Decimal digit strings: the `toString` of an integer JavaScript number,
 * the zero-padded fields of an ISO date, the inverse parsers, and the
 * lexicographic order in which JavaScript compares strings.
 */
module Decimal {
  import opened Wrappers

  /** The integers a JavaScript number (an IEEE double) holds exactly. */
  type SafeInteger = n: int | -0x1F_FFFF_FFFF_FFFF <= n <= 0x1F_FFFF_FFFF_FFFF

  predicate IsDigit(c: char) { '0' <= c <= '9' }

  predicate AllDigits(s: string) { forall i :: 0 <= i < |s| ==> IsDigit(s[i]) }

  function DigitChar(n: int): (c: char)
    requires 0 <= n < 10
    ensures IsDigit(c)
  {
    ('0' as int + n) as char
  }

  function DigitValue(c: char): (n: int)
    requires IsDigit(c)
    ensures 0 <= n < 10
    ensures DigitChar(n) == c
  {
    c as int - '0' as int
  }

  function Pow10(width: nat): (p: nat)
    ensures p >= 1
  {
    if width == 0 then 1 else 10 * Pow10(width - 1)
  }

  /** The value of a string of decimal digits, most significant first. */
  function DigitsValue(s: string): (n: nat)
    requires AllDigits(s)
    ensures n < Pow10(|s|)
  {
    if |s| == 0 then 0
    else DigitsValue(s[..|s| - 1]) * 10 + DigitValue(s[|s| - 1])
  }

  /** A numeral as `toString` prints it: one or more digits, with no leading zero unless it is the only digit. */
  predicate CanonicalDigits(s: string)
  {
    |s| > 0 && AllDigits(s) && (|s| == 1 || s[0] != '0')
  }

  /** An optional minus sign before a canonical numeral, with no negative zero. */
  predicate CanonicalInteger(s: string)
  {
    CanonicalDigits(s) || (|s| > 1 && s[0] == '-' && CanonicalDigits(s[1..]) && s[1..] != "0")
  }

  /** The decimal numeral of a natural number, without leading zeros. */
  function NatToDecimal(n: nat): (s: string)
    ensures CanonicalDigits(s)
    ensures s[0] == '0' <==> n == 0
  {
    if n < 10 then [DigitChar(n)]
    else NatToDecimal(n / 10) + [DigitChar(n % 10)]
  }

  /** `Number.prototype.toString()` of an integer: an optional minus sign, then its digits. */
  function IntToDecimal(n: SafeInteger): (s: string)
    ensures CanonicalInteger(s)
    ensures s[0] == '-' <==> n < 0
  {
    if n < 0 then "-" + NatToDecimal(-n) else NatToDecimal(n)
  }

  /** Reads back an optional minus sign followed by one or more digits. */
  function ParseInteger(s: string): Option<int>
  {
    if |s| > 0 && s[0] == '-' then
      if |s| > 1 && AllDigits(s[1..]) then var n: int := DigitsValue(s[1..]); Some(-n) else None
    else if |s| > 0 && AllDigits(s) then Some(DigitsValue(s))
    else None
  }

  /** The last `width` decimal digits of n, padded on the left with zeros. */
  function Padded(n: nat, width: nat): (s: string)
    ensures |s| == width && AllDigits(s)
  {
    if width == 0 then "" else Padded(n / 10, width - 1) + [DigitChar(n % 10)]
  }

  lemma {:induction false} NatToDecimalRoundTrip(n: nat)
    ensures DigitsValue(NatToDecimal(n)) == n
    decreases n
  {
    var s := NatToDecimal(n);
    if n >= 10 {
      NatToDecimalRoundTrip(n / 10);
      assert s[..|s| - 1] == NatToDecimal(n / 10);
    }
  }

  /** Reading back the `toString` of an integer gives that integer. */
  lemma IntToDecimalRoundTrip(n: SafeInteger)
    ensures ParseInteger(IntToDecimal(n)) == Some(n)
  {
    var s := IntToDecimal(n);
    if n < 0 {
      NatToDecimalRoundTrip(-n);
      assert s[0] == '-' && s[1..] == NatToDecimal(-n);
    } else {
      NatToDecimalRoundTrip(n);
      assert IsDigit(s[0]);
    }
  }

  /** Distinct integers have distinct `toString`s, so no two titles collapse into one. */
  lemma IntToDecimalInjective(a: SafeInteger, b: SafeInteger)
    ensures IntToDecimal(a) == IntToDecimal(b) <==> a == b
  {
    IntToDecimalRoundTrip(a);
    IntToDecimalRoundTrip(b);
  }

  /** The only canonical numeral with value n is the one `NatToDecimal` prints. */
  lemma {:induction false} CanonicalDigitsUnique(s: string)
    requires CanonicalDigits(s)
    ensures s == NatToDecimal(DigitsValue(s))
    decreases |s|
  {
    if |s| > 1 {
      var init, last := s[..|s| - 1], s[|s| - 1];
      assert init[0] == s[0];
      CanonicalDigitsUnique(init);
      var m := DigitsValue(init);
      assert m > 0;
      var n := DigitsValue(s);
      assert n / 10 == m && n % 10 == DigitValue(last);
      assert s == init + [last];
    }
  }

  /**
   * The converse of the round trip: a canonical integer text that reads as n
   * is exactly the `toString` of n, so no other spelling (a leading zero, a
   * `-0`) can stand for a title number.
   */
  lemma CanonicalIntegerUnique(s: string, n: SafeInteger)
    requires CanonicalInteger(s) && ParseInteger(s) == Some(n)
    ensures s == IntToDecimal(n)
  {
    if s[0] == '-' {
      CanonicalDigitsUnique(s[1..]);
      assert s == "-" + s[1..];
    } else {
      CanonicalDigitsUnique(s);
    }
  }

  lemma {:induction false} PaddedRoundTrip(n: nat, width: nat)
    requires n < Pow10(width)
    ensures DigitsValue(Padded(n, width)) == n
    decreases width
  {
    if width > 0 {
      var s := Padded(n, width);
      PaddedRoundTrip(n / 10, width - 1);
      assert s[..|s| - 1] == Padded(n / 10, width - 1);
    }
  }

  /** A digit string is the zero-padded numeral of its own value, at its own width. */
  lemma {:induction false} DigitsPaddedRoundTrip(s: string)
    requires AllDigits(s)
    ensures Padded(DigitsValue(s), |s|) == s
    decreases |s|
  {
    if |s| > 0 {
      var init, last := s[..|s| - 1], s[|s| - 1];
      DigitsPaddedRoundTrip(init);
      var n := DigitsValue(s);
      assert n / 10 == DigitsValue(init) && n % 10 == DigitValue(last);
      assert s == init + [last];
    }
  }

  /** String order as JavaScript's `<` computes it on strings: code unit by code unit, a proper prefix first. */
  predicate LexLess(a: string, b: string)
  {
    |b| > 0 && (|a| == 0 || a[0] < b[0] || (a[0] == b[0] && LexLess(a[1..], b[1..])))
  }

  /** Comparing two strings whose first parts have equal length compares the first parts, then the rest. */
  lemma {:induction false} LexLessConcat(p: string, s: string, p': string, s': string)
    requires |p| == |p'|
    ensures LexLess(p + s, p' + s') <==> LexLess(p, p') || (p == p' && LexLess(s, s'))
    decreases |p|
  {
    if |p| == 0 {
      assert p + s == s && p' + s' == s';
    } else {
      assert (p + s)[0] == p[0] && (p' + s')[0] == p'[0];
      assert (p + s)[1..] == p[1..] + s;
      assert (p' + s')[1..] == p'[1..] + s';
      LexLessConcat(p[1..], s, p'[1..], s');
      if p[0] == p'[0] && p[1..] == p'[1..] {
        assert p == p';
      }
    }
  }

  /** On zero-padded numerals of one width, string order is numeric order. */
  lemma {:induction false} PaddedOrder(a: nat, b: nat, width: nat)
    requires a < Pow10(width) && b < Pow10(width)
    ensures LexLess(Padded(a, width), Padded(b, width)) <==> a < b
    decreases width
  {
    if width > 0 {
      var pa, pb := Padded(a / 10, width - 1), Padded(b / 10, width - 1);
      var da, db := [DigitChar(a % 10)], [DigitChar(b % 10)];
      assert a / 10 < Pow10(width - 1) && b / 10 < Pow10(width - 1);
      assert pa == pb <==> a / 10 == b / 10 by {
        PaddedRoundTrip(a / 10, width - 1);
        PaddedRoundTrip(b / 10, width - 1);
      }
      assert LexLess(pa, pb) <==> a / 10 < b / 10 by {
        PaddedOrder(a / 10, b / 10, width - 1);
      }
      assert LexLess(da, db) <==> a % 10 < b % 10 by {
        DigitOrder(a % 10, b % 10);
      }
      assert LexLess(pa + da, pb + db) <==> LexLess(pa, pb) || (pa == pb && LexLess(da, db)) by {
        LexLessConcat(pa, da, pb, db);
      }
      LastDigitOrder(a, b);
    }
  }

  lemma DigitOrder(x: int, y: int)
    requires 0 <= x < 10 && 0 <= y < 10
    ensures LexLess([DigitChar(x)], [DigitChar(y)]) <==> x < y
  {
    assert [DigitChar(x)][1..] == [];
  }

  lemma LastDigitOrder(a: nat, b: nat)
    ensures a < b <==> a / 10 < b / 10 || (a / 10 == b / 10 && a % 10 < b % 10)
  {}

  /** Comparing a padded numeral followed by more text compares the numbers first, then the rest. */
  lemma PaddedThen(a: nat, b: nat, width: nat, s: string, s': string)
    requires a < Pow10(width) && b < Pow10(width)
    ensures LexLess(Padded(a, width) + s, Padded(b, width) + s') <==> a < b || (a == b && LexLess(s, s'))
  {
    LexLessConcat(Padded(a, width), s, Padded(b, width), s');
    PaddedOrder(a, b, width);
    PaddedRoundTrip(a, width);
    PaddedRoundTrip(b, width);
  }

  /** A common first character does not change the order. */
  lemma SameHead(c: char, s: string, s': string)
    ensures LexLess([c] + s, [c] + s') <==> LexLess(s, s')
  {
    assert ([c] + s)[1..] == s && ([c] + s')[1..] == s';
  }
}
