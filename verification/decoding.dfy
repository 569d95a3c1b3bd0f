/**
 The share decoder: `decodeValue(base, value)`, which is `parseInt(value, parseInt(base))`.

 `parseInt` is modelled on plain digit strings: it reads the longest prefix of
 characters that are digits of the radix (0-9, then a-z or A-Z for 10..35),
 evaluates that prefix in the radix, and gives NaN when the prefix is empty.
 Values are unbounded integers, so the precision loss of JavaScript's
 double-precision numbers does not occur here.
 */
module Decoding {

  /** A JavaScript number as `parseInt` can produce it: NaN or an integer. */
  datatype Num = NaN | Int(value: int)

  const MinRadix := 2
  const MaxRadix := 36

  function Pow(b: nat, e: nat): (p: nat)
    ensures b > 0 ==> p > 0
  {
    if e == 0 then 1 else b * Pow(b, e - 1)
  }

  predicate IsAlphanumeric(c: char) {
    ('0' <= c <= '9') || ('a' <= c <= 'z') || ('A' <= c <= 'Z')
  }

  /** The digit a character stands for in radix 36; letters are case-insensitive. */
  function DigitValue(c: char): (d: nat)
    requires IsAlphanumeric(c)
    ensures d < 36
    ensures '0' <= c <= '9' <==> d < 10
  {
    if '0' <= c <= '9' then (c as int) - ('0' as int)
    else if 'a' <= c <= 'z' then (c as int) - ('a' as int) + 10
    else (c as int) - ('A' as int) + 10
  }

  predicate IsDigitIn(c: char, radix: int) {
    IsAlphanumeric(c) && DigitValue(c) < radix
  }

  predicate AllDigits(s: string, radix: int) {
    forall i :: 0 <= i < |s| ==> IsDigitIn(s[i], radix)
  }

  /** Length of the longest prefix of `s` made of digits of `radix`. */
  function DigitPrefixLength(s: string, radix: int): (n: nat)
    ensures n <= |s|
    ensures forall i :: 0 <= i < n ==> IsDigitIn(s[i], radix)
    ensures n < |s| ==> !IsDigitIn(s[n], radix)
    decreases |s|
  {
    if |s| == 0 || !IsDigitIn(s[0], radix) then 0
    else 1 + DigitPrefixLength(s[1..], radix)
  }

  /** Left-to-right accumulation `v := v * radix + digit`, as parseInt scans its digits. */
  function Horner(s: string, radix: nat): (v: nat)
    requires AllDigits(s, radix)
    ensures v < Pow(radix, |s|)
    decreases |s|
  {
    if |s| == 0 then 0
    else
      var init := s[..|s| - 1];
      assert AllDigits(init, radix) by {
        forall i | 0 <= i < |init| ensures IsDigitIn(init[i], radix) {
          assert init[i] == s[i];
        }
      }
      var h := Horner(init, radix);
      var d := DigitValue(s[|s| - 1]);
      MulAddBound(h, d, Pow(radix, |s| - 1), radix);
      h * radix + d
  }

  lemma MulAddBound(h: nat, d: nat, p: nat, r: nat)
    requires h < p && d < r
    ensures h * r + d < r * p
  {
    assert (h + 1) * r <= p * r by {
      assert p * r == (h + 1) * r + (p - h - 1) * r;
    }
    assert p * r == r * p;
  }

  lemma ShiftIdentity(d0: int, p: int, a: int, r: int, d: int)
    ensures d0 * (r * p) + a * r + d == (d0 * p + a) * r + d
  {
    assert d0 * (r * p) == (d0 * p) * r;
    assert (d0 * p) * r + a * r == (d0 * p + a) * r;
  }

  /** The positional value sum of d_i * radix^(|s|-1-i), the independent reference for Horner. */
  function Positional(s: string, radix: nat): nat
    requires AllDigits(s, radix)
    decreases |s|
  {
    if |s| == 0 then 0
    else DigitValue(s[0]) * Pow(radix, |s| - 1) + Positional(s[1..], radix)
  }

  lemma {:induction false} PositionalSnoc(s: string, c: char, radix: nat)
    requires AllDigits(s, radix) && IsDigitIn(c, radix)
    ensures AllDigits(s + [c], radix)
    ensures Positional(s + [c], radix) == Positional(s, radix) * radix + DigitValue(c)
    decreases |s|
  {
    assert AllDigits(s + [c], radix) by {
      forall i | 0 <= i < |s + [c]| ensures IsDigitIn((s + [c])[i], radix) {
        if i < |s| { assert (s + [c])[i] == s[i]; }
      }
    }
    if |s| == 0 {
      assert s + [c] == [c];
    } else {
      var t := s[1..];
      assert AllDigits(t, radix) by {
        forall i | 0 <= i < |t| ensures IsDigitIn(t[i], radix) { assert t[i] == s[i + 1]; }
      }
      PositionalSnoc(t, c, radix);
      assert (s + [c])[1..] == t + [c];
      assert (s + [c])[0] == s[0];
      var d0 := DigitValue(s[0]);
      var p := Pow(radix, |t|);
      assert Pow(radix, |t| + 1) == radix * p;
      assert Positional(s + [c], radix) == d0 * (radix * p) + Positional(t + [c], radix);
      ShiftIdentity(d0, p, Positional(t, radix), radix, DigitValue(c));
    }
  }

  /** Horner evaluation computes the positional value of the digit string. */
  lemma {:induction false} HornerIsPositional(s: string, radix: nat)
    requires AllDigits(s, radix)
    ensures Horner(s, radix) == Positional(s, radix)
    decreases |s|
  {
    if |s| > 0 {
      var init := s[..|s| - 1];
      assert AllDigits(init, radix) by {
        forall i | 0 <= i < |init| ensures IsDigitIn(init[i], radix) { assert init[i] == s[i]; }
      }
      HornerIsPositional(init, radix);
      PositionalSnoc(init, s[|s| - 1], radix);
      assert init + [s[|s| - 1]] == s;
    }
  }

  /** `parseInt(s, radix)` for a radix in 2..36. */
  function ParseInt(s: string, radix: int): (r: Num)
    requires MinRadix <= radix <= MaxRadix
    ensures r.NaN? <==> (|s| == 0 || !IsDigitIn(s[0], radix))
    ensures r.Int? ==> 0 <= r.value < Pow(radix, DigitPrefixLength(s, radix))
  {
    var n := DigitPrefixLength(s, radix);
    if n == 0 then NaN
    else
      assert AllDigits(s[..n], radix) by {
        forall i | 0 <= i < n ensures IsDigitIn(s[..n][i], radix) { assert s[..n][i] == s[i]; }
      }
      Int(Horner(s[..n], radix))
  }

  /** A string made only of digits of the radix parses to its positional value. */
  lemma ParseIntOfDigitString(s: string, radix: int)
    requires MinRadix <= radix <= MaxRadix
    requires |s| > 0 && AllDigits(s, radix)
    ensures ParseInt(s, radix) == Int(Positional(s, radix))
  {
    assert DigitPrefixLength(s, radix) == |s|;
    assert s[..|s|] == s;
    HornerIsPositional(s, radix);
  }

  lemma {:induction false} DigitPrefixOfConcat(s: string, t: string, radix: int)
    requires AllDigits(s, radix)
    requires |t| == 0 || !IsDigitIn(t[0], radix)
    ensures DigitPrefixLength(s + t, radix) == |s|
    decreases |s|
  {
    if |s| == 0 {
      assert s + t == t;
    } else {
      assert (s + t)[0] == s[0];
      assert (s + t)[1..] == s[1..] + t;
      assert AllDigits(s[1..], radix) by {
        forall i | 0 <= i < |s[1..]| ensures IsDigitIn(s[1..][i], radix) { assert s[1..][i] == s[i + 1]; }
      }
      DigitPrefixOfConcat(s[1..], t, radix);
    }
  }

  /**
   Only the longest digit prefix matters: whatever follows it, starting with a
   character that is not a digit of the radix, does not change the result.
   */
  lemma ParseIntReadsDigitPrefix(s: string, t: string, radix: int)
    requires MinRadix <= radix <= MaxRadix
    requires AllDigits(s, radix)
    requires |t| == 0 || !IsDigitIn(t[0], radix)
    ensures ParseInt(s + t, radix) == ParseInt(s, radix)
  {
    DigitPrefixOfConcat(s, t, radix);
    DigitPrefixOfConcat(s, [], radix);
    assert s + [] == s;
    assert (s + t)[..|s|] == s;
  }

  function DecimalDigit(d: nat): (c: char)
    requires d < 10
    ensures IsDigitIn(c, 10) && DigitValue(c) == d
  {
    (('0' as int) + d) as char
  }

  /** The canonical base-10 representation of a natural number, without leading zeros. */
  function ToDecimal(v: nat): (s: string)
    ensures |s| > 0 && AllDigits(s, 10)
    ensures |s| > 1 ==> s[0] != '0'
    decreases v
  {
    if v < 10 then [DecimalDigit(v)]
    else
      var hi := ToDecimal(v / 10);
      assert AllDigits(hi + [DecimalDigit(v % 10)], 10) by {
        forall i | 0 <= i < |hi| + 1 ensures IsDigitIn((hi + [DecimalDigit(v % 10)])[i], 10) {
          if i < |hi| { assert (hi + [DecimalDigit(v % 10)])[i] == hi[i]; }
        }
      }
      hi + [DecimalDigit(v % 10)]
  }

  lemma {:induction false} HornerOfDecimal(v: nat)
    ensures Horner(ToDecimal(v), 10) == v
    decreases v
  {
    if v >= 10 {
      var s := ToDecimal(v);
      var hi := ToDecimal(v / 10);
      assert s[..|s| - 1] == hi;
      HornerOfDecimal(v / 10);
    }
  }

  /** Parsing the base-10 representation of a natural number with radix 10 yields that number. */
  lemma DecimalRoundTrip(v: nat)
    ensures ParseInt(ToDecimal(v), 10) == Int(v)
  {
    var s := ToDecimal(v);
    DigitPrefixOfConcat(s, [], 10);
    assert s + [] == s;
    assert s[..|s|] == s;
    HornerOfDecimal(v);
  }

  /** ECMAScript ToInt32: reduction modulo 2^32 into the signed 32-bit range. */
  function ToInt32(v: int): (r: int)
    ensures -0x8000_0000 <= r < 0x8000_0000
    ensures (v - r) % 0x1_0000_0000 == 0
  {
    var m := v % 0x1_0000_0000;
    if m >= 0x8000_0000 then m - 0x1_0000_0000 else m
  }

  /** The radix `parseInt(value, parseInt(base))` receives: `parseInt(base)` through ToInt32, NaN as 0. */
  function RadixArgument(base: string): (r: int)
    ensures -0x8000_0000 <= r < 0x8000_0000
    ensures ParseInt(base, 10).NaN? ==> r == 0
    ensures ParseInt(base, 10).Int? ==> (ParseInt(base, 10).value - r) % 0x1_0000_0000 == 0
  {
    match ParseInt(base, 10)
    case NaN => 0
    case Int(b) => ToInt32(b)
  }

  /**
   `decodeValue(base, value)`: a radix argument of 0 means 10, any other
   radix outside 2..36 makes the result NaN.
   */
  function DecodeValue(base: string, value: string): (y: Num)
    ensures y.Int? ==> 0 <= y.value
    ensures y.Int? ==> |value| > 0 && IsAlphanumeric(value[0])
    ensures RadixArgument(base) != 0 && (RadixArgument(base) < MinRadix || RadixArgument(base) > MaxRadix) ==> y.NaN?
  {
    var radix := RadixArgument(base);
    if radix == 0 then ParseInt(value, 10)
    else if radix < MinRadix || radix > MaxRadix then NaN
    else ParseInt(value, radix)
  }

  /** A base written in decimal reaches parseInt as that radix. */
  lemma RadixOfDecimal(b: nat)
    requires b <= MaxRadix
    ensures RadixArgument(ToDecimal(b)) == b
  {
    DecimalRoundTrip(b);
    assert ToInt32(b) == b;
  }

  /**
   With the base written in decimal and a value made only of digits of that
   base, decoding gives the positional value of the digits.
   */
  lemma DecodeValueInBase(b: nat, value: string)
    requires MinRadix <= b <= MaxRadix
    requires |value| > 0 && AllDigits(value, b)
    ensures DecodeValue(ToDecimal(b), value) == Int(Positional(value, b))
  {
    RadixOfDecimal(b);
    assert DecodeValue(ToDecimal(b), value) == ParseInt(value, b);
    ParseIntOfDigitString(value, b);
  }

  /** Decoding a natural number's decimal form with base "10" gives the number back. */
  lemma DecodeDecimalRoundTrip(v: nat)
    ensures DecodeValue("10", ToDecimal(v)) == Int(v)
  {
    DecimalRoundTrip(10);
    assert ToDecimal(10) == "10";
    DecimalRoundTrip(v);
  }

  /** Base 2, "111": every character is a binary digit. */
  lemma DecodeBinaryAllDigits()
    ensures DecodeValue("2", "111") == Int(7)
  {
    DecimalRoundTrip(2);
    assert ToDecimal(2) == "2";
    assert RadixArgument("2") == 2;
    ParseIntOfDigitString("111", 2);
  }

  /** Base 2, "102": reading stops at the first non-binary digit. */
  lemma DecodeBinaryPrefix()
    ensures DecodeValue("2", "102") == Int(2)
  {
    DecimalRoundTrip(2);
    assert ToDecimal(2) == "2";
    assert RadixArgument("2") == 2;
    ParseIntReadsDigitPrefix("10", "2", 2);
    assert "10" + "2" == "102";
    ParseIntOfDigitString("10", 2);
  }

  /** Base 2, "2": no binary digit at all. */
  lemma DecodeBinaryNoDigits()
    ensures DecodeValue("2", "2") == NaN
  {
    DecimalRoundTrip(2);
    assert ToDecimal(2) == "2";
    assert RadixArgument("2") == 2;
  }

  /**
   A share without a `base` field passes `undefined`, which `parseInt` reads
   as the string "undefined": it has no decimal digit, so the radix
   argument is 0 and the value is read in decimal.
   */
  lemma MissingBaseIsDecimal(value: string)
    ensures RadixArgument("undefined") == 0
    ensures DecodeValue("undefined", value) == ParseInt(value, 10)
  {
    assert !IsDigitIn("undefined"[0], 10);
  }

  /**
   A share without a `value` field decodes the string "undefined": its first
   letter 'u' is the digit 30, so the result is NaN up to base 30 and a
   number from base 31 on.
   */
  lemma MissingValueDecodes(b: nat)
    requires MinRadix <= b <= MaxRadix
    ensures DecodeValue(ToDecimal(b), "undefined").NaN? <==> b <= 30
  {
    RadixOfDecimal(b);
    assert DigitValue("undefined"[0]) == 30;
  }
}
