/**
 * Digit strings as JavaScript writes and reads them: `n.toString(radix)`,
 * `String(n)`, `s.padStart(width, "0")` and the digit part of `parseInt`.
 */
module Numerals {
  import opened Js

  predicate IsRadix(radix: nat)
  {
    2 <= radix <= 16
  }

  /** The lower-case digit character `toString` writes for a digit value. */
  function DigitChar(d: nat): char
    requires d < 16
  {
    if d < 10 then ('0' as int + d) as char else ('a' as int + d - 10) as char
  }

  /** The value of a digit character in either case, or None for a non-digit. */
  function DigitValue(c: char): Option<nat>
  {
    if '0' <= c <= '9' then Some(c as int - '0' as int)
    else if 'a' <= c <= 'f' then Some(c as int - 'a' as int + 10)
    else if 'A' <= c <= 'F' then Some(c as int - 'A' as int + 10)
    else None
  }

  predicate IsDigitOf(c: char, radix: nat)
  {
    DigitValue(c).Some? && DigitValue(c).value < radix
  }

  predicate AllDigits(s: string, radix: nat)
  {
    forall i :: 0 <= i < |s| ==> IsDigitOf(s[i], radix)
  }

  /** A digit character written the way `toString` writes it (lower case). */
  function LowerDigit(c: char): char
  {
    if 'A' <= c <= 'F' then (c as int - 'A' as int + 'a' as int) as char else c
  }

  function LowerAll(s: string): (r: string)
    ensures |r| == |s|
    ensures forall i :: 0 <= i < |s| ==> r[i] == LowerDigit(s[i])
  {
    if s == [] then [] else LowerAll(s[..|s| - 1]) + [LowerDigit(s[|s| - 1])]
  }

  lemma DigitCharValue(d: nat)
    requires d < 16
    ensures DigitValue(DigitChar(d)) == Some(d)
    ensures LowerDigit(DigitChar(d)) == DigitChar(d)
    ensures '0' <= DigitChar(d) <= '9' || 'a' <= DigitChar(d) <= 'f'
  {
  }

  // ---------------------------------------------------------------------------
  // Division facts, stated once so that the digit lemmas stay linear

  lemma MulAtLeast(a: int, b: int)
    requires a >= 1 && b >= 1
    ensures a * b >= b
  {
  }

  lemma DivModUnique(n: int, d: nat, q: int, r: int)
    requires d >= 1 && 0 <= r < d && n == q * d + r
    ensures n / d == q && n % d == r
  {
    var q2, r2 := n / d, n % d;
    assert n == q2 * d + r2;
    assert (q - q2) * d == r2 - r;
    if q > q2 {
      MulAtLeast(q - q2, d);
    } else if q < q2 {
      MulAtLeast(q2 - q, d);
    }
  }

  lemma PosFactor(q: int, d: int)
    requires d >= 1 && q * d >= 1
    ensures q >= 1
  {
  }

  lemma MulLtCancel(a: int, b: int, d: int)
    requires d >= 1 && a * d < b * d
    ensures a < b
  {
  }

  lemma MulLe(a: int, b: int, d: int)
    requires d >= 0 && a <= b
    ensures a * d <= b * d
  {
  }

  lemma DivFacts(n: nat, d: nat)
    requires d >= 2
    ensures n == (n / d) * d + n % d && 0 <= n % d < d && n / d >= 0
    ensures n < d ==> n / d == 0 && n % d == n
    ensures n >= d ==> 1 <= n / d < n
  {
    if n < d {
      DivModUnique(n, d, 0, n);
    } else {
      PosFactor(n / d, d);
      MulLe(2, d, n / d);
    }
  }

  /** `n < d * p` bounds the quotient by `p`. */
  lemma DivBelow(n: nat, d: nat, p: nat)
    requires d >= 2 && n < d * p
    ensures n / d < p
  {
    DivFacts(n, d);
    MulLtCancel(n / d, p, d);
  }

  function Pow(b: nat, e: nat): (r: nat)
    ensures b >= 2 ==> r >= 1
  {
    if e == 0 then 1 else b * Pow(b, e - 1)
  }

  // ---------------------------------------------------------------------------
  // Writing and reading digits

  /** `n.toString(radix)` for a non-negative integer: no leading zeros, lower-case digits. */
  function ToRadix(n: nat, radix: nat): (r: string)
    requires IsRadix(radix)
    ensures 1 <= |r|
    ensures AllDigits(r, radix)
    ensures |r| > 1 ==> r[0] != '0'
    decreases n
  {
    DivFacts(n, radix);
    if n < radix then
      DigitCharValue(n);
      [DigitChar(n)]
    else
      var hi := ToRadix(n / radix, radix);
      var last := DigitChar(n % radix);
      DigitCharValue(n % radix);
      assert IsDigitOf(last, radix);
      assert |hi| == 1 ==> hi[0] == DigitChar(n / radix) && hi[0] != '0';
      hi + [last]
  }

  /** `String(n)` for an integer. */
  function DecimalString(n: int): (r: string)
    ensures n >= 0 ==> r == ToRadix(n, 10)
    ensures n < 0 ==> r == "-" + ToRadix(-n, 10)
  {
    if n < 0 then "-" + ToRadix(-n, 10) else ToRadix(n, 10)
  }

  function Repeat(c: char, k: nat): (r: string)
    ensures |r| == k && forall i :: 0 <= i < k ==> r[i] == c
  {
    if k == 0 then [] else Repeat(c, k - 1) + [c]
  }

  /** `s.padStart(width, fill)` with a one-character fill. */
  function PadStart(s: string, width: nat, fill: char): (r: string)
    ensures |r| == if |s| >= width then |s| else width
    ensures r[|r| - |s|..] == s
    ensures forall i :: 0 <= i < |r| - |s| ==> r[i] == fill
  {
    if |s| >= width then s else Repeat(fill, width - |s|) + s
  }

  /** The value of a digit string read most-significant digit first. */
  function ParseDigits(d: string, radix: nat): (v: nat)
    requires AllDigits(d, radix)
  {
    if d == [] then 0
    else ParseDigits(d[..|d| - 1], radix) * radix + DigitValue(d[|d| - 1]).value
  }

  /** Exactly `width` digits of `n` (its lowest ones), leading zeros included. */
  function FixedDigits(n: nat, width: nat, radix: nat): (r: string)
    requires IsRadix(radix)
    ensures |r| == width
    ensures AllDigits(r, radix)
  {
    DivFacts(n, radix);
    DigitCharValue(n % radix);
    if width == 0 then [] else FixedDigits(n / radix, width - 1, radix) + [DigitChar(n % radix)]
  }

  /** A digit string of length `k` reads as a number below radix^k. */
  lemma {:induction false} ParseDigitsBound(d: string, radix: nat)
    requires IsRadix(radix) && AllDigits(d, radix)
    ensures ParseDigits(d, radix) < Pow(radix, |d|)
  {
    if d != [] {
      var p := d[..|d| - 1];
      assert AllDigits(p, radix) by {
        forall i | 0 <= i < |p| ensures IsDigitOf(p[i], radix) {
          assert p[i] == d[i];
        }
      }
      ParseDigitsBound(p, radix);
      var x := ParseDigits(p, radix);
      var dv := DigitValue(d[|d| - 1]).value;
      var bound := Pow(radix, |p|);
      assert ParseDigits(d, radix) == x * radix + dv;
      assert Pow(radix, |d|) == radix * bound;
      AppendDigitBound(x, dv, bound, radix);
    }
  }

  lemma AppendDigitBound(x: nat, dv: nat, bound: nat, radix: nat)
    requires x < bound && dv < radix
    ensures x * radix + dv < radix * bound
  {
    MulLe(x + 1, bound, radix);
  }

  /** Reading digits and writing them back at the same width only lower-cases them. */
  lemma {:induction false} FixedDigitsOfParse(d: string, radix: nat)
    requires IsRadix(radix) && AllDigits(d, radix)
    ensures FixedDigits(ParseDigits(d, radix), |d|, radix) == LowerAll(d)
  {
    if d != [] {
      var p := d[..|d| - 1];
      var c := d[|d| - 1];
      var x := ParseDigits(p, radix);
      var dv := DigitValue(c).value;
      DivModUnique(x * radix + dv, radix, x, dv);
      FixedDigitsOfParse(p, radix);
      assert LowerAll(d) == LowerAll(p) + [LowerDigit(c)];
    }
  }

  /** Reading digits with one more digit at the end: the old value times the radix, plus that digit. */
  lemma ParseSnoc(front: string, c: char, radix: nat)
    requires AllDigits(front, radix) && IsDigitOf(c, radix)
    ensures AllDigits(front + [c], radix)
    ensures ParseDigits(front + [c], radix) == ParseDigits(front, radix) * radix + DigitValue(c).value
  {
    var d := front + [c];
    assert d[..|d| - 1] == front;
    assert d[|d| - 1] == c;
  }

  /** Writing `n` at a width it fits in and reading it back gives `n`. */
  lemma {:induction false} ParseFixedDigits(n: nat, width: nat, radix: nat)
    requires IsRadix(radix) && n < Pow(radix, width)
    ensures ParseDigits(FixedDigits(n, width, radix), radix) == n
    decreases width
  {
    if width > 0 {
      var q, m := n / radix, n % radix;
      DivFacts(n, radix);
      DigitCharValue(m);
      var front, c := FixedDigits(q, width - 1, radix), DigitChar(m);
      assert FixedDigits(n, width, radix) == front + [c];
      DivBelow(n, radix, Pow(radix, width - 1));
      ParseFixedDigits(q, width - 1, radix);
      ParseSnoc(front, c, radix);
    } else {
      assert n == 0;
    }
  }

  /** Writing `n` and reading it back gives `n`: `parseInt(n.toString(radix), radix) == n`. */
  lemma {:induction false} ParseToRadix(n: nat, radix: nat)
    requires IsRadix(radix)
    ensures ParseDigits(ToRadix(n, radix), radix) == n
    decreases n
  {
    DivFacts(n, radix);
    DigitCharValue(n % radix);
    if n >= radix {
      var r := ToRadix(n, radix);
      assert r[..|r| - 1] == ToRadix(n / radix, radix);
      ParseToRadix(n / radix, radix);
    }
  }

  lemma {:induction false} FixedDigitsOfZero(width: nat, radix: nat)
    requires IsRadix(radix)
    ensures FixedDigits(0, width, radix) == Repeat('0', width)
  {
    if width > 0 {
      DivFacts(0, radix);
      FixedDigitsOfZero(width - 1, radix);
    }
  }

  /**
   * `n.toString(radix).padStart(width, "0")` writes exactly `width` digits of `n`
   * whenever `n` has at most `width` digits.
   */
  lemma {:induction false} PadStartIsFixedDigits(n: nat, width: nat, radix: nat)
    requires IsRadix(radix) && 1 <= width && n < Pow(radix, width)
    ensures PadStart(ToRadix(n, radix), width, '0') == FixedDigits(n, width, radix)
    decreases width
  {
    DivFacts(n, radix);
    if n < radix {
      FixedDigitsOfZero(width - 1, radix);
    } else {
      assert Pow(radix, 1) == radix;
      assert width >= 2;
      DivBelow(n, radix, Pow(radix, width - 1));
      PadStartIsFixedDigits(n / radix, width - 1, radix);
      var t := ToRadix(n / radix, radix);
      assert ToRadix(n, radix) == t + [DigitChar(n % radix)];
      assert PadStart(t + [DigitChar(n % radix)], width, '0')
          == PadStart(t, width - 1, '0') + [DigitChar(n % radix)];
    }
  }

  /** Writing `hi * radix + d` at width `w + 1` writes `hi` at width `w`, then the digit `d`. */
  lemma FixedDigitsSnoc(hi: nat, d: nat, w: nat, radix: nat)
    requires IsRadix(radix) && d < radix
    ensures FixedDigits(hi * radix + d, w + 1, radix) == FixedDigits(hi, w, radix) + [DigitChar(d)]
  {
    DivModUnique(hi * radix + d, radix, hi, d);
  }

  // ---------------------------------------------------------------------------
  // parseInt

  /** The longest prefix of `s` made of digits of `radix`. */
  function DigitPrefix(s: string, radix: nat): (r: string)
    ensures |r| <= |s| && r == s[..|r|]
    ensures AllDigits(r, radix)
    ensures |r| < |s| ==> !IsDigitOf(s[|r|], radix)
  {
    if s != [] && IsDigitOf(s[0], radix) then [s[0]] + DigitPrefix(s[1..], radix) else []
  }

  /** Whether `parseInt` strips a "0x" or "0X" prefix: only for radix 16. */
  predicate HasHexPrefix(s: string, radix: nat)
  {
    radix == 16 && |s| >= 2 && s[0] == '0' && (s[1] == 'x' || s[1] == 'X')
  }

  /**
   * `parseInt(s, radix)` for a radix from 2 to 16: leading whitespace and one
   * sign are skipped, then (radix 16) a "0x" prefix, then the longest run of
   * digits is read; without any digit the result is `NaN`, modelled as `None`.
   */
  /** `parseInt(String(n), 10)` gives `n` back, negative numbers included. */
  lemma DecimalStringRoundTrip(n: int)
    ensures ParseInt(DecimalString(n), 10) == Some(n)
  {
    if n >= 0 {
      ParseIntToRadix(n, 10);
    } else {
      ParseIntOfNegative(ToRadix(-n, 10), 10);
      ParseToRadix(-n, 10);
    }
  }

  lemma ParseIntOfNegative(d: string, radix: nat)
    requires IsRadix(radix) && d != [] && AllDigits(d, radix)
    ensures ParseInt("-" + d, radix) == Some(-(ParseDigits(d, radix) as int))
  {
    NegativeNumeral(d, radix);
    ParseIntOfMinus("-" + d, d, radix);
  }

  lemma ParseIntOfMinus(s: string, d: string, radix: nat)
    requires IsRadix(radix) && d != [] && TrimStart(s) == s
    requires |s| > 0 && s[0] == '-' && s[1..] == d
    requires !HasHexPrefix(d, radix) && DigitPrefix(d, radix) == d
    ensures ParseInt(s, radix) == Some(-(ParseDigits(d, radix) as int))
  {
  }

  lemma TrimStartOfSolid(s: string)
    requires s != [] && !IsJsWhitespace(s[0])
    ensures TrimStart(s) == s
  {
  }

  lemma NegativeNumeral(d: string, radix: nat)
    requires IsRadix(radix) && d != [] && AllDigits(d, radix)
    ensures TrimStart("-" + d) == "-" + d
    ensures ("-" + d)[0] == '-' && ("-" + d)[1..] == d
    ensures !HasHexPrefix(d, radix) && DigitPrefix(d, radix) == d
  {
    TrimStartOfSolid("-" + d);
    DigitIsSolid(d[0], radix);
    if |d| >= 2 {
      DigitIsSolid(d[1], radix);
    }
    DigitPrefixOfDigits(d, radix);
  }

  function ParseInt(s: string, radix: nat): (r: Option<int>)
    requires IsRadix(radix)
  {
    var t := TrimStart(s);
    var negative := |t| > 0 && t[0] == '-';
    var u := if |t| > 0 && (t[0] == '-' || t[0] == '+') then t[1..] else t;
    var v := if HasHexPrefix(u, radix) then u[2..] else u;
    var d := DigitPrefix(v, radix);
    if d == [] then None
    else
      var value: int := ParseDigits(d, radix);
      Some(if negative then -value else value)
  }

  lemma {:induction false} DigitPrefixOfDigits(d: string, radix: nat)
    requires AllDigits(d, radix)
    ensures DigitPrefix(d, radix) == d
  {
    if d != [] {
      assert AllDigits(d[1..], radix) by {
        forall i | 0 <= i < |d[1..]| ensures IsDigitOf(d[1..][i], radix) {
          assert d[1..][i] == d[i + 1];
        }
      }
      DigitPrefixOfDigits(d[1..], radix);
    }
  }

  /** A digit is neither whitespace nor a sign nor the `x` of a hex prefix. */
  lemma DigitIsSolid(c: char, radix: nat)
    requires IsDigitOf(c, radix)
    ensures !IsJsWhitespace(c) && c != '-' && c != '+' && c != 'x' && c != 'X'
  {
  }

  /** A non-empty string of digits reads as its value. */
  lemma ParseIntOfDigits(d: string, radix: nat)
    requires IsRadix(radix) && d != [] && AllDigits(d, radix)
    ensures ParseInt(d, radix) == Some(ParseDigits(d, radix))
  {
    DigitIsSolid(d[0], radix);
    assert TrimStart(d) == d;
    if |d| >= 2 {
      DigitIsSolid(d[1], radix);
    }
    DigitPrefixOfDigits(d, radix);
  }

  /** `parseInt(n.toString(radix), radix) == n` */
  lemma ParseIntToRadix(n: nat, radix: nat)
    requires IsRadix(radix)
    ensures ParseInt(ToRadix(n, radix), radix) == Some(n)
  {
    ParseIntOfDigits(ToRadix(n, radix), radix);
    ParseToRadix(n, radix);
  }
}
