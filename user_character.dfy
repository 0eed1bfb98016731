/**
 * `adjustColor` of src/components/UserCharacter.tsx (and its verbatim copy
 * `adjustColorForList` in src/videos/SummaryVideo.tsx): lighten or darken a
 * `#RRGGBB` colour by adding `amount` to each channel, clamping to 0..255, and
 * printing the result as six lower-case, zero-padded hex digits.
 *
 * The number is read with `parseInt(…, 16)`; the shift and mask operators then
 * see it through ToInt32, which also turns `NaN` into 0.
 */
module UserCharacter {
  import opened Js
  import opened Numerals

  /** `parseInt(hex.replace("#", ""), 16)` as the bit operators see it. */
  function ColorNumber(hex: string): (n: int)
    ensures IsInt32(n)
  {
    match ParseInt(ReplaceFirst(hex, "#", ""), 16)
    case None => 0
    case Some(v) => ToInt32(v)
  }

  /** `num >> 16`: an arithmetic shift, so a negative number gives a negative red. */
  function Red(n: int): int
  {
    n / 0x1_0000
  }

  /** `(num >> 8) & 0x00ff` */
  function Green(n: int): int
  {
    (n / 0x100) % 0x100
  }

  /** `num & 0x0000ff` */
  function Blue(n: int): int
  {
    n % 0x100
  }

  /** `Math.min(255, Math.max(0, x))` */
  function Clamp(x: int): (c: nat)
    ensures c <= 255
    ensures 0 <= x <= 255 ==> c == x
    ensures x <= 0 ==> c == 0
    ensures x >= 255 ==> c == 255
  {
    if x < 0 then 0 else if x > 255 then 255 else x
  }

  /** "#" and two lower-case hex digits per channel. */
  function HexColor(r: nat, g: nat, b: nat): string
  {
    "#" + ((FixedDigits(r, 2, 16) + FixedDigits(g, 2, 16)) + FixedDigits(b, 2, 16))
  }

  lemma HexColorParts(r: nat, g: nat, b: nat)
    ensures |HexColor(r, g, b)| == 7 && HexColor(r, g, b)[0] == '#'
    ensures HexColor(r, g, b)[1..3] == FixedDigits(r, 2, 16)
    ensures HexColor(r, g, b)[3..5] == FixedDigits(g, 2, 16)
    ensures HexColor(r, g, b)[5..7] == FixedDigits(b, 2, 16)
    ensures HexColor(r, g, b)[1..] == FixedDigits(r, 2, 16) + FixedDigits(g, 2, 16) + FixedDigits(b, 2, 16)
  {
  }

  /**
   * The colour `adjustColor` produces from the colour number `n`: each channel
   * moved by `amount` and clamped to 0..255, written as two hex digits.
   */
  function AdjustedColor(n: int, amount: int): string
  {
    HexColor(Clamp(Red(n) + amount), Clamp(Green(n) + amount), Clamp(Blue(n) + amount))
  }

  /**
   * The part of `adjustColor` after `parseInt`: the clamped channels packed with
   * `(r << 16) | (g << 8) | b` and printed with `toString(16).padStart(6, "0")`.
   * With each channel in 0..255 the three bit fields do not overlap, so the `|`
   * is a sum, and the printed number is the three channels' digit pairs.
   */
  function AdjustNumber(n: int, amount: int): (color: string)
    ensures color == AdjustedColor(n, amount)
  {
    var r, g, b := Clamp(Red(n) + amount), Clamp(Green(n) + amount), Clamp(Blue(n) + amount);
    ChannelDigits(r, g, b);
    "#" + PadStart(ToRadix(r * 0x1_0000 + g * 0x100 + b, 16), 6, '0')
  }

  /** `adjustColor(hex, amount)` */
  function AdjustColor(hex: string, amount: int): string
  {
    AdjustNumber(ColorNumber(hex), amount)
  }

  /** Digits of `hi * 256 + lo` are those of `hi`, then the two digits of the byte `lo`. */
  lemma SplitLowByte(hi: nat, lo: nat, w: nat)
    requires lo < 0x100
    ensures FixedDigits(hi * 0x100 + lo, w + 2, 16) == FixedDigits(hi, w, 16) + FixedDigits(lo, 2, 16)
  {
    var a, b := lo / 16, lo % 16;
    var top := hi * 16 + a;
    var x, y, z := FixedDigits(hi, w, 16), [DigitChar(a)], [DigitChar(b)];
    assert hi * 0x100 + lo == top * 16 + b;
    FixedDigitsSnoc(top, b, w + 1, 16);
    FixedDigitsSnoc(hi, a, w, 16);
    assert FixedDigits(hi * 0x100 + lo, w + 2, 16) == (x + y) + z;
    assert lo == a * 16 + b;
    FixedDigitsSnoc(a, b, 1, 16);
    assert a == 0 * 16 + a;
    FixedDigitsSnoc(0, a, 0, 16);
    assert FixedDigits(lo, 2, 16) == y + z;
    assert (x + y) + z == x + (y + z);
  }

  /** The packed colour's six digits are the three channels' two-digit fields. */
  lemma PackedDigits(r: nat, g: nat, b: nat)
    requires r <= 255 && g <= 255 && b <= 255
    ensures "#" + FixedDigits(r * 0x1_0000 + g * 0x100 + b, 6, 16) == HexColor(r, g, b)
  {
    var hi := r * 0x100 + g;
    assert r * 0x1_0000 + g * 0x100 + b == hi * 0x100 + b;
    SplitLowByte(hi, b, 4);
    SplitLowByte(r, g, 2);
  }

  /** Packed channels fit in six hex digits. */
  lemma PackedBelow(r: nat, g: nat, b: nat)
    requires r <= 255 && g <= 255 && b <= 255
    ensures r * 0x1_0000 + g * 0x100 + b < Pow(16, 6)
  {
    assert Pow(16, 6) == 0x100_0000;
  }

  /** The packed colour prints as the three channels' two-digit fields. */
  lemma ChannelDigits(r: nat, g: nat, b: nat)
    requires r <= 255 && g <= 255 && b <= 255
    ensures "#" + PadStart(ToRadix(r * 0x1_0000 + g * 0x100 + b, 16), 6, '0') == HexColor(r, g, b)
  {
    PackedBelow(r, g, b);
    PadStartIsFixedDigits(r * 0x1_0000 + g * 0x100 + b, 6, 16);
    PackedDigits(r, g, b);
  }

  /** A 24-bit number is its three channels put back together. */
  lemma ChannelsOf(n: int)
    requires 0 <= n < 0x100_0000
    ensures 0 <= Red(n) <= 255 && 0 <= Green(n) <= 255 && 0 <= Blue(n) <= 255
    ensures n == Red(n) * 0x1_0000 + Green(n) * 0x100 + Blue(n)
  {
    var q := n / 0x100;
    assert n == q * 0x100 + n % 0x100;
    assert q == (q / 0x100) * 0x100 + q % 0x100;
    DivModUnique(n, 0x1_0000, q / 0x100, (q % 0x100) * 0x100 + n % 0x100);
  }

  // ---------------------------------------------------------------------------
  // Reading the colour

  /** "#" and digits with no '#' among them: `replace("#", "")` leaves the digits. */
  lemma StripHash(digits: string)
    requires AllDigits(digits, 16)
    ensures ReplaceFirst("#" + digits, "#", "") == digits
  {
    var hex := "#" + digits;
    assert OccursAt(hex, "#", 0);
    assert hex[1..] == digits;
  }

  /** The colour number of "#" and hex digits: their value, through ToInt32. */
  lemma ColorNumberOfHex(digits: string)
    requires digits != [] && AllDigits(digits, 16)
    ensures ColorNumber("#" + digits) == ToInt32(ParseDigits(digits, 16))
  {
    StripHash(digits);
    ParseIntOfDigits(digits, 16);
  }

  lemma {:induction false} PowMonotone(b: nat, i: nat, j: nat)
    requires b >= 2 && i <= j
    ensures Pow(b, i) <= Pow(b, j)
    decreases j
  {
    if i < j {
      PowMonotone(b, i, j - 1);
      MulLe(1, b, Pow(b, j - 1));
    }
  }

  /** At most six hex digits make a 24-bit number. */
  lemma SixDigitsFit(digits: string)
    requires |digits| <= 6 && AllDigits(digits, 16)
    ensures ParseDigits(digits, 16) < 0x100_0000
  {
    ParseDigitsBound(digits, 16);
    PowMonotone(16, |digits|, 6);
    assert Pow(16, 6) == 0x100_0000;
  }

  /** The colour number of "#" and one to six hex digits is their value. */
  lemma ColorNumberOfDigits(digits: string)
    requires 1 <= |digits| <= 6 && AllDigits(digits, 16)
    ensures ColorNumber("#" + digits) == ParseDigits(digits, 16) < 0x100_0000
  {
    SixDigitsFit(digits);
    ColorNumberOfHex(digits);
  }

  lemma MulSwap(a: int, q: int)
    ensures a * (16 * q) == (a * q) * 16
  {
  }

  /** A digit string reads as at least its leading digit times 16^(length - 1). */
  lemma {:induction false} LeadingDigitBound(d: string)
    requires |d| >= 1 && AllDigits(d, 16)
    ensures ParseDigits(d, 16) >= DigitValue(d[0]).value * Pow(16, |d| - 1)
  {
    if |d| > 1 {
      var p := d[..|d| - 1];
      assert AllDigits(p, 16) by {
        forall i | 0 <= i < |p| ensures IsDigitOf(p[i], 16) {
          assert p[i] == d[i];
        }
      }
      LeadingDigitBound(p);
      var lead, q, x := DigitValue(d[0]).value, Pow(16, |p| - 1), ParseDigits(p, 16);
      assert p[0] == d[0];
      assert Pow(16, |d| - 1) == 16 * q;
      MulLe(lead * q, x, 16);
      MulSwap(lead, q);
      assert ParseDigits(d, 16) == x * 16 + DigitValue(d[|d| - 1]).value;
    }
  }

  /** Eight hex digits led by 8 or more make a number from 2^31 up to 2^32. */
  lemma HighEightDigits(digits: string)
    requires |digits| == 8 && AllDigits(digits, 16) && DigitValue(digits[0]).value >= 8
    ensures TwoTo31 <= ParseDigits(digits, 16) < TwoTo32
  {
    LeadingDigitBound(digits);
    ParseDigitsBound(digits, 16);
    assert Pow(16, 7) == 0x1000_0000;
    assert Pow(16, 8) == 0x1_0000_0000;
    MulLe(8, DigitValue(digits[0]).value, Pow(16, 7));
  }

  /** ToInt32 reads a number from 2^31 up to 2^32 as negative. */
  lemma HighWordIsNegative(v: int)
    requires TwoTo31 <= v < TwoTo32
    ensures ToInt32(v) == v - TwoTo32 < 0
  {
  }

  /**
   * Eight hex digits led by 8 or more make a number of 2^31 or above, which
   * ToInt32 reads as negative.
   */
  lemma LongColorReadsNegative(digits: string)
    requires |digits| == 8 && AllDigits(digits, 16) && DigitValue(digits[0]).value >= 8
    ensures ColorNumber("#" + digits) < 0
  {
    HighEightDigits(digits);
    HighWordIsNegative(ParseDigits(digits, 16));
    ColorNumberOfHex(digits);
  }

  // ---------------------------------------------------------------------------
  // What adjusting does

  /** With amount 0, a 24-bit colour number is written as its six hex digits. */
  lemma AdjustedByZero(n: int)
    requires 0 <= n < 0x100_0000
    ensures AdjustedColor(n, 0) == "#" + FixedDigits(n, 6, 16)
  {
    ChannelsOf(n);
    PackedDigits(Red(n), Green(n), Blue(n));
  }

  /**
   * With amount 0, a colour written as "#" and six hex digits (either case)
   * comes back unchanged, in lower case.
   */
  lemma AdjustColorIdentity(digits: string)
    requires |digits| == 6 && AllDigits(digits, 16)
    ensures AdjustColor("#" + digits, 0) == "#" + LowerAll(digits)
  {
    ColorNumberOfDigits(digits);
    var n := ParseDigits(digits, 16);
    assert AdjustColor("#" + digits, 0) == AdjustedColor(n, 0);
    AdjustedByZero(n);
    FixedDigitsOfParse(digits, 16);
  }

  /** A hex digit as `toString(16)` writes it. */
  predicate IsLowerHexDigit(c: char)
  {
    '0' <= c <= '9' || 'a' <= c <= 'f'
  }

  lemma {:induction false} FixedDigitsAreLower(n: nat, width: nat)
    ensures forall i :: 0 <= i < width ==> IsLowerHexDigit(FixedDigits(n, width, 16)[i])
  {
    if width > 0 {
      FixedDigitsAreLower(n / 16, width - 1);
      DigitCharValue(n % 16);
      var s, p := FixedDigits(n, width, 16), FixedDigits(n / 16, width - 1, 16);
      assert s == p + [DigitChar(n % 16)];
      forall i | 0 <= i < width ensures IsLowerHexDigit(s[i]) {
        if i < width - 1 {
          assert s[i] == p[i];
        }
      }
    }
  }

  /** Every adjusted colour is "#" and six lower-case hex digits. */
  lemma AdjustedColorFormat(n: int, amount: int)
    ensures |AdjustedColor(n, amount)| == 7 && AdjustedColor(n, amount)[0] == '#'
    ensures forall i :: 1 <= i < 7 ==> IsLowerHexDigit(AdjustedColor(n, amount)[i])
  {
    var r, g, b := Clamp(Red(n) + amount), Clamp(Green(n) + amount), Clamp(Blue(n) + amount);
    var c := HexColor(r, g, b);
    HexColorParts(r, g, b);
    FixedDigitsAreLower(r, 2);
    FixedDigitsAreLower(g, 2);
    FixedDigitsAreLower(b, 2);
    forall i | 1 <= i < 7 ensures IsLowerHexDigit(c[i]) {
      if i < 3 {
        assert c[i] == c[1..3][i - 1];
      } else if i < 5 {
        assert c[i] == c[3..5][i - 3];
      } else {
        assert c[i] == c[5..7][i - 5];
      }
    }
  }

  /**
   * Each pair of output digits reads back as its channel moved by `amount` and
   * clamped to 0..255; a channel's digits depend on that channel alone.
   */
  lemma ChannelFields(n: int, amount: int)
    ensures ParseDigits(AdjustedColor(n, amount)[1..3], 16) == Clamp(Red(n) + amount)
    ensures ParseDigits(AdjustedColor(n, amount)[3..5], 16) == Clamp(Green(n) + amount)
    ensures ParseDigits(AdjustedColor(n, amount)[5..7], 16) == Clamp(Blue(n) + amount)
  {
    var r, g, b := Clamp(Red(n) + amount), Clamp(Green(n) + amount), Clamp(Blue(n) + amount);
    HexColorParts(r, g, b);
    assert Pow(16, 2) == 0x100;
    ParseFixedDigits(r, 2, 16);
    ParseFixedDigits(g, 2, 16);
    ParseFixedDigits(b, 2, 16);
  }

  /** `adjustColor` always returns "#" and six lower-case hex digits. */
  lemma AdjustColorOutput(hex: string, amount: int)
    ensures |AdjustColor(hex, amount)| == 7 && AdjustColor(hex, amount)[0] == '#'
    ensures forall i :: 1 <= i < 7 ==> IsLowerHexDigit(AdjustColor(hex, amount)[i])
  {
    AdjustedColorFormat(ColorNumber(hex), amount);
  }

  lemma HexColorExtremes()
    ensures HexColor(0, 0, 0) == "#000000"
    ensures HexColor(255, 255, 255) == "#ffffff"
  {
    assert FixedDigits(0, 2, 16) == "00";
    assert FixedDigits(255, 2, 16) == "ff";
  }

  /**
   * For a 24-bit colour number (a colour of at most six hex digits), darkening
   * by 255 or more gives black and lightening by 255 or more gives white.
   */
  lemma AdjustColorSaturates(hex: string, amount: int)
    requires 0 <= ColorNumber(hex) < 0x100_0000
    ensures amount <= -255 ==> AdjustColor(hex, amount) == "#000000"
    ensures amount >= 255 ==> AdjustColor(hex, amount) == "#ffffff"
  {
    var n := ColorNumber(hex);
    assert AdjustColor(hex, amount) == AdjustedColor(n, amount);
    ChannelsOf(n);
    HexColorExtremes();
  }

  /** "ff" reads as 255. */
  lemma FullChannelDigits()
    ensures AllDigits("ff", 16) && ParseDigits("ff", 16) == 255
  {
    assert "ff"[..1] == "f";
  }

  /** A negative colour number has a negative red channel, so lightening it by 255 does not give white. */
  lemma NegativeNumberNotWhite(n: int)
    requires n < 0
    ensures AdjustedColor(n, 255) != "#ffffff"
  {
    ChannelFields(n, 255);
    FullChannelDigits();
    assert "#ffffff"[1..3] == "ff";
  }

  /**
   * A negative colour number (eight hex digits led by 8 or more) is not
   * lightened to white by 255.
   */
  lemma NegativeColorNotWhite(hex: string)
    requires ColorNumber(hex) < 0
    ensures AdjustColor(hex, 255) != "#ffffff"
  {
    NegativeNumberNotWhite(ColorNumber(hex));
  }
}
