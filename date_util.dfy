/**
 * scripts/utils/date.js: the date of today and the current instant in Japan
 * Standard Time (UTC+9), computed by shifting the current instant by the
 * difference between the host's time zone and UTC+9 and then reading the
 * shifted instant with the host's local getters (`getJSTDate`) or with
 * `toISOString` (`getJSTISOString`).
 *
 * Instants are milliseconds since the epoch; the clock is a parameter. The
 * host's calendar getters (`getFullYear`, `getMonth`, `getDate`) are not
 * modelled: their results are parameters of `FormatDate`.
 */
module DateUtil {
  import opened Js
  import opened Numerals

  /** `jstOffset`: UTC+9 in minutes. */
  const JstOffsetMinutes: int := 9 * 60

  const MillisPerMinute: int := 60 * 1000

  /**
   * `jstTime`: the current instant moved by `(utcOffset + jstOffset)` minutes,
   * where `utcOffset` is `getTimezoneOffset()`, the host's offset from UTC in
   * minutes with the sign reversed (-540 in Japan, 0 in UTC).
   */
  function JstTime(now: int, utcOffset: int): int
  {
    now + (utcOffset + JstOffsetMinutes) * 60 * 1000
  }

  /**
   * The wall-clock reading, as milliseconds since the epoch, that the local
   * getters give for instant `t` in a zone whose offset is `utcOffset` at `t`.
   */
  function LocalClock(t: int, utcOffset: int): int
  {
    t - utcOffset * MillisPerMinute
  }

  /**
   * Whatever the host's zone, the local getters read the shifted instant as
   * the wall clock of UTC+9 at `now`; on a host already in Japan nothing is
   * shifted, and on a UTC host the shift is nine hours.
   */
  lemma JstWallClock(now: int, utcOffset: int)
    ensures LocalClock(JstTime(now, utcOffset), utcOffset) == now + JstOffsetMinutes * MillisPerMinute
    ensures LocalClock(JstTime(now, utcOffset), utcOffset) == LocalClock(now, -JstOffsetMinutes)
    ensures JstTime(now, -540) == now
    ensures JstTime(now, 0) == now + 9 * 60 * 60 * 1000
  {
  }

  /**
   * `toISOString` of the shifted instant is the UTC reading of that instant,
   * so it is nine hours ahead of UTC only on a UTC host; in general it is
   * `now` plus the shift.
   */
  lemma JstIsoInstant(now: int, utcOffset: int)
    ensures JstTime(now, utcOffset) - now == (utcOffset + 540) * MillisPerMinute
    ensures JstTime(now, utcOffset) == now + JstOffsetMinutes * MillisPerMinute <==> utcOffset == 0
  {
  }

  /**
   * The instant meant by an ISO text whose date and time digits read `wall`
   * (as milliseconds since the epoch) and whose suffix is an offset of
   * `eastMinutes` east of UTC.
   */
  function DenotedInstant(wall: int, eastMinutes: int): int
  {
    wall - eastMinutes * MillisPerMinute
  }

  /**
   * `getJSTISOString` as written: `toISOString` prints the shifted instant's
   * UTC digits and the "Z" becomes "+09:00", so the text means the current
   * instant only on a UTC host; on a host in Japan it means nine hours
   * earlier.
   */
  lemma IsoStringInstant(now: int, utcOffset: int)
    ensures DenotedInstant(JstTime(now, utcOffset), JstOffsetMinutes) == now <==> utcOffset == 0
    ensures utcOffset == -JstOffsetMinutes ==>
      DenotedInstant(JstTime(now, utcOffset), JstOffsetMinutes) == now - 9 * 60 * 60 * 1000
  {
  }

  /** The shift the ISO text needs: nine hours, whatever the host's zone. */
  function CorrectedJstTime(now: int): (t: int)
    ensures DenotedInstant(t, JstOffsetMinutes) == now
  {
    now + JstOffsetMinutes * MillisPerMinute
  }

  /**
   * The corrected shift prints the same wall clock that `getJSTDate` reads
   * through the local getters on every host, and agrees with the written
   * shift exactly on a UTC host.
   */
  lemma CorrectedJstTimeAgrees(now: int, utcOffset: int)
    ensures CorrectedJstTime(now) == LocalClock(JstTime(now, utcOffset), utcOffset)
    ensures CorrectedJstTime(now) == JstTime(now, utcOffset) <==> utcOffset == 0
  {
  }

  // ---------------------------------------------------------------------------
  // `${year}-${month}-${day}` (lines 13-17)

  /**
   * `getJSTDate` from the local getters' results: the year as `String` writes
   * it, then the month (`getMonth() + 1`) and the day, each padded to two
   * digits with "0".
   */
  function FormatDate(year: int, monthIndex: int, day: int): string
  {
    DecimalString(year) + "-" + PadStart(DecimalString(monthIndex + 1), 2, '0')
      + "-" + PadStart(DecimalString(day), 2, '0')
  }

  datatype CivilDate = CivilDate(year: int, month: int, day: int)

  /**
   * Reads `YYYY-MM-DD` back: the last five characters after a "-" are two
   * digits, "-" and two digits, and the part before them is a non-empty
   * string of digits.
   */
  function ParseDate(s: string): (r: Option<CivilDate>)
    ensures r.Some? ==> |s| >= 7 && s[|s| - 3] == '-' && s[|s| - 6] == '-'
  {
    if |s| < 7 || s[|s| - 3] != '-' || s[|s| - 6] != '-' then None
    else
      var y, m, d := s[..|s| - 6], s[|s| - 5..|s| - 3], s[|s| - 2..];
      if AllDigits(y, 10) && AllDigits(m, 10) && AllDigits(d, 10) then
        Some(CivilDate(ParseDigits(y, 10), ParseDigits(m, 10), ParseDigits(d, 10)))
      else None
  }

  /** A one- or two-digit number padded to two digits reads back as itself. */
  lemma TwoDigits(n: nat)
    requires n < 100
    ensures PadStart(DecimalString(n), 2, '0') == FixedDigits(n, 2, 10)
    ensures ParseDigits(FixedDigits(n, 2, 10), 10) == n
  {
    assert Pow(10, 2) == 100;
    PadStartIsFixedDigits(n, 2, 10);
    ParseFixedDigits(n, 2, 10);
  }

  /**
   * For a date of a non-negative year the month and the day are always two
   * digits, so the date reads back as the year, `getMonth() + 1` and the day:
   * dates of different days are different strings.
   */
  lemma FormatDateRoundTrip(year: nat, monthIndex: nat, day: nat)
    requires monthIndex < 12 && 1 <= day <= 31
    ensures ParseDate(FormatDate(year, monthIndex, day)) == Some(CivilDate(year, monthIndex + 1, day))
  {
    var y := ToRadix(year, 10);
    TwoDigits(monthIndex + 1);
    TwoDigits(day);
    var m, d := FixedDigits(monthIndex + 1, 2, 10), FixedDigits(day, 2, 10);
    assert FormatDate(year, monthIndex, day) == y + "-" + m + "-" + d;
    DateFields(y, m, d);
    ParseToRadix(year, 10);
  }

  lemma DateFields(y: string, m: string, d: string)
    requires |m| == 2 && |d| == 2
    ensures var s := y + "-" + m + "-" + d;
      && s[|s| - 3] == '-' && s[|s| - 6] == '-'
      && s[..|s| - 6] == y && s[|s| - 5..|s| - 3] == m && s[|s| - 2..] == d
  {
    var s := y + "-" + m + "-" + d;
    assert s == (y + "-" + m) + ("-" + d);
    assert s[..|s| - 3] == y + "-" + m;
  }

  lemma FormatDateInjective(y1: nat, m1: nat, d1: nat, y2: nat, m2: nat, d2: nat)
    requires m1 < 12 && 1 <= d1 <= 31 && m2 < 12 && 1 <= d2 <= 31
    ensures FormatDate(y1, m1, d1) == FormatDate(y2, m2, d2) <==> y1 == y2 && m1 == m2 && d1 == d2
  {
    FormatDateRoundTrip(y1, m1, d1);
    FormatDateRoundTrip(y2, m2, d2);
  }

  /** `n` with `k` decimal digits is written with `k` characters. */
  lemma {:induction false} DecimalLength(n: nat, k: nat)
    requires 1 <= k && Pow(10, k - 1) <= n < Pow(10, k)
    ensures |ToRadix(n, 10)| == k
    decreases k
  {
    DivFacts(n, 10);
    if k > 1 {
      assert Pow(10, k - 1) == 10 * Pow(10, k - 2);
      assert n >= 10;
      DivBelow(n, 10, Pow(10, k - 1));
      DivAtLeast(n, 10, Pow(10, k - 2));
      DecimalLength(n / 10, k - 1);
    }
  }

  lemma DivAtLeast(n: nat, d: nat, p: nat)
    requires d >= 2 && n >= d * p
    ensures n / d >= p
  {
    DivFacts(n, d);
    if n / d < p {
      MulLe(n / d + 1, p, d);
    }
  }

  /** For a four-digit year the date is `YYYY-MM-DD`: ten characters, "-" at 4 and 7. */
  lemma FormatDateShape(year: nat, monthIndex: nat, day: nat)
    requires 1000 <= year <= 9999 && monthIndex < 12 && 1 <= day <= 31
    ensures var s := FormatDate(year, monthIndex, day);
      |s| == 10 && s[4] == '-' && s[7] == '-'
      && AllDigits(s[..4], 10) && AllDigits(s[5..7], 10) && AllDigits(s[8..], 10)
  {
    assert Pow(10, 3) == 1000 && Pow(10, 4) == 10000;
    DecimalLength(year, 4);
    var y := ToRadix(year, 10);
    TwoDigits(monthIndex + 1);
    TwoDigits(day);
    var m, d := FixedDigits(monthIndex + 1, 2, 10), FixedDigits(day, 2, 10);
    assert FormatDate(year, monthIndex, day) == y + "-" + m + "-" + d;
    DateShape(y, m, d);
  }

  lemma DateShape(y: string, m: string, d: string)
    requires |y| == 4 && |m| == 2 && |d| == 2
    requires AllDigits(y, 10) && AllDigits(m, 10) && AllDigits(d, 10)
    ensures var s := y + "-" + m + "-" + d;
      |s| == 10 && s[4] == '-' && s[7] == '-'
      && AllDigits(s[..4], 10) && AllDigits(s[5..7], 10) && AllDigits(s[8..], 10)
  {
    DateFields(y, m, d);
  }

  // ---------------------------------------------------------------------------
  // `jstTime.toISOString().replace("Z", "+09:00")` (line 29)

  function JstIsoString(iso: string): string
  {
    ReplaceFirst(iso, "Z", "+09:00")
  }

  /**
   * `toISOString` ends its text with the only "Z" it writes; the replacement
   * turns that "Z" into the offset "+09:00" and keeps everything before it.
   */
  lemma JstIsoSuffix(body: string)
    requires 'Z' !in body
    ensures JstIsoString(body + "Z") == body + "+09:00"
  {
    var s := body + "Z";
    assert OccursAt(s, "Z", |body|) by {
      assert s[|body|..|body| + 1] == "Z";
    }
    forall q | 0 <= q < |body| ensures !OccursAt(s, "Z", q) {
      assert s[q] == body[q];
    }
    IndexOfFirst(s, "Z", |body|);
    assert s[..|body|] == body;
  }

  /** A text without "Z" is returned unchanged. */
  lemma JstIsoWithoutZ(s: string)
    requires 'Z' !in s
    ensures JstIsoString(s) == s
  {
    forall q | 0 <= q < |s| ensures !OccursAt(s, "Z", q) {
      assert s[q..q + 1][0] == s[q] != 'Z';
    }
  }
}
