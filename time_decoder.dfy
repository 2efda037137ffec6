/**
 * The UTC field of a GPGGA sentence, `hhmmss.ss` read as one number, and the header stamp the
 * driver derives from it: whole seconds since midnight and a sub-second count.
 */
module TimeDecoder {
  import opened Numeric

  /** The multiplier the driver applies to the seconds of the day before taking the remainder. */
  const SubSecondScale: real := 10000000.0

  /** `int(utc // 10000)`: the hours, the digits above the fourth place. */
  function Hours(utc: real): (h: int)
    ensures h as real * 10000.0 <= utc < h as real * 10000.0 + 10000.0
  {
    FloorDiv(utc, 10000.0)
  }

  /** `int((utc - hours * 10000) // 100)`: the minutes, the third and fourth digits. */
  function Minutes(utc: real): (m: int)
    ensures 0 <= m < 100
    ensures m as real * 100.0 <= utc - Hours(utc) as real * 10000.0 < m as real * 100.0 + 100.0
  {
    FloorDiv(utc - Hours(utc) as real * 10000.0, 100.0)
  }

  /** `utc - hours * 10000 - minutes * 100`: the seconds with their fraction. */
  function Seconds(utc: real): (s: real)
    ensures 0.0 <= s < 100.0
    ensures Hours(utc) as real * 10000.0 + Minutes(utc) as real * 100.0 + s == utc
  {
    utc - Hours(utc) as real * 10000.0 - Minutes(utc) as real * 100.0
  }

  /**
   * `hours * 3600 + minutes * 60 + seconds`: the seconds since midnight. Each hour of the clock
   * reading counts 3600 instead of 10000 and each minute 60 instead of 100; a reading that is not
   * negative gives a count that is not negative.
   */
  function SecondsOfDay(utc: real): (t: real)
    ensures t == utc - Hours(utc) as real * 6400.0 - Minutes(utc) as real * 40.0
    ensures 0.0 <= utc ==> 0.0 <= t
  {
    Hours(utc) as real * 3600.0 + Minutes(utc) as real * 60.0 + Seconds(utc)
  }

  /**
   * `int(seconds_of_day)`: the whole seconds written to the stamp, the seconds since midnight
   * rounded down for a reading that is not negative.
   */
  function StampSecs(utc: real): (n: int)
    ensures 0.0 <= utc ==> 0 <= n && n as real <= SecondsOfDay(utc) < n as real + 1.0
  {
    Trunc(SecondsOfDay(utc))
  }

  /**
   * `int((seconds_of_day * 10**7) % 10**7)`: the fraction of the second counted in units of
   * 10^-7 s, always within `[0, 10^7)`.
   */
  function StampNsecs(utc: real): (n: int)
    ensures 0 <= n < 10000000
  {
    Trunc(FloatMod(SecondsOfDay(utc) * SubSecondScale, SubSecondScale))
  }

  /**
   * The decomposition inverts the encoding `hh * 10000 + mm * 100 + ss`: a clock reading with
   * minutes and seconds below one hundred is read back as the same hours, minutes and seconds.
   */
  lemma ClockRoundTrip(h: int, m: int, s: real)
    requires 0 <= m < 100 && 0.0 <= s < 100.0
    ensures var utc := h as real * 10000.0 + m as real * 100.0 + s;
      Hours(utc) == h && Minutes(utc) == m && Seconds(utc) == s
  {
    var utc := h as real * 10000.0 + m as real * 100.0 + s;
    FloorDivUnique(utc, 10000.0, h);
    FloorDivUnique(utc - h as real * 10000.0, 100.0, m);
  }

  /** A reading of a valid time of day lies within the 86400 seconds of that day. */
  lemma SecondsOfDayRange(utc: real)
    requires 0 <= Hours(utc) < 24 && Minutes(utc) < 60 && Seconds(utc) < 60.0
    ensures 0.0 <= SecondsOfDay(utc) < 86400.0
    ensures StampSecs(utc) == Hours(utc) * 3600 + Minutes(utc) * 60 + Seconds(utc).Floor
  {
    var h, m, s := Hours(utc), Minutes(utc), Seconds(utc);
    assert SecondsOfDay(utc) == (h * 3600 + m * 60) as real + s;
  }

  /**
   * For a non-negative time the stamp splits the seconds of the day into whole seconds and a
   * sub-second count that is its fraction truncated to units of 10^-7 s.
   */
  lemma StampSplit(utc: real)
    requires 0.0 <= SecondsOfDay(utc)
    ensures var t := SecondsOfDay(utc) * SubSecondScale;
      var base := StampSecs(utc) as real * SubSecondScale + StampNsecs(utc) as real;
      base <= t < base + 1.0
  {
    var total := SecondsOfDay(utc);
    var x := total * SubSecondScale;
    var r := FloatMod(x, SubSecondScale);
    var secs := Trunc(total);
    FloorDivUnique(x, SubSecondScale, secs);
    assert r == x - secs as real * SubSecondScale;
  }

  /**
   * A stamp with a nonzero fraction of a second counts it in units of 10^-7 s: the fix at
   * 12:35:19.5 is stamped 45319 s and 5000000 units.
   */
  lemma HalfSecondStamp()
    ensures StampSecs(123519.5) == 45319 && StampNsecs(123519.5) == 5000000
  {
    ClockRoundTrip(12, 35, 19.5);
    assert SecondsOfDay(123519.5) == 45319.5;
    FloorDivUnique(45319.5 * SubSecondScale, SubSecondScale, 45319);
  }

  /** A fix on a whole second has a zero sub-second count: 12:35:19 is stamped 45319 s and 0. */
  lemma WholeSecondStamp()
    ensures StampSecs(123519.0) == 45319 && StampNsecs(123519.0) == 0
  {
    ClockRoundTrip(12, 35, 19.0);
    assert SecondsOfDay(123519.0) == 45319.0;
    FloorDivUnique(45319.0 * SubSecondScale, SubSecondScale, 45319);
  }
}
