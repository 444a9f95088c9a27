/** The duration line of the download report:
    `f"{duration // 60}:{duration % 60:02d}"`, where `duration` is the
    metadata's whole number of seconds, or 0 when it is missing. */
module Duration {
  import opened Optional
  import opened PyStr

  const SecondsPerMinute := 60

  /** `(duration // 60, duration % 60)`. Python floors both; for the positive
      divisor 60 that is what Dafny's Euclidean `/` and `%` compute, negative
      durations included. */
  function MinutesSeconds(d: int): (ms: (int, int))
    ensures ms.0 * SecondsPerMinute + ms.1 == d
    ensures 0 <= ms.1 < SecondsPerMinute
  {
    (d / SecondsPerMinute, d % SecondsPerMinute)
  }

  /** `f"{s:02d}"` for a seconds count below 100: exactly two digits, with a
      leading zero below 10. */
  function TwoDigits(s: int): (r: string)
    requires 0 <= s < 100
    ensures |r| == 2 && AllDigits(r)
    ensures DigitsValue(r) == s
  {
    var r := [DigitChar(s / 10), DigitChar(s % 10)];
    assert r[..1] == [DigitChar(s / 10)] && r[..1][..0] == [];
    assert DigitsValue(r[..1]) == s / 10;
    r
  }

  /** The `M:SS` text printed after "Duration: ". */
  function FormatDuration(d: int): (r: string)
    ensures |r| >= 4 && r[|r| - 3] == ':'
    ensures AllDigits(r[|r| - 2..]) && DigitsValue(r[|r| - 2..]) < SecondsPerMinute
    ensures r[..|r| - 3] == IntToStr(d / SecondsPerMinute)
  {
    var ms := MinutesSeconds(d);
    var r := IntToStr(ms.0) + ":" + TwoDigits(ms.1);
    assert r[|r| - 2..] == TwoDigits(ms.1);
    assert r[..|r| - 3] == IntToStr(ms.0);
    r
  }

  /** The duration line for metadata whose `duration` entry may be missing. */
  function DisplayDuration(duration: Option<int>): (r: string)
    ensures ReadDuration(r) == Some(duration.ValueOr(0))
    ensures r[..|r| - 3] == IntToStr(duration.ValueOr(0) / SecondsPerMinute)
  {
    FormatDurationRoundTrip(duration.ValueOr(0));
    FormatDuration(duration.ValueOr(0))
  }

  /** Reads an `M:SS` text back into seconds: a whole number of minutes,
      a colon, and two digits below 60. Anything else is `None`. */
  function ReadDuration(s: string): Option<int>
  {
    if |s| >= 4 && s[|s| - 3] == ':' && AllDigits(s[|s| - 2..]) then
      var secs := DigitsValue(s[|s| - 2..]);
      match ReadInt(s[..|s| - 3])
      case Some(m) =>
        if secs < SecondsPerMinute then Some(m * SecondsPerMinute + secs) else None
      case None => None
    else None
  }

  /** Minutes and seconds are the only pair with the divmod identity and a
      seconds field in [0, 60). */
  lemma MinutesSecondsUnique(d: int, m: int, s: int)
    requires m * SecondsPerMinute + s == d && 0 <= s < SecondsPerMinute
    ensures MinutesSeconds(d) == (m, s)
  {
    var ms := MinutesSeconds(d);
    assert (m - ms.0) * SecondsPerMinute == ms.1 - s;
  }

  /** The displayed text determines the duration: reading it back gives the
      duration that was formatted. */
  lemma FormatDurationRoundTrip(d: int)
    ensures ReadDuration(FormatDuration(d)) == Some(d)
  {
    var ms := MinutesSeconds(d);
    var r := FormatDuration(d);
    assert r[..|r| - 3] == IntToStr(ms.0);
    assert r[|r| - 2..] == TwoDigits(ms.1);
    IntToStrRoundTrip(ms.0);
  }

  /** Two digits are the `:02d` text of their own value. */
  lemma TwoDigitsExact(t: string)
    requires |t| == 2 && AllDigits(t)
    ensures DigitsValue(t) < 100 && TwoDigits(DigitsValue(t)) == t
  {
    var hi, lo := DigitValue(t[0]), DigitValue(t[1]);
    assert t[..1][..0] == [];
    assert DigitsValue(t[..1]) == hi;
    var v := DigitsValue(t);
    assert v == 10 * hi + lo;
    assert v / 10 == hi && v % 10 == lo;
    assert DigitChar(hi) == t[0] && DigitChar(lo) == t[1];
  }

  /** The reader accepts only what the display writes: a text read as `d`
      is exactly the display of `d`, so a padded or otherwise different
      spelling of the minutes is refused. */
  lemma ReadDurationExact(s: string, d: int)
    requires ReadDuration(s) == Some(d)
    ensures FormatDuration(d) == s
  {
    var minutes, secs := s[..|s| - 3], s[|s| - 2..];
    var m := ReadInt(minutes).value;
    var v := DigitsValue(secs);
    MinutesSecondsUnique(d, m, v);
    ReadIntExact(minutes, m);
    TwoDigitsExact(secs);
    assert s == minutes + ":" + secs;
  }

  /** Two durations display alike only if they are equal. */
  lemma FormatDurationInjective(a: int, b: int)
    requires FormatDuration(a) == FormatDuration(b)
    ensures a == b
  {
    FormatDurationRoundTrip(a);
    FormatDurationRoundTrip(b);
  }

  /** 125 seconds display as "2:05"; a missing duration displays as "0:00";
      an hour displays as "60:00", with no hours field. */
  lemma DisplayExamples()
    ensures FormatDuration(125) == "2:05"
    ensures DisplayDuration(None) == "0:00"
    ensures FormatDuration(3600) == "60:00"
  {
    assert NatDigits(60) == "60";
  }
}
