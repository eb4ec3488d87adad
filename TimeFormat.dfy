/** The stopwatch's display format `HH:MM:SS.ff` for an elapsed time in
    milliseconds: hours (not wrapped, at least two digits), minutes and seconds
    (two digits each), and hundredths of a second obtained by cutting the
    three-digit millisecond remainder down to its first two digits. */
module TimeFormat {
  import opened JsString

  datatype Option<T> = None | Some(value: T)

  const MillisPerSecond := 1000
  const MillisPerMinute := 1000 * 60
  const MillisPerHour := 1000 * 60 * 60

  /** `formatTime(time)`, for a non-negative integer number of milliseconds. */
  function FormatTime(time: nat): string {
    var milliseconds := Substring(PadStart(NatToString(time % MillisPerSecond), 3, '0'), 0, 2);
    var seconds := PadStart(NatToString((time / MillisPerSecond) % 60), 2, '0');
    var minutes := PadStart(NatToString((time / MillisPerMinute) % 60), 2, '0');
    var hours := PadStart(NatToString(time / MillisPerHour), 2, '0');
    hours + ":" + minutes + ":" + seconds + "." + milliseconds
  }

  /** Reads a string of the form `H:MM:SS.ff` (at least one hour digit, minutes and
      seconds below 60) back into a number of hundredths of a second. */
  function ParseTime(s: string): Option<nat> {
    if |s| < 10 then None
    else
      var k := |s| - 9;
      var h, m, sec, ff := s[..k], s[k + 1..k + 3], s[k + 4..k + 6], s[k + 7..];
      if s[k] == ':' && s[k + 3] == ':' && s[k + 6] == '.'
         && AllDigits(h) && AllDigits(m) && AllDigits(sec) && AllDigits(ff)
         && DigitsValue(m) < 60 && DigitsValue(sec) < 60
      then Some(DigitsValue(h) * 360000 + DigitsValue(m) * 6000 + DigitsValue(sec) * 100 + DigitsValue(ff))
      else None
  }

  /** The hundredths are truncated, not rounded: the first two characters of the
      millisecond remainder padded to three digits are the remainder divided by 10,
      padded to two digits. */
  lemma HundredthsTruncate(r: nat)
    requires r < 1000
    ensures Substring(PadStart(NatToString(r), 3, '0'), 0, 2) == PadStart(NatToString(r / 10), 2, '0')
  {
    var s := NatToString(r);
    if r >= 10 {
      assert s == NatToString(r / 10) + [DigitChar(r % 10)];
      NatToStringLength(r / 10, 1);
      NatToStringLength(r / 10, 2);
      NatToStringLength(r, 3);
      if r >= 100 {
        assert PadStart(s, 3, '0') == s;
        assert s[0..2] == NatToString(r / 10);
      } else {
        assert PadStart(s, 3, '0') == "0" + s;
        assert PadStart(NatToString(r / 10), 2, '0') == "0" + NatToString(r / 10);
      }
    } else {
      NatToStringLength(r, 1);
      assert NatToString(r / 10) == "0";
    }
  }

  /** A number below 100 zero-padded to two places is exactly two digits that
      denote it. */
  lemma TwoDigitField(n: nat)
    requires n < 100
    ensures |PadStart(NatToString(n), 2, '0')| == 2
    ensures AllDigits(PadStart(NatToString(n), 2, '0'))
    ensures DigitsValue(PadStart(NatToString(n), 2, '0')) == n
  {
    PadNatToString(n, 2);
  }

  /** Where the four fields of a joined display string sit. */
  lemma JoinedFields(hh: string, mm: string, ss: string, ff: string)
    requires |mm| == 2 && |ss| == 2 && |ff| == 2
    ensures var s := hh + ":" + mm + ":" + ss + "." + ff; var k := |hh|;
      |s| == k + 9 && s[k] == ':' && s[k + 3] == ':' && s[k + 6] == '.'
      && s[..k] == hh && s[k + 1..k + 3] == mm && s[k + 4..k + 6] == ss && s[k + 7..] == ff
  {
    var s := hh + ":" + mm + ":" + ss + "." + ff;
    var k := |hh|;
    assert s[..k] == hh;
    assert s[k + 1..k + 3] == mm;
    assert s[k + 4..k + 6] == ss;
    assert s[k + 7..] == ff;
  }

  /** `s` is laid out as `hours:minutes:seconds.hundredths`: the separators stand
      9, 6 and 3 characters before the end, the hours take every character before
      the first `:` (at least two of them), the other three fields are two digits
      each, and the fields denote the given numbers. */
  ghost predicate Shows(s: string, hours: nat, minutes: nat, seconds: nat, hundredths: nat) {
    |s| >= 11
    && s[|s| - 9] == ':' && s[|s| - 6] == ':' && s[|s| - 3] == '.'
    && AllDigits(s[..|s| - 9]) && AllDigits(s[|s| - 8..|s| - 6])
    && AllDigits(s[|s| - 5..|s| - 3]) && AllDigits(s[|s| - 2..])
    && DigitsValue(s[..|s| - 9]) == hours
    && DigitsValue(s[|s| - 8..|s| - 6]) == minutes
    && DigitsValue(s[|s| - 5..|s| - 3]) == seconds
    && DigitsValue(s[|s| - 2..]) == hundredths
  }

  /** What each field of `FormatTime(time)` shows: whole hours, not wrapped;
      minutes and seconds within the hour and the minute; hundredths of the
      second, truncated. */
  lemma FormatTimeLayout(time: nat)
    ensures Shows(FormatTime(time), time / 3600000, (time / 60000) % 60, (time / 1000) % 60, (time % 1000) / 10)
  {
    var ff := Substring(PadStart(NatToString(time % 1000), 3, '0'), 0, 2);
    var ss := PadStart(NatToString((time / 1000) % 60), 2, '0');
    var mm := PadStart(NatToString((time / 60000) % 60), 2, '0');
    var hh := PadStart(NatToString(time / 3600000), 2, '0');
    HundredthsTruncate(time % 1000);
    TwoDigitField((time % 1000) / 10);
    TwoDigitField((time / 1000) % 60);
    TwoDigitField((time / 60000) % 60);
    PadNatToString(time / 3600000, 2);
    assert FormatTime(time) == hh + ":" + mm + ":" + ss + "." + ff;
    JoinedFields(hh, mm, ss, ff);
  }

  /** Minutes and seconds are below 60, and the four fields recombine into the
      time in hundredths of a second. */
  lemma FormatTimeRecombines(time: nat)
    ensures exists h: nat, m: nat, sec: nat, ff: nat ::
      Shows(FormatTime(time), h, m, sec, ff) && m < 60 && sec < 60 && ff < 100
      && h * 360000 + m * 6000 + sec * 100 + ff == time / 10
  {
    FormatTimeLayout(time);
    ShownRecombines(FormatTime(time), time);
  }

  lemma ShownRecombines(s: string, time: nat)
    requires Shows(s, time / 3600000, (time / 60000) % 60, (time / 1000) % 60, (time % 1000) / 10)
    ensures exists h: nat, m: nat, sec: nat, ff: nat ::
      Shows(s, h, m, sec, ff) && m < 60 && sec < 60 && ff < 100
      && h * 360000 + m * 6000 + sec * 100 + ff == time / 10
  {
    HundredthsDecompose(time);
    var h, m, sec, ff := time / 3600000, (time / 60000) % 60, (time / 1000) % 60, (time % 1000) / 10;
    assert Shows(s, h, m, sec, ff);
  }

  /** Integer arithmetic behind the recombination. */
  lemma HundredthsDecompose(time: nat)
    ensures (time / 3600000) * 360000 + ((time / 60000) % 60) * 6000
            + ((time / 1000) % 60) * 100 + (time % 1000) / 10 == time / 10
  {
    var ms, secs := time % 1000, time / 1000;
    var sec, mins := secs % 60, secs / 60;
    var m, h := mins % 60, mins / 60;
    var cs, units := ms / 10, ms % 10;
    assert time == 3600000 * h + 60000 * m + 1000 * sec + 10 * cs + units;
    assert time / 60000 == mins by {
      assert time == 60000 * mins + (1000 * sec + ms) && 0 <= 1000 * sec + ms < 60000;
    }
    assert time / 3600000 == h by {
      assert time == 3600000 * h + (60000 * m + 1000 * sec + ms) && 0 <= 60000 * m + 1000 * sec + ms < 3600000;
    }
    assert time / 10 == 360000 * h + 6000 * m + 100 * sec + cs by {
      assert time == 10 * (360000 * h + 6000 * m + 100 * sec + cs) + units && 0 <= units < 10;
    }
  }

  /** Any string laid out as a display with minutes and seconds below 60 is read
      back into its total of hundredths. */
  lemma ParseShown(s: string, h: nat, m: nat, sec: nat, ff: nat)
    requires Shows(s, h, m, sec, ff) && m < 60 && sec < 60
    ensures ParseTime(s) == Some(h * 360000 + m * 6000 + sec * 100 + ff)
  {
  }

  /** Reading the formatted time back gives the time in hundredths of a second. */
  lemma ParseFormatTime(time: nat)
    ensures ParseTime(FormatTime(time)) == Some(time / 10)
  {
    FormatTimeLayout(time);
    ParseShownTime(FormatTime(time), time);
  }

  lemma ParseShownTime(s: string, time: nat)
    requires Shows(s, time / 3600000, (time / 60000) % 60, (time / 1000) % 60, (time % 1000) / 10)
    ensures ParseTime(s) == Some(time / 10)
  {
    ParseShown(s, time / 3600000, (time / 60000) % 60, (time / 1000) % 60, (time % 1000) / 10);
    HundredthsDecompose(time);
  }

  /** The display is determined by the count of hundredths of a second. */
  lemma FormatTimeByHundredths(time: nat)
    ensures FormatTime(time) == FormatFields(time / 10)
  {
    FieldsOfHundredths(time);
    HundredthsTruncate(time % 1000);
  }

  /** The display changes exactly when the hundredths count changes: two times are
      shown alike if and only if they agree after dropping the last millisecond
      digit. */
  lemma FormatTimeSameDisplay(a: nat, b: nat)
    ensures FormatTime(a) == FormatTime(b) <==> a / 10 == b / 10
  {
    if FormatTime(a) == FormatTime(b) {
      ParseFormatTime(a);
      ParseFormatTime(b);
    }
    FormatTimeByHundredths(a);
    FormatTimeByHundredths(b);
  }

  /** The display built from a count of hundredths of a second. */
  function FormatFields(c: nat): string {
    PadStart(NatToString(c / 360000), 2, '0') + ":" + PadStart(NatToString((c / 6000) % 60), 2, '0') + ":"
      + PadStart(NatToString((c / 100) % 60), 2, '0') + "." + PadStart(NatToString(c % 100), 2, '0')
  }

  /** Every field of the display is a function of `time / 10`. */
  lemma FieldsOfHundredths(time: nat)
    ensures time / 3600000 == (time / 10) / 360000
    ensures time / 60000 == (time / 10) / 6000
    ensures time / 1000 == (time / 10) / 100
    ensures (time % 1000) / 10 == (time / 10) % 100
  {
    var q := time / 10;
    assert time == q * 10 + time % 10;
  }

  /** A number below 100, zero-padded to two places, is its tens digit followed by
      its units digit. */
  lemma TwoDigitText(n: nat)
    requires n < 100
    ensures PadStart(NatToString(n), 2, '0') == [DigitChar(n / 10), DigitChar(n % 10)]
  {
    if n >= 10 {
      assert NatToString(n) == NatToString(n / 10) + [DigitChar(n % 10)];
    }
  }

  /** The display of a count of hundredths below 100 hours, character by character. */
  lemma FieldsText(c: nat)
    requires c < 36000000
    ensures var h, m, s, f := c / 360000, (c / 6000) % 60, (c / 100) % 60, c % 100;
      FormatFields(c) == [DigitChar(h / 10), DigitChar(h % 10), ':', DigitChar(m / 10), DigitChar(m % 10), ':',
                          DigitChar(s / 10), DigitChar(s % 10), '.', DigitChar(f / 10), DigitChar(f % 10)]
  {
    var h, m, s, f := c / 360000, (c / 6000) % 60, (c / 100) % 60, c % 100;
    TwoDigitText(h);
    TwoDigitText(m);
    TwoDigitText(s);
    TwoDigitText(f);
    JoinTwoDigitFields([DigitChar(h / 10), DigitChar(h % 10)], [DigitChar(m / 10), DigitChar(m % 10)],
                       [DigitChar(s / 10), DigitChar(s % 10)], [DigitChar(f / 10), DigitChar(f % 10)]);
  }

  lemma JoinTwoDigitFields(hh: string, mm: string, ss: string, ff: string)
    requires |hh| == 2 && |mm| == 2 && |ss| == 2 && |ff| == 2
    ensures hh + ":" + mm + ":" + ss + "." + ff
            == [hh[0], hh[1], ':', mm[0], mm[1], ':', ss[0], ss[1], '.', ff[0], ff[1]]
  {
  }

  /** The display of a time below 100 hours has its digits where `FieldsText` says;
      the three fixed times below are instances. */
  lemma ShownText(time: nat, text: string)
    requires time < 360000000
    requires var c := time / 10; var h, m, s, f := c / 360000, (c / 6000) % 60, (c / 100) % 60, c % 100;
      text == [DigitChar(h / 10), DigitChar(h % 10), ':', DigitChar(m / 10), DigitChar(m % 10), ':',
               DigitChar(s / 10), DigitChar(s % 10), '.', DigitChar(f / 10), DigitChar(f % 10)]
    ensures FormatTime(time) == text
  {
    FormatTimeByHundredths(time);
    FieldsText(time / 10);
  }

  lemma FormatTimeZero()
    ensures FormatTime(0) == "00:00:00.00"
  {
    var z := DigitChar(0);
    assert z == '0';
    ShownText(0, [z, z, ':', z, z, ':', z, z, '.', z, z]);
  }

  lemma FormatTimeJustUnderOneSecond()
    ensures FormatTime(999) == "00:00:00.99"
  {
    var z, n := DigitChar(0), DigitChar(9);
    assert z == '0' && n == '9';
    ShownText(999, [z, z, ':', z, z, ':', z, z, '.', n, n]);
  }

  lemma FormatTimeOneHourOneMinute()
    ensures FormatTime(3661010) == "01:01:01.01"
  {
    var z, o := DigitChar(0), DigitChar(1);
    assert z == '0' && o == '1';
    ShownText(3661010, [z, o, ':', z, o, ':', z, o, '.', z, o]);
  }
}
