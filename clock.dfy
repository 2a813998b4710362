/**
 * Time as the handlers see it: instants are integer milliseconds since the epoch
 * (what `Date.getTime()` returns), days are UTC days, and clock times are the
 * "HH:mm" strings appointments store.
 */
module Clock {

  const MsPerMinute: int := 60_000
  const MsPerHour: int := 3_600_000
  const MsPerDay: int := 86_400_000

  /** Midnight (00:00:00.000) of the day holding instant `t`. */
  function StartOfDay(t: int): (d: int)
    ensures d <= t < d + MsPerDay
    ensures d % MsPerDay == 0
  {
    t - t % MsPerDay
  }

  /** 23:59:59.999 of the day holding instant `t`. */
  function EndOfDay(t: int): int
  {
    StartOfDay(t) + MsPerDay - 1
  }

  /** The slot-listing filter `startTime >= startOfDay && startTime < endOfDay` for the day of `day`. */
  predicate InDayWindow(day: int, t: int)
  {
    StartOfDay(day) <= t < EndOfDay(day)
  }

  /** Two instants fall on the same day exactly when their midnights agree. */
  lemma SameDay(a: int, b: int)
    ensures StartOfDay(a) <= b < StartOfDay(a) + MsPerDay <==> StartOfDay(b) == StartOfDay(a)
  {
    var da, db := StartOfDay(a), StartOfDay(b);
    if da <= b < da + MsPerDay && da < db {
      ModMultiplesApart(db, da);
    }
  }

  lemma ModMultiplesApart(x: int, y: int)
    requires x % MsPerDay == 0 && y % MsPerDay == 0 && y < x
    ensures x - y >= MsPerDay
  {
    assert x == (x / MsPerDay) * MsPerDay;
    assert y == (y / MsPerDay) * MsPerDay;
    assert x / MsPerDay > y / MsPerDay;
  }

  /**
   * The window of a day holds every instant of that day except its last millisecond:
   * `endOfDay` is 23:59:59.999 and the filter compares with `lt`.
   */
  lemma DayWindowMeans(day: int, t: int)
    ensures InDayWindow(day, t) <==> StartOfDay(t) == StartOfDay(day) && t != EndOfDay(day)
  {
    SameDay(day, t);
  }

  predicate IsDigit(c: char)
  {
    '0' <= c <= '9'
  }

  /** The decimal digit character for `n`. */
  function Digit(n: nat): (c: char)
    requires n < 10
    ensures IsDigit(c) && c as int - '0' as int == n
  {
    ('0' as int + n) as char
  }

  /** `n` written with two digits, zero-padded. */
  function Pad2(n: nat): string
    requires n < 100
  {
    [Digit(n / 10), Digit(n % 10)]
  }

  /** The zero-padded clock time "HH:mm". */
  function HourMinute(h: nat, m: nat): string
    requires h < 24 && m < 60
  {
    Pad2(h) + ":" + Pad2(m)
  }

  /** The clock time "H:mm" with a one-digit hour. */
  function ShortHourMinute(h: nat, m: nat): string
    requires h < 10 && m < 60
  {
    [Digit(h)] + ":" + Pad2(m)
  }

  /**
   * The hour and minute of instant `t`, written "HH:mm": what
   * `startTime.toTimeString().slice(0, 5)` yields, on a server whose local time is UTC.
   */
  function TimeOfDay(t: int): (s: string)
    ensures |s| == 5
  {
    var ms := t % MsPerDay;
    HourMinute(ms / MsPerHour, ms % MsPerHour / MsPerMinute)
  }

  predicate MinutesFrom(s: string, i: nat)
    requires i + 3 == |s|
  {
    s[i] == ':' && '0' <= s[i + 1] <= '5' && IsDigit(s[i + 2])
  }

  /**
   * The direct-booking time check `^([0-1]?[0-9]|2[0-3]):[0-5][0-9]$`: an hour of one
   * digit, or of two digits from 00 to 23, then a colon and two minute digits 00-59.
   */
  predicate MatchesTimePattern(s: string)
  {
    || (|s| == 4 && IsDigit(s[0]) && MinutesFrom(s, 1))
    || (|s| == 5
        && (('0' <= s[0] <= '1' && IsDigit(s[1])) || (s[0] == '2' && '0' <= s[1] <= '3'))
        && MinutesFrom(s, 2))
  }

  /** The clock times a valid time string may spell. */
  predicate SpellsClockTime(s: string, h: nat, m: nat)
  {
    h < 24 && m < 60 && (s == HourMinute(h, m) || (h < 10 && s == ShortHourMinute(h, m)))
  }

  lemma Pad2Digits(n: nat)
    requires n < 100
    ensures Pad2(n)[0] as int - '0' as int == n / 10
    ensures Pad2(n)[1] as int - '0' as int == n % 10
  {
  }

  /** Each clock time, in either spelling, passes the check. */
  lemma SpelledTimesMatch(h: nat, m: nat)
    requires h < 24 && m < 60
    ensures MatchesTimePattern(HourMinute(h, m))
    ensures h < 10 ==> MatchesTimePattern(ShortHourMinute(h, m))
  {
    var s := HourMinute(h, m);
    Pad2Digits(h);
    Pad2Digits(m);
    assert s[0] == Digit(h / 10) && s[1] == Digit(h % 10) && s[2] == ':';
    assert s[3] == Digit(m / 10) && s[4] == Digit(m % 10);
    if h >= 20 {
      assert h / 10 == 2 && h % 10 <= 3;
    } else {
      assert h / 10 <= 1;
    }
    assert m / 10 <= 5;
    if h < 10 {
      var t := ShortHourMinute(h, m);
      assert t[0] == Digit(h) && t[1] == ':' && t[2] == Digit(m / 10) && t[3] == Digit(m % 10);
    }
  }

  function DigitValue(c: char): nat
    requires IsDigit(c)
  {
    c as int - '0' as int
  }

  lemma DigitRoundTrip(c: char)
    requires IsDigit(c)
    ensures DigitValue(c) < 10 && Digit(DigitValue(c)) == c
  {
  }

  /** The check accepts exactly the strings that spell some clock time. */
  lemma {:induction false} TimePatternMeans(s: string)
    ensures MatchesTimePattern(s) <==> exists h: nat, m: nat :: SpellsClockTime(s, h, m)
  {
    if MatchesTimePattern(s) {
      var i := |s| - 3;
      DigitRoundTrip(s[i + 1]);
      DigitRoundTrip(s[i + 2]);
      var m := DigitValue(s[i + 1]) * 10 + DigitValue(s[i + 2]);
      assert Pad2(m) == [s[i + 1], s[i + 2]];
      DigitRoundTrip(s[0]);
      if |s| == 4 {
        var h := DigitValue(s[0]);
        assert s == ShortHourMinute(h, m);
        assert SpellsClockTime(s, h, m);
      } else {
        DigitRoundTrip(s[1]);
        var h := DigitValue(s[0]) * 10 + DigitValue(s[1]);
        assert Pad2(h) == [s[0], s[1]];
        assert s == HourMinute(h, m);
        assert SpellsClockTime(s, h, m);
      }
    }
    if exists h: nat, m: nat :: SpellsClockTime(s, h, m) {
      var h: nat, m: nat :| SpellsClockTime(s, h, m);
      SpelledTimesMatch(h, m);
    }
  }

  /** The time stored by a slot booking always passes the direct-booking check. */
  lemma TimeOfDayMatches(t: int)
    ensures MatchesTimePattern(TimeOfDay(t))
  {
    var ms := t % MsPerDay;
    SpelledTimesMatch(ms / MsPerHour, ms % MsPerHour / MsPerMinute);
  }

  lemma TimePatternExamples()
    ensures !MatchesTimePattern("25:00")
    ensures !MatchesTimePattern("24:00")
    ensures !MatchesTimePattern("12:60")
    ensures MatchesTimePattern("9:05")
    ensures MatchesTimePattern("09:05")
    ensures MatchesTimePattern("23:59")
  {
  }
}
