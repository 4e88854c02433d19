/** Clock helpers of the time-me-out scheduler: wall-clock arithmetic in a fixed
    GMT offset, the next occurrence of a wall-clock time, and the `H:MM` / `HH:MM`
    parser of the `/timeout` command.

    Instants are whole seconds since the Unix epoch (UTC). A fixed offset of `off`
    hours shifts an instant to local seconds `t + 3600 * off`; the local calendar
    day is those seconds divided (rounding down) by 86400, and the wall clock is the
    remainder. */
module Clock {
  import opened Wrappers
  import opened Text

  const SecondsPerDay: int := 86400
  const SecondsPerHour: int := 3600
  const SecondsPerMinute: int := 60

  /** A wall-clock time `hour:minute` that `datetime.time` accepts. */
  predicate ValidTime(hour: int, minute: int) {
    0 <= hour <= 23 && 0 <= minute <= 59
  }

  /** An offset `timedelta(hours=off)` that `datetime.timezone` accepts (strictly within a day). */
  predicate ValidOffset(off: int) {
    -23 <= off <= 23
  }

  function LocalSeconds(t: int, off: int): int {
    t + SecondsPerHour * off
  }

  /** The local calendar day of instant `t` (days since 1970-01-01 in GMT+off). */
  function LocalDay(t: int, off: int): int {
    LocalSeconds(t, off) / SecondsPerDay
  }

  /** Seconds elapsed since local midnight at instant `t`. */
  function SecondOfDay(t: int, off: int): int {
    LocalSeconds(t, off) % SecondsPerDay
  }

  function WallSeconds(hour: int, minute: int): int {
    hour * SecondsPerHour + minute * SecondsPerMinute
  }

  /** A whole number of days is either not positive or at least one day. */
  lemma WholeDays(k: int)
    ensures k * SecondsPerDay <= 0 || k * SecondsPerDay >= SecondsPerDay
  {
    if k <= 0 {
      assert k * SecondsPerDay <= 0;
    } else {
      assert k * SecondsPerDay >= SecondsPerDay;
    }
  }

  /** Division by the day length is unique: `q * 86400 + r` with `0 <= r < 86400`
      has quotient `q` and remainder `r`. */
  lemma DayDivMod(q: int, r: int)
    requires 0 <= r < SecondsPerDay
    ensures (q * SecondsPerDay + r) / SecondsPerDay == q
    ensures (q * SecondsPerDay + r) % SecondsPerDay == r
  {
    var x := q * SecondsPerDay + r;
    var q', r' := x / SecondsPerDay, x % SecondsPerDay;
    assert (q - q') * SecondsPerDay == r' - r;
    assert (q' - q) * SecondsPerDay == r - r';
    WholeDays(q - q');
    WholeDays(q' - q);
  }

  /** The instant of today's `hour:minute` in GMT+off, where "today" is the local
      day of `now` (`datetime.combine(now_in_tz.date(), time(hour, minute), tz)`). */
  function ScheduledToday(now: int, hour: int, minute: int, off: int): (r: int)
    requires ValidTime(hour, minute)
    ensures LocalDay(r, off) == LocalDay(now, off)
    ensures SecondOfDay(r, off) == WallSeconds(hour, minute)
  {
    var r := now - SecondOfDay(now, off) + WallSeconds(hour, minute);
    assert LocalSeconds(r, off) == LocalDay(now, off) * SecondsPerDay + WallSeconds(hour, minute);
    DayDivMod(LocalDay(now, off), WallSeconds(hour, minute));
    r
  }

  /** Today's `hour:minute` lies within a day of `now`, on the local clock. */
  lemma ScheduledTodayNear(now: int, hour: int, minute: int, off: int)
    requires ValidTime(hour, minute)
    ensures LocalSeconds(now, off) - SecondsPerDay < LocalSeconds(ScheduledToday(now, hour, minute, off), off)
            < LocalSeconds(now, off) + SecondsPerDay
  {
    InstantDifference(now, ScheduledToday(now, hour, minute, off), off);
  }

  /** `next_occurrence_utc`: the first instant strictly after `now` whose wall clock
      in GMT+off reads `hour:minute` -- today's if still ahead, else tomorrow's. */
  function NextOccurrence(now: int, hour: int, minute: int, off: int): (r: int)
    requires ValidTime(hour, minute)
    ensures now < r <= now + SecondsPerDay
    ensures SecondOfDay(r, off) == WallSeconds(hour, minute)
  {
    var today := ScheduledToday(now, hour, minute, off);
    if today <= now then
      var r := today + SecondsPerDay;
      DayDivMod(LocalDay(now, off) + 1, WallSeconds(hour, minute));
      assert LocalSeconds(r, off) == (LocalDay(now, off) + 1) * SecondsPerDay + WallSeconds(hour, minute);
      r
    else
      today
  }

  /** The distance between two instants, split into whole local days and seconds of day. */
  lemma InstantDifference(t: int, u: int, off: int)
    ensures u - t == (LocalDay(u, off) - LocalDay(t, off)) * SecondsPerDay
                     + (SecondOfDay(u, off) - SecondOfDay(t, off))
  {
  }

  /** No instant between `now` and the next occurrence reads `hour:minute`:
      `NextOccurrence` is the earliest such instant after `now`. */
  lemma {:induction false} NextOccurrenceIsEarliest(now: int, hour: int, minute: int, off: int, t: int)
    requires ValidTime(hour, minute)
    requires now < t < NextOccurrence(now, hour, minute, off)
    ensures SecondOfDay(t, off) != WallSeconds(hour, minute)
  {
    var r := NextOccurrence(now, hour, minute, off);
    InstantDifference(t, r, off);
    WholeDays(LocalDay(r, off) - LocalDay(t, off));
  }

  // ---------------------------------------------------------------- parsing

  /** `t` is a rendering of the valid time `hour:minute` in the shape `H:MM` or
      `HH:MM` that the `/timeout` command accepts. */
  predicate Renders(t: string, hour: int, minute: int) {
    && ValidTime(hour, minute)
    && (|| t == Pad2(hour) + ":" + Pad2(minute)
        || (hour < 10 && t == [DigitChar(hour)] + ":" + Pad2(minute)))
  }

  /** `f"{hour:02d}:{minute:02d}"`, the time echoed back to the user. */
  function FormatTime(hour: int, minute: int): (s: string)
    requires ValidTime(hour, minute)
    ensures |s| == 5 && Renders(s, hour, minute)
  {
    Pad2(hour) + ":" + Pad2(minute)
  }

  /** The regular expression `^(\d{1,2}):(\d{2})$` followed by the range check,
      on an already stripped string. */
  function MatchTime(t: string): Option<(int, int)> {
    if (|t| == 4 || |t| == 5) && t[|t| - 3] == ':'
       && AllDigits(t[..|t| - 3]) && AllDigits(t[|t| - 2..]) then
      var h := DigitsValue(t[..|t| - 3]);
      var mi := DigitsValue(t[|t| - 2..]);
      if ValidTime(h, mi) then Some((h, mi)) else None
    else
      None
  }

  lemma TwoDigits(s: string)
    requires |s| == 2 && AllDigits(s)
    ensures DigitsValue(s) < 100 && s == Pad2(DigitsValue(s))
  {
    assert s[..1][..0] == [] && s[..|s| - 1] == s[..1] && s[..1] == [s[0]];
    assert DigitsValue(s[..1]) == DigitValue(s[0]);
    var n := DigitsValue(s);
    assert n == DigitValue(s[0]) * 10 + DigitValue(s[1]);
    assert n / 10 == DigitValue(s[0]) && n % 10 == DigitValue(s[1]);
    DigitCharOfValue(s[0]);
    DigitCharOfValue(s[1]);
    assert Pad2(n) == [DigitChar(n / 10), DigitChar(n % 10)];
  }

  lemma OneDigit(s: string)
    requires |s| == 1 && AllDigits(s)
    ensures DigitsValue(s) < 10 && s == [DigitChar(DigitsValue(s))]
  {
    assert s[..0] == [];
    DigitCharOfValue(s[0]);
  }

  /** `parse_time_24h`: whatever it accepts is, once stripped, a rendering of the
      returned time (and the returned time is valid). */
  function ParseTime(s: string): (r: Option<(int, int)>)
    ensures r.Some? ==> Renders(Strip(s), r.value.0, r.value.1)
  {
    var t := Strip(s);
    var r := MatchTime(t);
    if r.Some? then MatchTimeSound(t); r else r
  }

  lemma MatchTimeSound(t: string)
    requires MatchTime(t).Some?
    ensures Renders(t, MatchTime(t).value.0, MatchTime(t).value.1)
  {
    var hs, ms := t[..|t| - 3], t[|t| - 2..];
    TwoDigits(ms);
    if |hs| == 2 { TwoDigits(hs); } else { OneDigit(hs); }
    assert t == hs + ":" + ms;
  }

  /** Conversely, every rendering of a valid time, with any surrounding white
      space, parses back to that time. With `ParseTime`'s own contract this makes
      `ParseTime(s) == Some((h, mi))` hold exactly when `Renders(Strip(s), h, mi)`. */
  lemma ParseTimeComplete(s: string, hour: int, minute: int)
    requires Renders(Strip(s), hour, minute)
    ensures ParseTime(s) == Some((hour, minute))
  {
    var t := Strip(s);
    var ms := Pad2(minute);
    if t == Pad2(hour) + ":" + ms {
      assert t[..|t| - 3] == Pad2(hour) && t[|t| - 2..] == ms;
    } else {
      var hs := [DigitChar(hour)];
      assert t[..|t| - 3] == hs && t[|t| - 2..] == ms;
      assert hs[..0] == [];
      assert DigitsValue(hs) == hour;
    }
  }

  /** Echoing a time and parsing it back gives the same time. */
  lemma FormatParseRoundTrip(hour: int, minute: int)
    requires ValidTime(hour, minute)
    ensures ParseTime(FormatTime(hour, minute)) == Some((hour, minute))
  {
    var s := FormatTime(hour, minute);
    assert forall i :: 0 <= i < |s| ==> !IsSpace(s[i]);
    StripNoSpace(s);
    ParseTimeComplete(s, hour, minute);
  }
}
