/** The forex calendar: the configured market hours and the weekend-gap test
    that both `DataManager` and `DataUpdater` apply to a gap between two
    stored candles. */
module MarketHours {
  import opened Wrappers
  import opened Text
  import opened Clock

  /** One entry of `calendar.forex_market_open`: a weekday (Monday 0) and an
      "HH:MM" time; absent keys are `None`. */
  datatype HoursEntry = HoursEntry(day: Option<int>, time: Option<string>)

  /** The `calendar` section: `weekend_trading` (false when absent) and the
      `forex_market_open` list (empty when absent). */
  datatype Calendar = Calendar(weekendTrading: bool, marketOpen: seq<HoursEntry>)

  /** The position of the first entry for `day`, as the `for hours in
      market_hours` scan finds it. */
  function FirstEntryFor(entries: seq<HoursEntry>, day: int): (r: Option<nat>)
    ensures r.Some? ==> r.value < |entries| && entries[r.value].day == Some(day)
    ensures r.Some? ==> forall j :: 0 <= j < r.value ==> entries[j].day != Some(day)
    ensures r.None? ==> forall j :: 0 <= j < |entries| ==> entries[j].day != Some(day)
  {
    if |entries| == 0 then None
    else if entries[0].day == Some(day) then Some(0)
    else
      var rest := FirstEntryFor(entries[1..], day);
      assert forall j :: 1 <= j < |entries| ==> entries[j] == entries[1..][j - 1];
      if rest.None? then None else Some(rest.value + 1)
  }

  /** The hour part of an "HH:MM" text, `int(text.split(":")[0])`; `None`
      when that raises. */
  function HourOf(text: string): Option<int> {
    ParseInt(SplitHead(text, ':'))
  }

  /** `_get_market_close_time` / `_get_market_open_time`: the hour of the
      first entry for `day`, reading `defaultText` when that entry has no
      time; `defaultHour` when no entry is for `day`.  `None` is the
      exception a time without a leading integer raises. */
  function MarketHour(entries: seq<HoursEntry>, day: int, defaultText: string, defaultHour: int): (r: Option<int>)
    ensures FirstEntryFor(entries, day).None? ==> r == Some(defaultHour)
    ensures FirstEntryFor(entries, day).Some? ==>
              r == HourOf(entries[FirstEntryFor(entries, day).value].time.GetOr(defaultText))
  {
    match FirstEntryFor(entries, day)
    case None => Some(defaultHour)
    case Some(i) => HourOf(entries[i].time.GetOr(defaultText))
  }

  const DefaultCloseText: string := "22:00"
  const DefaultCloseHour: int := 22
  const DefaultOpenText: string := "00:00"
  const DefaultOpenHour: int := 0

  function MarketCloseHour(cal: Calendar, day: int): Option<int> {
    MarketHour(cal.marketOpen, day, DefaultCloseText, DefaultCloseHour)
  }

  function MarketOpenHour(cal: Calendar, day: int): Option<int> {
    MarketHour(cal.marketOpen, day, DefaultOpenText, DefaultOpenHour)
  }

  /** An entry for the day that gives no time reads the same hour as having
      no entry for that day at all: the default texts agree with the default hours. */
  lemma {:induction false} UntimedEntryMeansDefault(cal: Calendar, day: int)
    requires FirstEntryFor(cal.marketOpen, day).Some?
    requires cal.marketOpen[FirstEntryFor(cal.marketOpen, day).value].time.None?
    ensures MarketCloseHour(cal, day) == MarketCloseHour(Calendar(cal.weekendTrading, []), day) == Some(22)
    ensures MarketOpenHour(cal, day) == MarketOpenHour(Calendar(cal.weekendTrading, []), day) == Some(0)
  {
    assert SplitHead(DefaultCloseText, ':') == "22" by {
      assert DefaultCloseText[1..] == "2:00" && DefaultCloseText[2..] == ":00";
    }
    assert DigitsValue("22") == 22 by {
      assert "22"[..1] == "2" && "2"[..0] == "";
    }
    assert SplitHead(DefaultOpenText, ':') == "00" by {
      assert DefaultOpenText[1..] == "0:00" && DefaultOpenText[2..] == ":00";
    }
    assert DigitsValue("00") == 0 by {
      assert "00"[..1] == "0" && "0"[..0] == "";
    }
  }

  /** `_is_weekend_gap(start, end)`: with weekend trading off, a gap from a
      Friday at or after the Friday close hour to a Monday at or before the
      Monday open hour.  The hours are looked up only for a Friday-to-Monday
      gap.  `None` is an exception: the `calendar` section is missing, or a
      looked-up hour cannot be read. */
  function IsWeekendGap(cal: Option<Calendar>, start: int, end: int): (r: Option<bool>)
    ensures r.None? <==> || cal.None?
                         || (&& !cal.value.weekendTrading && Weekday(end) == Monday && Weekday(start) == Friday
                             && (MarketCloseHour(cal.value, Friday).None? || MarketOpenHour(cal.value, Monday).None?))
    ensures r == Some(true) <==> && cal.Some? && !cal.value.weekendTrading
                                 && Weekday(start) == Friday && Weekday(end) == Monday
                                 && MarketCloseHour(cal.value, Friday).Some? && MarketOpenHour(cal.value, Monday).Some?
                                 && Hour(start) >= MarketCloseHour(cal.value, Friday).value
                                 && Hour(end) <= MarketOpenHour(cal.value, Monday).value
  {
    match cal
    case None => None
    case Some(c) =>
      if c.weekendTrading || Weekday(end) != Monday || Weekday(start) != Friday then Some(false)
      else match (MarketCloseHour(c, Friday), MarketOpenHour(c, Monday))
        case (Some(close), Some(open)) => Some(Hour(start) >= close && Hour(end) <= open)
        case _ => None
  }

  /** The test reads only weekdays and hours, so moving either end of a gap
      by whole weeks does not change its verdict: a gap from one Friday night
      to a Monday morning weeks later counts as a weekend gap as well. */
  lemma WeekendGapIgnoresWholeWeeks(cal: Option<Calendar>, start: int, end: int, w: int)
    ensures IsWeekendGap(cal, start, end + w * SecondsPerWeek) == IsWeekendGap(cal, start, end)
  {
    ShiftByWeeks(end, w);
  }

  /** With the default calendar, the gap from Friday 22:00 to the Monday
      00:00 right after (1970-01-02 was a Friday) is a weekend gap, and so is the one ending a week later. */
  lemma DefaultWeekendExample()
    ensures IsWeekendGap(Some(Calendar(false, [])), 86400 + 79200, 86400 * 4) == Some(true)
    ensures IsWeekendGap(Some(Calendar(false, [])), 86400 + 79200, 86400 * 4 + SecondsPerWeek) == Some(true)
  {
    WeekendGapIgnoresWholeWeeks(Some(Calendar(false, [])), 86400 + 79200, 86400 * 4, 1);
  }
}
