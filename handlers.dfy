/**
 * parseTimeRange of api/handlers.go: the [start, end] window, in Unix
 * seconds, that the checks endpoint reads from its query string.
 */
module Handlers {
  import opened Results
  import Decimal

  const NanosPerSecond: int := 1_000_000_000
  /** time.Hour, in nanoseconds like every time.Duration. */
  const Hour: int := 3600 * NanosPerSecond
  const DefaultRange: int := 24 * Hour

  datatype TimeRange = TimeRange(start: int, end: int)

  /** time.Time.Unix of an instant given in nanoseconds since the epoch: it rounds down. */
  function Unix(t: int): int {
    t / NanosPerSecond
  }

  /**
   * The shape every string time.ParseDuration accepts: "0" with an optional
   * sign, or a string ending in the last letter of one of its units
   * ns, us, µs, μs, ms, s, m, h.
   */
  predicate GoDurationShape(s: string) {
    s == "0" || s == "+0" || s == "-0" || (|s| > 0 && (s[|s| - 1] == 's' || s[|s| - 1] == 'm' || s[|s| - 1] == 'h'))
  }

  /**
   * parseDuration stands for time.ParseDuration: it accepts only strings of
   * Go's duration shape, and what it returns is an int64 Duration.
   */
  ghost predicate LikeParseDuration(parseDuration: string -> Option<int>) {
    forall s :: parseDuration(s).Some? ==>
      GoDurationShape(s) && Decimal.Int64Min <= parseDuration(s).value <= Decimal.Int64Max
  }

  /** The duration the preset branch goes back from now: 24h, a day preset, or the parsed range. */
  function PresetDuration(rangeParam: string, parseDuration: string -> Option<int>): int
    requires rangeParam == "" || parseDuration(rangeParam).Some?
  {
    if rangeParam == "" then DefaultRange
    else if rangeParam == "7d" then 7 * 24 * Hour
    else if rangeParam == "30d" then 30 * 24 * Hour
    else parseDuration(rangeParam).value
  }

  /** -d on a time.Duration: int64 negation, which leaves MinInt64 as it is. */
  function NegateDuration(d: int): int {
    if d == Decimal.Int64Min then d else -d
  }

  /**
   * parseTimeRange as written. endTime, startTime and rangeParam are the
   * query values (Query().Get gives "" for an absent key); now is the
   * current instant in nanoseconds; parseDuration is time.ParseDuration.
   */
  function ParseTimeRange(endTime: string, startTime: string, rangeParam: string, now: int,
                          parseDuration: string -> Option<int>): (r: Result<TimeRange>)
    ensures r.Ok? && startTime != "" ==> r.value.start <= r.value.end
    ensures r.Ok? && endTime == "" ==> r.value.end == Unix(now)
    ensures r.Ok? && endTime != "" ==> Decimal.ParseInt64(endTime) == Some(r.value.end)
  {
    var parsedEnd := if endTime != "" then Decimal.ParseInt64(endTime) else Some(Unix(now));
    if parsedEnd.None? then Err("invalid end_time parameter")
    else
      var end := parsedEnd.value;
      if startTime != "" then
        var parsedStart := Decimal.ParseInt64(startTime);
        if parsedStart.None? then Err("invalid start_time parameter")
        else if parsedStart.value > end then Err("start_time cannot be after end_time")
        else Ok(TimeRange(parsedStart.value, end))
      else if rangeParam != "" && parseDuration(rangeParam).None? then
        Err("invalid range parameter, use formats like '1h', '24h', '7d', '30d'")
      else Ok(TimeRange(Unix(now + NegateDuration(PresetDuration(rangeParam, parseDuration))), end))
  }

  /** A non-empty end_time that is not a base-10 64-bit integer is rejected. */
  lemma BadEndTimeRejected(endTime: string, startTime: string, rangeParam: string, now: int,
                           parseDuration: string -> Option<int>)
    requires endTime != "" && Decimal.ParseInt64(endTime).None?
    ensures ParseTimeRange(endTime, startTime, rangeParam, now, parseDuration) == Err("invalid end_time parameter")
  {
  }

  /**
   * A present start_time decides the start: range is never consulted, and
   * the window is returned only when start does not exceed end.
   */
  lemma StartTimeOverridesRange(endTime: string, startTime: string, range1: string, range2: string, now: int,
                                pd1: string -> Option<int>, pd2: string -> Option<int>)
    requires startTime != ""
    ensures ParseTimeRange(endTime, startTime, range1, now, pd1) == ParseTimeRange(endTime, startTime, range2, now, pd2)
    ensures var r := ParseTimeRange(endTime, startTime, range1, now, pd1);
            r.Ok? <==> (Decimal.ParseInt64(startTime).Some? &&
                        (endTime == "" || Decimal.ParseInt64(endTime).Some?) &&
                        Decimal.ParseInt64(startTime).value <= (if endTime == "" then Unix(now) else Decimal.ParseInt64(endTime).value))
    ensures var r := ParseTimeRange(endTime, startTime, range1, now, pd1);
            r.Ok? ==> r.value.start == Decimal.ParseInt64(startTime).value
  {
  }

  /** With neither start_time nor range the window is the last 24 hours. */
  lemma DefaultIsLastDay(endTime: string, now: int, parseDuration: string -> Option<int>)
    requires endTime == "" || Decimal.ParseInt64(endTime).Some?
    ensures var r := ParseTimeRange(endTime, "", "", now, parseDuration);
            r.Ok? && r.value.start == Unix(now) - 86400
  {
    assert (now - DefaultRange) / NanosPerSecond == now / NanosPerSecond - 86400;
  }

  /** A range that ParseDuration rejects is an error. */
  lemma BadRangeRejected(endTime: string, rangeParam: string, now: int, parseDuration: string -> Option<int>)
    requires endTime == "" || Decimal.ParseInt64(endTime).Some?
    requires rangeParam != "" && parseDuration(rangeParam).None?
    ensures ParseTimeRange(endTime, "", rangeParam, now, parseDuration).Err?
  {
  }

  /**
   * The preset branch has no ordering check: any explicit end_time before
   * now minus the duration comes back as a window whose start exceeds its end.
   */
  lemma PresetWindowUnordered(endTime: string, rangeParam: string, now: int,
                              parseDuration: string -> Option<int>, e: int)
    requires Decimal.ParseInt64(endTime) == Some(e)
    requires rangeParam == "" || parseDuration(rangeParam).Some?
    requires e < Unix(now + NegateDuration(PresetDuration(rangeParam, parseDuration)))
    ensures var r := ParseTimeRange(endTime, "", rangeParam, now, parseDuration);
            r == Ok(TimeRange(Unix(now + NegateDuration(PresetDuration(rangeParam, parseDuration))), e)) &&
            r.value.start > r.value.end
  {
  }

  /**
   * A parsed duration of MinInt64 ("-9223372036854775808ns") is its own
   * negation, so the window starts about 292 years before now, not after.
   */
  lemma MinDurationWraps(endTime: string, rangeParam: string, now: int, parseDuration: string -> Option<int>)
    requires endTime == "" || Decimal.ParseInt64(endTime).Some?
    requires rangeParam != "" && rangeParam != "7d" && rangeParam != "30d"
    requires parseDuration(rangeParam) == Some(Decimal.Int64Min)
    ensures var r := ParseTimeRange(endTime, "", rangeParam, now, parseDuration);
            r.Ok? && r.value.start == Unix(now + Decimal.Int64Min) && r.value.start < Unix(now)
  {
  }

  /** Such inputs exist: end_time "5" with the default 24-hour range at Unix time 100000. */
  lemma PresetWindowUnorderedExample(parseDuration: string -> Option<int>)
    ensures var r := ParseTimeRange("5", "", "", 100000 * NanosPerSecond, parseDuration);
            r.Ok? && r.value.start > r.value.end
  {
    assert Decimal.ParseInt64("5") == Some(5) by {
      assert "5"[0] != '+' && "5"[0] != '-';
      assert Decimal.AllDigits("5");
      assert "5"[..0] == "";
      assert Decimal.DigitsValue("5") == 5;
    }
    PresetWindowUnordered("5", "", 100000 * NanosPerSecond, parseDuration, 5);
  }

  /**
   * "7d" and "30d" are rejected by ParseDuration (Go has no day unit), so
   * the day presets that parseTimeRange special-cases are never reached.
   */
  lemma DayPresetsRejected(endTime: string, now: int, parseDuration: string -> Option<int>)
    requires LikeParseDuration(parseDuration)
    requires endTime == "" || Decimal.ParseInt64(endTime).Some?
    ensures ParseTimeRange(endTime, "", "7d", now, parseDuration).Err?
    ensures ParseTimeRange(endTime, "", "30d", now, parseDuration).Err?
  {
    assert !GoDurationShape("7d");
    assert !GoDurationShape("30d");
  }

  /**
   * parseTimeRange as its comment and documented presets intend: "7d" and
   * "30d" are recognised before the string is handed to ParseDuration.
   */
  function ParseTimeRangeWithDays(endTime: string, startTime: string, rangeParam: string, now: int,
                                  parseDuration: string -> Option<int>): (r: Result<TimeRange>)
    ensures r.Ok? && startTime != "" ==> r.value.start <= r.value.end
    ensures r.Ok? && endTime == "" ==> r.value.end == Unix(now)
  {
    if startTime == "" && (rangeParam == "7d" || rangeParam == "30d") then
      var parsedEnd := if endTime != "" then Decimal.ParseInt64(endTime) else Some(Unix(now));
      if parsedEnd.None? then Err("invalid end_time parameter")
      else
        var days := if rangeParam == "7d" then 7 else 30;
        Ok(TimeRange(Unix(now - days * 24 * Hour), parsedEnd.value))
    else ParseTimeRange(endTime, startTime, rangeParam, now, parseDuration)
  }

  /** With the correction the day presets give the last 7 or 30 days. */
  lemma DayPresetsAccepted(endTime: string, now: int, parseDuration: string -> Option<int>)
    requires endTime == "" || Decimal.ParseInt64(endTime).Some?
    ensures var r := ParseTimeRangeWithDays(endTime, "", "7d", now, parseDuration);
            r.Ok? && r.value.start == Unix(now) - 7 * 86400
    ensures var r := ParseTimeRangeWithDays(endTime, "", "30d", now, parseDuration);
            r.Ok? && r.value.start == Unix(now) - 30 * 86400
  {
    assert (now - 7 * 24 * Hour) / NanosPerSecond == now / NanosPerSecond - 7 * 86400;
    assert (now - 30 * 24 * Hour) / NanosPerSecond == now / NanosPerSecond - 30 * 86400;
  }

  /** On every other input the correction changes nothing. */
  lemma DayPresetsOnlyChange(endTime: string, startTime: string, rangeParam: string, now: int,
                             parseDuration: string -> Option<int>)
    requires startTime != "" || (rangeParam != "7d" && rangeParam != "30d")
    ensures ParseTimeRangeWithDays(endTime, startTime, rangeParam, now, parseDuration)
         == ParseTimeRange(endTime, startTime, rangeParam, now, parseDuration)
  {
  }
}
