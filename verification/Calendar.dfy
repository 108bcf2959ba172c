/** Instants, local clocks and the search for the one instant behind a local clock time. */
module Calendar {
  import opened Options
  import opened Arithmetic
  import opened Durations

  /** No availability is resolved over a longer range. */
  const MAX_RESOLVE_DAYS := 90

  /** `offset` is the distance of the local clock from UTC at an instant; `pick` is the instant chosen by
      Go's `time.Date` for a local clock time, which is only right under one of the offsets near it. */
  datatype Zone = Zone(offset: int -> int, pick: int -> int)

  /** The offsets of Europe/Vienna: one hour, and two hours in summer. Nothing is said about when they change. */
  ghost predicate OneOrTwoHours(zone: Zone) {
    && (forall t :: zone.offset(t) == HOUR || zone.offset(t) == 2 * HOUR)
    && (forall wall :: zone.pick(wall) == wall - HOUR || zone.pick(wall) == wall - 2 * HOUR)
  }

  function LocalClock(zone: Zone, t: int): int {
    t + zone.offset(t)
  }

  function LocalDay(zone: Zone, t: int): int {
    LocalClock(zone, t) / DAY
  }

  /** The first instant of a local day as Go's `time.Date` and `ParseInLocation` give it. */
  function Midnight(zone: Zone, day: int): int {
    zone.pick(day * DAY)
  }

  /** `t` is the only instant whose local clock shows `wall`. */
  ghost predicate IsOnlyInstant(zone: Zone, wall: int, t: int) {
    LocalClock(zone, t) == wall && forall u :: LocalClock(zone, u) == wall ==> u == t
  }

  ghost function OnlyInstant(zone: Zone, wall: int): Option<int> {
    if t :| IsOnlyInstant(zone, wall, t) then Some(t) else None
  }

  /** The instant one hour behind the wall clock shows it. */
  ghost predicate ShownInWinter(zone: Zone, wall: int) {
    zone.offset(wall - HOUR) == HOUR
  }

  /** The instant two hours behind the wall clock shows it. */
  ghost predicate ShownInSummer(zone: Zone, wall: int) {
    zone.offset(wall - 2 * HOUR) == 2 * HOUR
  }

  /** Which instants show a clock time is decided by the offsets at two of them. */
  lemma WhoShows(zone: Zone, wall: int, t: int)
    requires OneOrTwoHours(zone)
    ensures LocalClock(zone, t) == wall <==>
            (t == wall - HOUR && ShownInWinter(zone, wall)) || (t == wall - 2 * HOUR && ShownInSummer(zone, wall))
  {
    assert zone.offset(t) == HOUR || zone.offset(t) == 2 * HOUR;
  }

  /** A clock time has no single instant exactly when both hours show it, and it is repeated, or neither does, and it is
      skipped; a caller can tell by looking at two offsets. */
  lemma NoOnlyInstantMeansGapOrRepeat(zone: Zone, wall: int)
    requires OneOrTwoHours(zone)
    ensures OnlyInstant(zone, wall).None? <==> (ShownInWinter(zone, wall) <==> ShownInSummer(zone, wall))
    ensures ShownInWinter(zone, wall) && ShownInSummer(zone, wall) <==>
            exists t, u :: t != u && LocalClock(zone, t) == wall && LocalClock(zone, u) == wall
    ensures !ShownInWinter(zone, wall) && !ShownInSummer(zone, wall) <==> forall t :: LocalClock(zone, t) != wall
    ensures OnlyInstant(zone, wall).Some? ==>
            OnlyInstant(zone, wall).value == if ShownInWinter(zone, wall) then wall - HOUR else wall - 2 * HOUR
  {
    var early, late := wall - 2 * HOUR, wall - HOUR;
    forall t ensures LocalClock(zone, t) == wall <==>
      (t == late && ShownInWinter(zone, wall)) || (t == early && ShownInSummer(zone, wall))
    {
      WhoShows(zone, wall, t);
    }
    assert LocalClock(zone, late) == wall <==> ShownInWinter(zone, wall);
    assert LocalClock(zone, early) == wall <==> ShownInSummer(zone, wall);
    if ShownInWinter(zone, wall) && !ShownInSummer(zone, wall) { assert IsOnlyInstant(zone, wall, late); }
    if ShownInSummer(zone, wall) && !ShownInWinter(zone, wall) { assert IsOnlyInstant(zone, wall, early); }
  }

  lemma ShownWithinAnHour(zone: Zone, wall: int, t: int)
    requires OneOrTwoHours(zone) && LocalClock(zone, t) == wall
    ensures t == zone.pick(wall) - HOUR || t == zone.pick(wall) || t == zone.pick(wall) + HOUR
  {
    assert zone.offset(t) == HOUR || zone.offset(t) == 2 * HOUR;
    assert zone.pick(wall) == wall - HOUR || zone.pick(wall) == wall - 2 * HOUR;
  }

  /** Looking an hour either way settles the search: whatever matches there is all that matches. */
  lemma SearchSettles(zone: Zone, wall: int, matches: seq<int>)
    requires OneOrTwoHours(zone)
    requires forall m :: m in matches ==> LocalClock(zone, m) == wall
    requires forall step :: -1 <= step <= 1 && LocalClock(zone, zone.pick(wall) + step * HOUR) == wall ==>
      zone.pick(wall) + step * HOUR in matches
    requires forall i, j :: 0 <= i < j < |matches| ==> matches[i] != matches[j]
    ensures OnlyInstant(zone, wall) == if |matches| == 1 then Some(matches[0]) else None
  {
    forall m | LocalClock(zone, m) == wall ensures m in matches {
      var pick := zone.pick(wall);
      ShownWithinAnHour(zone, wall, m);
      assert m == pick + (-1) * HOUR || m == pick + 0 * HOUR || m == pick + 1 * HOUR;
    }
    if |matches| == 1 {
      assert matches[0] in matches;
      assert IsOnlyInstant(zone, wall, matches[0]);
    } else if |matches| > 1 {
      assert matches[0] in matches && matches[1] in matches;
    }
  }

  lemma HoursPerDay(local: int)
    ensures 0 <= local % DAY / HOUR < 24
  {
  }

  lemma FieldsOf(date: int, hour: int, minuteOfHour: int)
    requires 0 <= minuteOfHour < 60
    ensures var local := date * DAY + hour * HOUR + minuteOfHour * MINUTE;
            && local % HOUR / MINUTE == minuteOfHour
            && (local / DAY == date <==> 0 <= hour < 24)
            && (0 <= hour < 24 ==> local % DAY / HOUR == hour)
  {
    var local := date * DAY + hour * HOUR + minuteOfHour * MINUTE;
    DivideBy(local, HOUR, date * 24 + hour, minuteOfHour * MINUTE);
    DivideBy(minuteOfHour * MINUTE, MINUTE, minuteOfHour, 0);
    if 0 <= hour < 24 {
      DivideBy(local, DAY, date, hour * HOUR + minuteOfHour * MINUTE);
      DivideBy(hour * HOUR + minuteOfHour * MINUTE, HOUR, hour, minuteOfHour * MINUTE);
    }
  }

  /** A clock that is off by whole hours shows the wanted fields only when it is not off at all. */
  lemma DriftedFields(local: int, date: int, minute: nat, drift: int)
    requires local == date * DAY + (minute / 60 + drift) * HOUR + minute % 60 * MINUTE
    ensures (local / DAY == date && local % DAY / HOUR == minute / 60 && local % HOUR / MINUTE == minute % 60)
            <==> (local == date * DAY + minute * MINUTE && minute < 24 * 60)
  {
    var hour, minuteOfHour := minute / 60, minute % 60;
    FieldsOf(date, hour + drift, minuteOfHour);
    HoursPerDay(local);
    assert local == date * DAY + minute * MINUTE + drift * HOUR;
  }

  lemma ClockFields(zone: Zone, date: int, minute: nat, candidate: int, step: int)
    requires OneOrTwoHours(zone) && -2 <= step <= 2
    requires candidate == date * DAY + minute * MINUTE - HOUR || candidate == date * DAY + minute * MINUTE - 2 * HOUR
    ensures var local := LocalClock(zone, candidate + step * HOUR);
            (local / DAY == date && local % DAY / HOUR == minute / 60 && local % HOUR / MINUTE == minute % 60)
            <==> (local == date * DAY + minute * MINUTE && minute < 24 * 60)
  {
    var value := candidate + step * HOUR;
    var hour, minuteOfHour := minute / 60, minute % 60;
    var drift := step + (if zone.offset(value) == HOUR then 1 else 2)
                      - (if candidate == date * DAY + minute * MINUTE - HOUR then 1 else 2);
    assert LocalClock(zone, value) == date * DAY + (hour + drift) * HOUR + minuteOfHour * MINUTE;
    DriftedFields(LocalClock(zone, value), date, minute, drift);
  }

  /** The instant of a minute of a local day, unless that clock time is skipped or repeated. */
  method StrictLocal(zone: Zone, date: int, minute: nat) returns (result: Option<int>)
    requires OneOrTwoHours(zone)
    ensures minute < 24 * 60 ==> result == OnlyInstant(zone, date * DAY + minute * MINUTE)
    ensures minute >= 24 * 60 ==> result == None
  {
    var hour := minute / 60;
    var minuteOfHour := minute % 60;
    var wall := date * DAY + hour * HOUR + minuteOfHour * MINUTE;
    assert wall == date * DAY + minute * MINUTE;
    var candidate := zone.pick(wall);
    assert candidate == wall - HOUR || candidate == wall - 2 * HOUR;
    var matches: seq<int> := [];
    for step := -2 to 3
      invariant forall i, j :: 0 <= i < j < |matches| ==> matches[i] != matches[j]
      invariant minute >= 24 * 60 ==> matches == []
      invariant forall m :: m in matches ==> LocalClock(zone, m) == wall
      invariant minute < 24 * 60 ==> forall s :: -2 <= s < step && LocalClock(zone, candidate + s * HOUR) == wall ==>
        candidate + s * HOUR in matches
    {
      var value := candidate + step * HOUR;
      var local := LocalClock(zone, value);
      ClockFields(zone, date, minute, candidate, step);
      if local / DAY == date && local % DAY / HOUR == hour && local % HOUR / MINUTE == minuteOfHour {
        if value !in matches {
          matches := matches + [value];
        }
      }
    }
    if minute < 24 * 60 { SearchSettles(zone, wall, matches); }
    result := if |matches| == 1 then Some(matches[0]) else None;
  }

  lemma WholeMinutes(zone: Zone, minutes: int, local: int, step: int)
    requires OneOrTwoHours(zone) && local == zone.pick(minutes * MINUTE) + step * HOUR
    ensures LocalClock(zone, local) / MINUTE == minutes <==> LocalClock(zone, local) == minutes * MINUTE
  {
    assert zone.offset(local) == HOUR || zone.offset(local) == 2 * HOUR;
    var wall := minutes * MINUTE;
    assert zone.pick(wall) == wall - HOUR || zone.pick(wall) == wall - 2 * HOUR;
    var drift := (LocalClock(zone, local) - wall) / HOUR;
    assert LocalClock(zone, local) == (minutes + 60 * drift) * MINUTE;
  }

  datatype ParseError = ValidationError | LocalTimeError
  datatype Parsed = Instant(utc: int) | Rejected(error: ParseError)

  /** Reads an HTML local date and time; `parsed` is the clock time in minutes, or None when the text is malformed. */
  method ParseLocalDateTime(zone: Option<Zone>, parsed: Option<int>) returns (result: Parsed)
    requires zone.Some? ==> OneOrTwoHours(zone.value)
    ensures zone.None? || parsed.None? <==> result == Rejected(ValidationError)
    ensures zone.Some? && parsed.Some? ==>
      result == match OnlyInstant(zone.value, parsed.value * MINUTE)
                case Some(t) => Instant(t)
                case None => Rejected(LocalTimeError)
  {
    if zone.None? || parsed.None? {
      return Rejected(ValidationError);
    }
    var z, wall := zone.value, parsed.value * MINUTE;
    var candidate := z.pick(wall);
    assert candidate == wall - HOUR || candidate == wall - 2 * HOUR;
    var matches: seq<int> := [];
    for step := -2 to 3
      invariant forall i, j :: 0 <= i < j < |matches| ==> matches[i] != matches[j]
      invariant forall m :: m in matches ==> LocalClock(z, m) == wall
      invariant forall s :: -2 <= s < step && LocalClock(z, candidate + s * HOUR) == wall ==>
        candidate + s * HOUR in matches
    {
      var local := candidate + step * HOUR;
      WholeMinutes(z, parsed.value, local, step);
      if LocalClock(z, local) / MINUTE != parsed.value {
        continue;
      }
      if local !in matches {
        matches := matches + [local];
      }
    }
    SearchSettles(z, wall, matches);
    result := if |matches| != 1 then Rejected(LocalTimeError) else Instant(matches[0]);
  }
}
