/** The bounded search for feasible slots over days, times of day, drivers and resource choices. */
module SuggestionSearch {
  import opened Options
  import opened Arithmetic
  import opened Durations
  import opened RouteTimetable
  import opened Feasibility
  import opened Suggestions
  import opened Shortlist

  datatype Config = Config(open: int, close: int, slotMinutes: int, horizonDays: int, bufferMinutes: int, limit: int,
                           restIsValid: bool)

  /** Opening hours within a day, slots that divide the hour, and bounds for the days, the buffer and the search. */
  ghost predicate ValidConfig(c: Config) {
    && 0 <= c.open < c.close <= 1440 && 5 <= c.slotMinutes <= 60 && 60 % c.slotMinutes == 0
    && 1 <= c.horizonDays <= 90 && 0 <= c.bufferMinutes <= 240 && 10 <= c.limit <= 10000 && c.restIsValid
  }

  method Validate(c: Config) returns (ok: bool)
    ensures ok <==> ValidConfig(c)
  {
    if c.open < 0 || c.close > 24 * 60 || c.close <= c.open || c.slotMinutes < 5 || c.slotMinutes > 60
       || 60 % c.slotMinutes != 0 || c.horizonDays < 1 || c.horizonDays > 90 || c.bufferMinutes < 0
       || c.bufferMinutes > 240 || c.limit < 10 || c.limit > 10000 || !c.restIsValid {
      return false;
    }
    ok := true;
  }

  /** The local calendar: which days ahead are Monday to Friday, and the instant of a local time of day. */
  datatype Calendar = Calendar(isWeekday: int -> bool, instant: (int, int) -> int)

  datatype Search = Search(config: Config, calendar: Calendar, now: int, minutes: int, drivers: seq<Driver>,
                           choices: seq<Choice>, roads: Roads, scoreOf: Candidate -> Score)

  // ---------- All candidates, in the order they are tried ----------

  /** The minute of the day at which slot `k` starts. */
  ghost function SlotMinute(s: Search, k: nat): int {
    if k == 0 then s.config.open else SlotMinute(s, k - 1) + s.config.slotMinutes
  }

  ghost predicate FitsDay(s: Search, k: nat) {
    SlotMinute(s, k) + s.minutes <= s.config.close
  }

  lemma {:induction false} SlotMinuteIsLinear(s: Search, k: nat)
    ensures SlotMinute(s, k) == s.config.open + k * s.config.slotMinutes
  {
    if k > 0 { SlotMinuteIsLinear(s, k - 1); }
  }

  ghost function SlotsPerDay(s: Search): nat
    requires ValidConfig(s.config)
  {
    var room := s.config.close - s.config.open - s.minutes;
    if room < 0 then 0 else room / s.config.slotMinutes + 1
  }

  lemma SlotsPerDayFit(s: Search, k: nat)
    requires ValidConfig(s.config)
    ensures FitsDay(s, k) <==> k < SlotsPerDay(s)
  {
    SlotMinuteIsLinear(s, k);
    var room, step := s.config.close - s.config.open - s.minutes, s.config.slotMinutes;
    if room >= 0 {
      WholeMultiple(k - room / step, step);
      assert room == room / step * step + room % step;
      assert k * step == (k - room / step) * step + room / step * step;
    } else {
      assert k * step >= 0;
    }
  }

  ghost function SlotStart(s: Search, day: int, k: nat): int {
    s.calendar.instant(day, SlotMinute(s, k))
  }

  /** The first `n` slots of a day that are not over yet. */
  ghost function DayStarts(s: Search, day: int, n: nat): seq<int> {
    if n == 0 then []
    else DayStarts(s, day, n - 1) + if SlotStart(s, day, n - 1) >= s.now then [SlotStart(s, day, n - 1)] else []
  }

  /** The slots of the weekdays among the first `days` days. */
  ghost function AllStarts(s: Search, days: nat): seq<int>
    requires ValidConfig(s.config)
  {
    if days == 0 then []
    else AllStarts(s, days - 1) + if s.calendar.isWeekday(days - 1) then DayStarts(s, days - 1, SlotsPerDay(s)) else []
  }

  ghost function Slot(s: Search, driver: Driver, choice: Choice, starts: int): Candidate {
    Candidate(driver, choice, starts, starts + s.minutes * 60_000_000_000)
  }

  ghost function ForDriver(s: Search, driver: Driver, starts: int): (r: seq<Candidate>)
    ensures |r| == |s.choices| && forall k :: 0 <= k < |r| ==> r[k] == Slot(s, driver, s.choices[k], starts)
  {
    seq(|s.choices|, k requires 0 <= k < |s.choices| => Slot(s, driver, s.choices[k], starts))
  }

  ghost function ForDrivers(s: Search, drivers: seq<Driver>, starts: int): seq<Candidate> {
    if drivers == [] then []
    else ForDrivers(s, drivers[..|drivers| - 1], starts) + ForDriver(s, drivers[|drivers| - 1], starts)
  }

  ghost function Candidates(s: Search, starts: seq<int>): seq<Candidate> {
    if starts == [] then []
    else Candidates(s, starts[..|starts| - 1]) + ForDrivers(s, s.drivers, starts[|starts| - 1])
  }

  lemma {:induction false} ForDriversPrefix(s: Search, drivers: seq<Driver>, starts: int, n: nat)
    requires n <= |drivers|
    ensures ForDrivers(s, drivers[..n], starts) <= ForDrivers(s, drivers, starts)
    decreases |drivers|
  {
    if n == |drivers| {
      assert drivers[..n] == drivers;
    } else {
      ForDriversPrefix(s, drivers[..|drivers| - 1], starts, n);
      assert drivers[..|drivers| - 1][..n] == drivers[..n];
    }
  }

  lemma {:induction false} CandidatesPrefix(s: Search, tried: seq<int>, starts: seq<int>)
    requires tried <= starts
    ensures Candidates(s, tried) <= Candidates(s, starts)
    decreases |starts|
  {
    if |tried| < |starts| {
      CandidatesPrefix(s, tried, starts[..|starts| - 1]);
    } else {
      assert tried == starts;
    }
  }

  lemma {:induction false} DayStartsPrefix(s: Search, day: int, k: nat, n: nat)
    requires k <= n
    ensures DayStarts(s, day, k) <= DayStarts(s, day, n)
    decreases n
  {
    if k < n { DayStartsPrefix(s, day, k, n - 1); }
  }

  lemma {:induction false} AllStartsPrefix(s: Search, days: nat, total: nat)
    requires ValidConfig(s.config) && days <= total
    ensures AllStarts(s, days) <= AllStarts(s, total)
    decreases total
  {
    if days < total { AllStartsPrefix(s, days, total - 1); }
  }

  // ---------- Feasible candidates ----------

  ghost predicate Feasible(s: Search, c: Candidate) {
    && OnDuty(c.driver, c.starts, c.ends)
    && NotTaken(s.roads.reservations, c.starts, c.ends, c.driver.id, c.choice.ids)
    && TravelFits(s.roads, c.starts, c.ends)
  }

  ghost function FeasibleOf(s: Search, seen: seq<Candidate>): seq<Suggestion> {
    if seen == [] then []
    else
      var front, last := FeasibleOf(s, seen[..|seen| - 1]), seen[|seen| - 1];
      if Feasible(s, last) then front + [Suggestion(last, s.scoreOf(last))] else front
  }

  lemma {:induction false} FeasibleOfHolds(s: Search, seen: seq<Candidate>)
    ensures forall x :: x in FeasibleOf(s, seen) <==>
      x.candidate in seen && Feasible(s, x.candidate) && x.score == s.scoreOf(x.candidate)
  {
    if seen != [] {
      FeasibleOfHolds(s, seen[..|seen| - 1]);
      assert seen == seen[..|seen| - 1] + [seen[|seen| - 1]];
    }
  }

  /** How many candidates were checked, and the feasible ones among them. */
  datatype Progress = Progress(checked: nat, found: seq<Suggestion>)

  ghost predicate Covers(s: Search, p: Progress, seen: seq<Candidate>) {
    p.checked == |seen| && p.found == FeasibleOf(s, seen)
  }

  lemma OneMoreSeen(s: Search, p: Progress, seen: seq<Candidate>, c: Candidate)
    requires Covers(s, p, seen)
    ensures Feasible(s, c) ==> Covers(s, Progress(p.checked + 1, p.found + [Suggestion(c, s.scoreOf(c))]), seen + [c])
    ensures !Feasible(s, c) ==> Covers(s, Progress(p.checked + 1, p.found), seen + [c])
  {
    assert (seen + [c])[..|seen|] == seen;
  }

  method Check(s: Search, c: Candidate, p: Progress, ghost seen: seq<Candidate>) returns (next: Progress, feasible: bool)
    requires Covers(s, p, seen)
    ensures Covers(s, next, seen + [c]) && (feasible <==> Feasible(s, c))
  {
    OneMoreSeen(s, p, seen, c);
    AvailableMeansOnDuty(c.driver, c.starts, c.ends);
    NoConflictsMeansNotTaken(s.roads.reservations, c.starts, c.ends, c.driver.id, c.choice.ids);
    feasible := Available(c.driver.availability, c.starts, c.ends)
                && !Conflicts(s.roads.reservations, c.starts, c.ends, c.driver.id, c.choice.ids);
    if feasible {
      feasible := TravelFeasible(s.roads, c.starts, c.ends);
    }
    next := Progress(p.checked + 1, if feasible then p.found + [Suggestion(c, s.scoreOf(c))] else p.found);
  }

  // ---------- Where the search stops ----------

  /** The limit is reached, and the last candidate is feasible or the last choice of its driver. */
  ghost predicate StopsAt(s: Search, seen: seq<Candidate>, n: nat)
    requires n <= |seen|
  {
    n > 0 && n >= s.config.limit && s.choices != [] && (Feasible(s, seen[n - 1]) || n % |s.choices| == 0)
  }

  ghost predicate NoStopBefore(s: Search, seen: seq<Candidate>) {
    forall n: nat :: n < |seen| ==> !StopsAt(s, seen, n)
  }

  /** Below the limit, with every driver's choices tried. */
  ghost predicate GoesOn(s: Search, seen: seq<Candidate>) {
    |seen| < s.config.limit && (s.choices != [] ==> |seen| % |s.choices| == 0)
  }

  /** The first place to stop. */
  ghost predicate Stopped(s: Search, seen: seq<Candidate>) {
    NoStopBefore(s, seen) && StopsAt(s, seen, |seen|)
  }

  lemma RoundPosition(start: nat, k: nat, size: nat)
    requires size > 0 && start % size == 0
    ensures k < size ==> (start + k) % size == k
    ensures (start + size) % size == 0
  {
    var rounds := start / size;
    assert start == rounds * size;
    if k < size { DivideBy(start + k, size, rounds, k); }
    Distribute(rounds, 1, size);
    DivideBy(start + size, size, rounds + 1, 0);
  }

  lemma ChoiceGoesOn(s: Search, seen: seq<Candidate>, part: seq<Candidate>, c: Candidate)
    requires GoesOn(s, seen) && |part| < |s.choices| && NoStopBefore(s, seen + part)
    requires part != [] && |seen + part| >= s.config.limit ==> !Feasible(s, part[|part| - 1])
    ensures NoStopBefore(s, seen + part + [c])
  {
    var before, after := seen + part, seen + part + [c];
    RoundPosition(|seen|, |part|, |s.choices|);
    forall n: nat | n < |after| ensures !StopsAt(s, after, n) {
      if n < |before| {
        assert !StopsAt(s, before, n);
      } else if part != [] {
        assert after[n - 1] == part[|part| - 1];
      }
    }
  }

  lemma RoundIsOver(s: Search, seen: seq<Candidate>, part: seq<Candidate>)
    requires GoesOn(s, seen) && |part| == |s.choices| && NoStopBefore(s, seen + part)
    ensures if |seen + part| < s.config.limit then GoesOn(s, seen + part) else Stopped(s, seen + part)
  {
    if s.choices != [] { RoundPosition(|seen|, 0, |s.choices|); }
  }

  lemma SeenAssociates<T>(a: seq<T>, b: seq<T>, c: seq<T>)
    ensures (a + b) + c == a + (b + c)
  {
  }

  /** Tries one driver with each choice; stops once a feasible candidate reaches the limit. */
  method TryDriver(s: Search, driver: Driver, starts: int, p: Progress, ghost seen: seq<Candidate>)
    returns (next: Progress, ghost part: seq<Candidate>)
    requires Covers(s, p, seen) && GoesOn(s, seen)
    ensures Covers(s, next, seen + part) && part <= ForDriver(s, driver, starts)
    ensures if next.checked < s.config.limit then part == ForDriver(s, driver, starts) && GoesOn(s, seen + part)
            else Stopped(s, seen + part)
  {
    next, part := p, [];
    assert seen + [] == seen;
    for k := 0 to |s.choices|
      invariant Covers(s, next, seen + part) && part == ForDriver(s, driver, starts)[..k]
      invariant NoStopBefore(s, seen + part)
      invariant part != [] && next.checked >= s.config.limit ==> !Feasible(s, part[k - 1])
    {
      var c := Candidate(driver, s.choices[k], starts, starts + s.minutes * MINUTE);
      var feasible;
      next, feasible := Check(s, c, next, seen + part);
      ChoiceGoesOn(s, seen, part, c);
      SeenAssociates(seen, part, [c]);
      part := part + [c];
      if feasible && next.checked >= s.config.limit {
        return;
      }
    }
    RoundIsOver(s, seen, part);
  }

  lemma DriverAdds(s: Search, starts: int, part: seq<Candidate>, more: seq<Candidate>, k: nat)
    requires k < |s.drivers| && part == ForDrivers(s, s.drivers[..k], starts) && more <= ForDriver(s, s.drivers[k], starts)
    ensures part + more <= ForDrivers(s, s.drivers, starts)
    ensures more == ForDriver(s, s.drivers[k], starts) ==> part + more == ForDrivers(s, s.drivers[..k + 1], starts)
    ensures |more| <= |s.choices|
  {
    assert s.drivers[..k + 1][..k] == s.drivers[..k];
    ForDriversPrefix(s, s.drivers, starts, k + 1);
  }

  /** Tries every driver at one start; stops at the limit. */
  method TryStart(s: Search, starts: int, p: Progress, ghost seen: seq<Candidate>)
    returns (next: Progress, ghost part: seq<Candidate>)
    requires Covers(s, p, seen) && GoesOn(s, seen)
    ensures Covers(s, next, seen + part) && part <= ForDrivers(s, s.drivers, starts)
    ensures if next.checked < s.config.limit then part == ForDrivers(s, s.drivers, starts) && GoesOn(s, seen + part)
            else Stopped(s, seen + part)
    ensures next.checked < s.config.limit + |s.choices| || next == p
  {
    next, part := p, [];
    assert seen + [] == seen;
    for k := 0 to |s.drivers|
      invariant Covers(s, next, seen + part) && part == ForDrivers(s, s.drivers[..k], starts)
      invariant next.checked < s.config.limit && GoesOn(s, seen + part)
    {
      ghost var more;
      next, more := TryDriver(s, s.drivers[k], starts, next, seen + part);
      DriverAdds(s, starts, part, more, k);
      SeenAssociates(seen, part, more);
      part := part + more;
      if next.checked >= s.config.limit {
        return;
      }
    }
    assert s.drivers[..|s.drivers|] == s.drivers;
  }

  // ---------- The search ----------

  /** The starts gone through and what was seen: everything, unless the limit stopped the last one. */
  ghost predicate Searched(s: Search, tried: seq<int>, seen: seq<Candidate>, p: Progress) {
    && Covers(s, p, seen) && seen <= Candidates(s, tried)
    && (if p.checked < s.config.limit then seen == Candidates(s, tried) && GoesOn(s, seen) else Stopped(s, seen))
    && (p.checked < s.config.limit + |s.choices| || p.checked == 0)
  }

  lemma StartAdds(s: Search, tried: seq<int>, starts: int, part: seq<Candidate>)
    requires part <= ForDrivers(s, s.drivers, starts)
    ensures Candidates(s, tried) + part <= Candidates(s, tried + [starts])
    ensures part == ForDrivers(s, s.drivers, starts) ==> Candidates(s, tried) + part == Candidates(s, tried + [starts])
  {
    assert (tried + [starts])[..|tried|] == tried;
  }

  /** One more start gone through. */
  method SearchStart(s: Search, starts: int, p: Progress, ghost tried: seq<int>, ghost seen: seq<Candidate>)
    returns (next: Progress, ghost now: seq<Candidate>)
    requires Searched(s, tried, seen, p) && p.checked < s.config.limit
    ensures Searched(s, tried + [starts], now, next)
  {
    ghost var part;
    next, part := TryStart(s, starts, p, seen);
    StartAdds(s, tried, starts, part);
    now := seen + part;
  }

  /** Goes through the slots of a day that are not over; stops at the limit. */
  method SearchDay(s: Search, day: int, p: Progress, ghost tried: seq<int>, ghost seen: seq<Candidate>)
    returns (next: Progress, ghost more: seq<int>, ghost now: seq<Candidate>)
    requires ValidConfig(s.config) && Searched(s, tried, seen, p) && p.checked < s.config.limit
    ensures Searched(s, tried + more, now, next) && more <= DayStarts(s, day, SlotsPerDay(s))
    ensures more == DayStarts(s, day, SlotsPerDay(s)) || next.checked >= s.config.limit
  {
    next, more, now := p, [], seen;
    assert tried + [] == tried;
    var minute := s.config.open;
    ghost var k: nat := 0;
    while minute + s.minutes <= s.config.close && next.checked < s.config.limit
      invariant minute == SlotMinute(s, k) && k <= SlotsPerDay(s)
      invariant Searched(s, tried + more, now, next) && more == DayStarts(s, day, k)
      decreases s.config.close - minute - s.minutes
    {
      SlotsPerDayFit(s, k);
      var starts := s.calendar.instant(day, minute);
      minute := minute + s.config.slotMinutes;
      k := k + 1;
      if starts < s.now {
        continue;
      }
      next, now := SearchStart(s, starts, next, tried + more, now);
      SeenAssociates(tried, more, [starts]);
      more := more + [starts];
    }
    SlotsPerDayFit(s, k);
    DayStartsPrefix(s, day, k, SlotsPerDay(s));
  }

  /** The candidates of the whole horizon, its first and last day included. */
  ghost function Everything(s: Search): seq<Candidate>
    requires ValidConfig(s.config)
  {
    Candidates(s, AllStarts(s, s.config.horizonDays + 1))
  }

  /** A beginning of all candidates was checked, up to the first place to stop or to their end. */
  ghost predicate IsSearch(s: Search, seen: seq<Candidate>, found: seq<Suggestion>)
    requires ValidConfig(s.config)
  {
    && seen <= Everything(s) && NoStopBefore(s, seen) && (seen == Everything(s) || StopsAt(s, seen, |seen|))
    && |seen| < s.config.limit + |s.choices| && found == FeasibleOf(s, seen)
  }

  lemma EarlierStopIsSeen(s: Search, a: seq<Candidate>, b: seq<Candidate>)
    requires a <= b && StopsAt(s, a, |a|) && NoStopBefore(s, b)
    ensures a == b
  {
    if |a| < |b| { assert StopsAt(s, b, |a|); }
  }

  /** One search is made: which candidates are checked and which are found is settled by the configuration and the order. */
  lemma SearchIsUnique(s: Search, a: seq<Candidate>, found: seq<Suggestion>, b: seq<Candidate>, found': seq<Suggestion>)
    requires ValidConfig(s.config) && IsSearch(s, a, found) && IsSearch(s, b, found')
    ensures a == b && found == found'
  {
    var all := Everything(s);
    if |a| <= |b| {
      assert a <= b by { assert a == all[..|a|] && b == all[..|b|]; }
      if a != all { EarlierStopIsSeen(s, a, b); }
    } else {
      assert b <= a by { assert a == all[..|a|] && b == all[..|b|]; }
      EarlierStopIsSeen(s, b, a);
    }
  }

  lemma HorizonIsSearched(s: Search, tried: seq<int>, seen: seq<Candidate>, p: Progress, days: nat)
    requires ValidConfig(s.config) && Searched(s, tried, seen, p) && days <= s.config.horizonDays + 1 && tried <= AllStarts(s, days)
    requires p.checked >= s.config.limit || (days == s.config.horizonDays + 1 && tried == AllStarts(s, days))
    ensures IsSearch(s, seen, p.found)
  {
    AllStartsPrefix(s, days, s.config.horizonDays + 1);
    CandidatesPrefix(s, tried, AllStarts(s, s.config.horizonDays + 1));
  }

  method SearchHorizon(s: Search) returns (found: seq<Suggestion>, ghost seen: seq<Candidate>)
    requires ValidConfig(s.config)
    ensures IsSearch(s, seen, found)
  {
    var p := Progress(0, []);
    ghost var tried: seq<int> := [];
    seen := [];
    var day := 0;
    while day <= s.config.horizonDays && p.checked < s.config.limit
      invariant 0 <= day <= s.config.horizonDays + 1
      invariant Searched(s, tried, seen, p) && tried <= AllStarts(s, day)
      invariant tried == AllStarts(s, day) || p.checked >= s.config.limit
      decreases s.config.horizonDays + 1 - day
    {
      if s.calendar.isWeekday(day) {
        ghost var more;
        p, more, seen := SearchDay(s, day, p, tried, seen);
        tried := tried + more;
      }
      day := day + 1;
    }
    HorizonIsSearched(s, tried, seen, p, day);
    found := p.found;
  }

  // ---------- What the candidates have in common ----------

  /** A slot of a weekday within the horizon and the business hours that has not started. */
  ghost predicate IsSlot(s: Search, starts: int) {
    starts >= s.now && exists day, k: nat :: 0 <= day <= s.config.horizonDays && s.calendar.isWeekday(day)
                                        && FitsDay(s, k) && starts == SlotStart(s, day, k)
  }

  lemma {:induction false} DayStartsAreSlots(s: Search, day: int, n: nat)
    requires ValidConfig(s.config) && 0 <= day <= s.config.horizonDays && s.calendar.isWeekday(day) && n <= SlotsPerDay(s)
    ensures forall t :: t in DayStarts(s, day, n) ==> IsSlot(s, t)
  {
    if n > 0 {
      DayStartsAreSlots(s, day, n - 1);
      SlotsPerDayFit(s, n - 1);
    }
  }

  lemma {:induction false} AllStartsAreSlots(s: Search, days: nat)
    requires ValidConfig(s.config) && days <= s.config.horizonDays + 1
    ensures forall t :: t in AllStarts(s, days) ==> IsSlot(s, t)
  {
    if days > 0 {
      AllStartsAreSlots(s, days - 1);
      if s.calendar.isWeekday(days - 1) { DayStartsAreSlots(s, days - 1, SlotsPerDay(s)); }
    }
  }

  ghost predicate IsCandidate(s: Search, c: Candidate, starts: int) {
    c.driver in s.drivers && c.choice in s.choices && c.starts == starts && c.ends == starts + s.minutes * 60_000_000_000
  }

  lemma {:induction false} ForDriversHold(s: Search, drivers: seq<Driver>, starts: int)
    requires forall d :: d in drivers ==> d in s.drivers
    ensures forall c :: c in ForDrivers(s, drivers, starts) ==> IsCandidate(s, c, starts)
  {
    if drivers != [] {
      assert drivers[|drivers| - 1] in drivers;
      ForDriversHold(s, drivers[..|drivers| - 1], starts);
    }
  }

  lemma {:induction false} CandidatesHold(s: Search, starts: seq<int>)
    ensures forall c :: c in Candidates(s, starts) ==> c.starts in starts && IsCandidate(s, c, c.starts)
  {
    if starts != [] {
      CandidatesHold(s, starts[..|starts| - 1]);
      ForDriversHold(s, s.drivers, starts[|starts| - 1]);
      assert starts == starts[..|starts| - 1] + [starts[|starts| - 1]];
    }
  }

  /** What every suggestion promises: a slot ahead, a free driver, free resources, and time to get there and away. */
  ghost predicate IsSound(s: Search, x: Suggestion) {
    && IsSlot(s, x.candidate.starts) && IsCandidate(s, x.candidate, x.candidate.starts)
    && Feasible(s, x.candidate) && x.score == s.scoreOf(x.candidate)
  }

  lemma FoundIsSound(s: Search, seen: seq<Candidate>, found: seq<Suggestion>)
    requires ValidConfig(s.config) && IsSearch(s, seen, found)
    ensures forall x :: x in found ==> IsSound(s, x)
  {
    var starts := AllStarts(s, s.config.horizonDays + 1);
    FeasibleOfHolds(s, seen);
    CandidatesHold(s, starts);
    AllStartsAreSlots(s, s.config.horizonDays + 1);
    assert forall c :: c in seen ==> c in Everything(s);
  }

  // ---------- The points the router is asked about ----------

  const MOST_POINTS := 25

  /** The points that come first: the job's place and where drivers start, as far as they are known. */
  ghost function Heads(job: Job, defaultStart: Point): (heads: seq<Point>)
    ensures |heads| <= 2
  {
    (if job.location.Valid() then [job.location] else []) + (if defaultStart.Valid() then [defaultStart] else [])
  }

  /** The reservations whose place is known, in their order. */
  ghost function Located(reservations: seq<Reservation>): (located: seq<Reservation>)
    ensures forall r :: r in located ==> r.location.Valid()
  {
    if reservations == [] then []
    else
      var front, last := Located(reservations[..|reservations| - 1]), reservations[|reservations| - 1];
      if last.location.Valid() then front + [last] else front
  }

  lemma {:induction false} LocatedPrefix(reservations: seq<Reservation>, n: nat)
    requires n <= |reservations|
    ensures Located(reservations[..n]) <= Located(reservations)
    decreases |reservations|
  {
    if n == |reservations| {
      assert reservations[..n] == reservations;
    } else {
      LocatedPrefix(reservations[..|reservations| - 1], n);
      assert reservations[..|reservations| - 1][..n] == reservations[..n];
    }
  }

  lemma LocatedStep(reservations: seq<Reservation>, k: nat)
    requires k < |reservations|
    ensures Located(reservations[..k + 1]) ==
            if reservations[k].location.Valid() then Located(reservations[..k]) + [reservations[k]] else Located(reservations[..k])
  {
    assert reservations[..k + 1][..k] == reservations[..k];
  }

  /** The reservations the router is asked about: as many of the located ones, in order, as there is room for; none when
      the job's own place is not known. */
  ghost function Asked(job: Job, defaultStart: Point, reservations: seq<Reservation>): seq<Reservation> {
    var located, room := Located(reservations), 25 - |Heads(job, defaultStart)|;
    if !job.location.Valid() then [] else if |located| <= room then located else located[..room]
  }

  ghost function Places(reservations: seq<Reservation>): (points: seq<Point>)
    ensures |points| == |reservations|
  {
    seq(|reservations|, k requires 0 <= k < |reservations| => reservations[k].location)
  }

  ghost function AskedPoints(job: Job, defaultStart: Point, reservations: seq<Reservation>): seq<Point> {
    Heads(job, defaultStart) + Places(Asked(job, defaultStart, reservations))
  }

  ghost predicate IsLastOfItsName(asked: seq<Reservation>, k: nat)
    requires k < |asked|
  {
    forall j :: k < j < |asked| ==> asked[j].id != asked[k].id
  }

  ghost predicate HasName(asked: seq<Reservation>, id: string) {
    exists k :: 0 <= k < |asked| && asked[k].id == id
  }

  /** Every reservation asked about is found at its place after the first points, the last one of each name. */
  ghost predicate IsIndex(pointOf: map<string, int>, asked: seq<Reservation>, first: nat) {
    && (forall id :: id in pointOf <==> HasName(asked, id))
    && (forall k: nat :: k < |asked| && IsLastOfItsName(asked, k) ==> asked[k].id in pointOf && pointOf[asked[k].id] == first + k)
  }

  lemma OneMoreAsked(pointOf: map<string, int>, asked: seq<Reservation>, first: nat, r: Reservation)
    requires IsIndex(pointOf, asked, first)
    ensures IsIndex(pointOf[r.id := first + |asked|], asked + [r], first)
    ensures Places(asked + [r]) == Places(asked) + [r.location]
  {
    var more, index := asked + [r], pointOf[r.id := first + |asked|];
    forall id ensures id in index <==> HasName(more, id) {
      if HasName(asked, id) {
        var k :| 0 <= k < |asked| && asked[k].id == id;
        assert more[k].id == id;
      }
      if id == r.id { assert more[|asked|].id == id; }
    }
    forall k: nat | k < |more| && IsLastOfItsName(more, k) ensures more[k].id in index && index[more[k].id] == first + k {
      if k < |asked| {
        assert more[|asked|].id != more[k].id;
        forall j | k < j < |asked| ensures asked[j].id != asked[k].id {
          assert more[j].id != more[k].id;
        }
        assert IsLastOfItsName(asked, k);
      }
    }
  }

  /** The first points, then the places asked about, with their index. */
  ghost predicate Collected(heads: seq<Point>, asked: seq<Reservation>, points: seq<Point>, pointOf: map<string, int>) {
    points == heads + Places(asked) && IsIndex(pointOf, asked, |heads|)
  }

  lemma NothingCollected(heads: seq<Point>)
    ensures Collected(heads, [], heads, map[])
  {
    assert heads + Places([]) == heads;
  }

  lemma OneMoreCollected(heads: seq<Point>, asked: seq<Reservation>, points: seq<Point>, pointOf: map<string, int>, r: Reservation)
    requires Collected(heads, asked, points, pointOf)
    ensures Collected(heads, asked + [r], points + [r.location], pointOf[r.id := |points|])
  {
    OneMoreAsked(pointOf, asked, |heads|, r);
    assert heads + (Places(asked) + [r.location]) == (heads + Places(asked)) + [r.location];
  }

  lemma AskedIsBeginning(job: Job, defaultStart: Point, reservations: seq<Reservation>, k: nat)
    requires job.location.Valid() && k <= |reservations|
    requires |Heads(job, defaultStart)| + |Located(reservations[..k])| <= MOST_POINTS
    requires k == |reservations| || |Heads(job, defaultStart)| + |Located(reservations[..k])| == MOST_POINTS
    ensures Asked(job, defaultStart, reservations) == Located(reservations[..k])
  {
    LocatedPrefix(reservations, k);
    assert reservations[..|reservations|] == reservations;
  }

  /** The places of reservations, up to the number of points the router takes. */
  method CollectReservations(heads: seq<Point>, reservations: seq<Reservation>, ghost job: Job, ghost defaultStart: Point)
    returns (points: seq<Point>, pointOf: map<string, int>)
    requires job.location.Valid() && heads == Heads(job, defaultStart)
    ensures |points| <= MOST_POINTS && Collected(heads, Asked(job, defaultStart, reservations), points, pointOf)
  {
    points, pointOf := heads, map[];
    NothingCollected(heads);
    for k := 0 to |reservations|
      invariant |points| <= MOST_POINTS && Collected(heads, Located(reservations[..k]), points, pointOf)
    {
      if |points| >= MOST_POINTS {
        AskedIsBeginning(job, defaultStart, reservations, k);
        return;
      }
      LocatedStep(reservations, k);
      if reservations[k].location.Valid() {
        OneMoreCollected(heads, Located(reservations[..k]), points, pointOf, reservations[k]);
        pointOf := pointOf[reservations[k].id := |points|];
        points := points + [reservations[k].location];
      }
    }
    AskedIsBeginning(job, defaultStart, reservations, |reservations|);
  }

  method CollectPoints(job: Job, defaultStart: Point, reservations: seq<Reservation>)
    returns (points: seq<Point>, pointOf: map<string, int>)
    ensures |points| <= 25 && points == AskedPoints(job, defaultStart, reservations)
    ensures IsIndex(pointOf, Asked(job, defaultStart, reservations), |Heads(job, defaultStart)|)
  {
    points, pointOf := [], map[];
    if job.location.Valid() {
      points := points + [job.location];
    }
    if defaultStart.Valid() {
      points := points + [defaultStart];
    }
    NothingCollected(points);
    if job.location.Valid() {
      points, pointOf := CollectReservations(points, reservations, job, defaultStart);
    }
  }

  // ---------- Suggesting ----------

  datatype Failure = Invalid | NoCapacity
  datatype Outcome = Suggested(list: seq<Suggestion>) | Failed(failure: Failure)

  /** The parts of a snapshot: what to plan, who and what there is, and what is booked. */
  datatype Snapshot = Snapshot(job: Job, drivers: seq<Driver>, resources: seq<Resource>, reservations: seq<Reservation>)

  /** What lies outside: the local calendar and days, the router, and the scoring of a candidate. */
  datatype World = World(calendar: Calendar, dayOf: int -> int, route: seq<Point> -> Option<Travel>,
                         scoreOf: (Snapshot, Travel, map<string, int>, Candidate) -> Score)

  ghost predicate ValidRequest(config: Config, snapshot: Snapshot) {
    ValidConfig(config) && snapshot.job.hackMinutes > 0 && snapshot.drivers != []
  }

  /** What is known of the roads: the router's answer for the points collected, if it is asked and answers. */
  ghost function TravelKnown(world: World, job: Job, points: seq<Point>): Travel {
    if |points| >= 2 && job.location.Valid() && world.route(points).Some? then world.route(points).value
    else Travel("unavailable", [])
  }

  ghost predicate IsSetUp(s: Search, snapshot: Snapshot, config: Config, defaultStart: Point, world: World, now: int) {
    && s.config == config && s.calendar == world.calendar && s.now == now && s.drivers == snapshot.drivers
    && s.minutes == snapshot.job.hackMinutes + snapshot.job.transportMinutes + config.bufferMinutes
    && s.roads.reservations == snapshot.reservations && s.roads.dayOf == world.dayOf
    && s.roads.travel == TravelKnown(world, snapshot.job, AskedPoints(snapshot.job, defaultStart, snapshot.reservations))
    && IsIndex(s.roads.pointOf, Asked(snapshot.job, defaultStart, snapshot.reservations), |Heads(snapshot.job, defaultStart)|)
    && (forall choice :: choice in s.choices <==> IsChoice(snapshot.job, snapshot.resources, choice))
    && (forall c :: s.scoreOf(c) == world.scoreOf(snapshot, s.roads.travel, s.roads.pointOf, c))
  }

  /** The outcome is the best short list of what a search found. */
  ghost predicate IsOutcome(s: Search, seen: seq<Candidate>, found: seq<Suggestion>, outcome: Outcome)
    requires ValidConfig(s.config)
  {
    && IsSearch(s, seen, found)
    && (outcome == Failed(NoCapacity) <==> found == [])
    && (outcome.Suggested? ==> IsBestShortlist(outcome.list, found) && outcome.list != []
                               && forall x :: x in outcome.list ==> IsSound(s, x))
  }

  /** Asks the router about the points and puts together what the search looks at. */
  method SetUp(snapshot: Snapshot, config: Config, defaultStart: Point, world: World, now: int, choices: seq<Choice>)
    returns (search: Search)
    requires forall choice :: choice in choices <==> IsChoice(snapshot.job, snapshot.resources, choice)
    ensures IsSetUp(search, snapshot, config, defaultStart, world, now)
  {
    var points, pointOf := CollectPoints(snapshot.job, defaultStart, snapshot.reservations);
    var travel := UNAVAILABLE;
    if |points| >= 2 && snapshot.job.location.Valid() {
      var routed := world.route(points);
      if routed.Some? {
        travel := routed.value;
      }
    }
    var minutes := snapshot.job.hackMinutes + snapshot.job.transportMinutes + config.bufferMinutes;
    var roads := Roads(snapshot.reservations, world.dayOf, travel, pointOf);
    search := Search(config, world.calendar, now, minutes, snapshot.drivers, choices, roads,
                     (c: Candidate) => world.scoreOf(snapshot, travel, pointOf, c));
  }

  method Generate(snapshot: Snapshot, config: Config, defaultStart: Point, world: World, now: int)
    returns (outcome: Outcome, ghost s: Search, ghost seen: seq<Candidate>, ghost found: seq<Suggestion>)
    ensures outcome == Failed(Invalid) <==> !ValidRequest(config, snapshot)
    ensures outcome.Suggested? ==>
      IsSetUp(s, snapshot, config, defaultStart, world, now) && ValidConfig(s.config) && IsOutcome(s, seen, found, outcome)
    ensures outcome == Failed(NoCapacity) ==>
      || (forall choice :: !IsChoice(snapshot.job, snapshot.resources, choice))
      || (IsSetUp(s, snapshot, config, defaultStart, world, now) && ValidConfig(s.config) && IsOutcome(s, seen, found, outcome))
  {
    seen, found := [], [];
    var nowhere := Roads([], world.dayOf, UNAVAILABLE, map[]);
    s := Search(config, world.calendar, now, 0, [], [], nowhere, (c: Candidate) => Score(0, 0, 0));
    var ok := Validate(config);
    if !ok || snapshot.job.hackMinutes <= 0 || |snapshot.drivers| == 0 {
      return Failed(Invalid), s, seen, found;
    }
    var choices := SelectResourceChoices(snapshot.job, snapshot.resources);
    if choices == [] {
      return Failed(NoCapacity), s, seen, found;
    }
    var search := SetUp(snapshot, config, defaultStart, world, now, choices);
    s := search;
    var all;
    all, seen := SearchHorizon(search);
    found := all;
    FoundIsSound(s, seen, found);
    if all == [] {
      return Failed(NoCapacity), s, seen, found;
    }
    var list := RankAndShorten(all);
    outcome := Suggested(list);
  }
}
