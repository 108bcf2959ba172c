/** Weekly rules and dated exceptions, and what the availability of a driver is at an instant. */
module Availability {
  import opened Options
  import opened Ordering
  import opened Calendar
  import opened Durations
  import opened Painting

  datatype RuleStatus = RuleAvailable | RuleLimited

  /** Local dates are day numbers counted from 1 January 1970. */
  datatype Rule = Rule(id: string, weekday: int, startMinute: nat, endMinute: nat, validFrom: int,
                       validUntil: Option<int>, status: RuleStatus, internalNote: string)

  datatype ExceptionType = Vacation | Sick | ShortNotice | AvailableOverride | Other | Unknown(text: string)

  /** `localDate` is None when the stored text of an all-day exception is not a date. */
  datatype Exception = Exception(id: string, kind: ExceptionType, isAllDay: bool, localDate: Option<int>,
                                 startsAt: int, endsAt: int, internalNote: string)

  datatype Policy = Unset | LegacyRules | AssumedAvailable | ExplicitDates

  datatype Schedule = Schedule(isActive: bool, policy: Policy, rules: seq<Rule>, exceptions: seq<Exception>)

  datatype ResolveError = RuleHasNoInstant(ruleId: string) | BadExceptionDate | BadRange

  datatype Result<+T> = Ok(value: T) | Err(error: ResolveError)

  const NO_ENTRY := Label(Unavailable, "none", "", "keine gepflegte Verfügbarkeit", "")
  const INACTIVE := Label(Unavailable, "inactive_driver", "", "Fahrerprofil ist inaktiv", "")
  const ASSUMED := Label(Available, "policy", "assumed_available", "Hauptfahrer standardmäßig verfügbar", "")

  function RuleLabel(rule: Rule): Label {
    match rule.status
    case RuleAvailable => Label(Available, "rule", "available", "verfügbare Wochenregel", rule.internalNote)
    case RuleLimited => Label(Limited, "rule", "limited", "eingeschränkte Wochenregel", rule.internalNote)
  }

  function TypeText(kind: ExceptionType): string {
    match kind
    case Vacation => "vacation"
    case Sick => "sick"
    case ShortNotice => "unavailable"
    case AvailableOverride => "available_override"
    case Other => "other"
    case Unknown(text) => text
  }

  function ReasonText(kind: ExceptionType): string {
    match kind
    case Vacation => "Urlaub"
    case Sick => "nicht verfügbar"
    case ShortNotice => "kurzfristig nicht verfügbar"
    case AvailableOverride => "kurzfristig verfügbar"
    case Other => "andere Abwesenheit"
    case Unknown(_) => "nicht verfügbar"
  }

  function Priority(kind: ExceptionType): int {
    match kind
    case AvailableOverride => 1
    case Other => 2
    case ShortNotice => 3
    case Vacation => 4
    case Sick => 5
    case Unknown(_) => 0
  }

  function ExceptionLabel(e: Exception): Label {
    Label(if e.kind == AvailableOverride then Available else Unavailable, "exception",
          TypeText(e.kind), ReasonText(e.kind), e.internalNote)
  }

  /** The order in which exceptions are applied: by priority, then by ID. */
  predicate AppliedNoLater(a: Exception, b: Exception) {
    if Priority(a.kind) != Priority(b.kind) then Priority(a.kind) < Priority(b.kind) else StringLe(a.id, b.id)
  }

  lemma AppliedOrder()
    ensures TotalPreorder(AppliedNoLater)
  {
    StringLeOrder();
  }

  /** 1 January 1970 was a Thursday; Monday is 1 and Sunday is 7. */
  function IsoWeekday(day: int): int {
    (day + 3) % 7 + 1
  }

  ghost predicate RuleApplies(rule: Rule, day: int) {
    && rule.weekday == IsoWeekday(day)
    && rule.validFrom <= day
    && (rule.validUntil.Some? ==> day <= rule.validUntil.value)
  }

  ghost function MinuteInstant(zone: Zone, day: int, minute: nat): Option<int> {
    if minute < 24 * 60 then OnlyInstant(zone, day * DAY + minute * MINUTE) else None
  }

  /** The range of a rule on a day; None when one of its clock times is skipped or repeated there. */
  ghost function RuleRange(zone: Zone, rule: Rule, day: int): Option<Interval> {
    var start, end := MinuteInstant(zone, day, rule.startMinute), MinuteInstant(zone, day, rule.endMinute);
    if start.Some? && end.Some? then Some(Interval(start.value, end.value, RuleLabel(rule))) else None
  }

  ghost predicate ExceptionCounts(policy: Policy, e: Exception) {
    policy == ExplicitDates ==> e.kind == AvailableOverride
  }

  function ExceptionRange(zone: Zone, e: Exception): Option<Interval> {
    if !e.isAllDay then Some(Interval(e.startsAt, e.endsAt, ExceptionLabel(e)))
    else if e.localDate.None? then None
    else Some(Interval(Midnight(zone, e.localDate.value), Midnight(zone, e.localDate.value + 1), ExceptionLabel(e)))
  }

  ghost predicate RuleCovers(zone: Zone, rule: Rule, day: int, t: int) {
    RuleApplies(rule, day) && RuleRange(zone, rule, day).Some? && Covers(RuleRange(zone, rule, day).value, t)
  }

  ghost predicate ExceptionCovers(zone: Zone, policy: Policy, e: Exception, t: int) {
    ExceptionCounts(policy, e) && ExceptionRange(zone, e).Some? && Covers(ExceptionRange(zone, e).value, t)
  }

  ghost predicate Before(day: int, index: int, day': int, index': int) {
    day < day' || (day == day' && index < index')
  }

  /** The covering exception that no other covering exception outranks. */
  ghost predicate TopException(data: Schedule, zone: Zone, t: int, e: Exception) {
    && e in data.exceptions && ExceptionCovers(zone, data.policy, e, t)
    && forall f :: f in data.exceptions && ExceptionCovers(zone, data.policy, f, t) ==> AppliedNoLater(f, e)
  }

  ghost predicate RuleInRange(data: Schedule, zone: Zone, from: int, to: int, day: int, index: int) {
    && data.policy != ExplicitDates
    && 0 <= index < |data.rules| && LocalDay(zone, from) <= day <= LocalDay(zone, to - NANOSECOND)
  }

  /** The covering rule of the latest day in range and, on that day, the last in rule order. */
  ghost predicate TopRule(data: Schedule, zone: Zone, from: int, to: int, t: int, day: int, index: int) {
    && RuleInRange(data, zone, from, to, day, index) && RuleCovers(zone, data.rules[index], day, t)
    && forall d, i :: RuleInRange(data, zone, from, to, d, i) && RuleCovers(zone, data.rules[i], d, t) ==>
         !Before(day, index, d, i)
  }

  ghost predicate SomeExceptionCovers(data: Schedule, zone: Zone, t: int) {
    exists e :: e in data.exceptions && ExceptionCovers(zone, data.policy, e, t)
  }

  ghost predicate SomeRuleCovers(data: Schedule, zone: Zone, from: int, to: int, t: int) {
    exists d, i :: RuleInRange(data, zone, from, to, d, i) && RuleCovers(zone, data.rules[i], d, t)
  }

  /** What an availability resolution over `from..to` has to say at `t`. */
  ghost predicate Explains(data: Schedule, zone: Zone, from: int, to: int, t: int, tag: Label) {
    if !data.isActive then tag == INACTIVE
    else if data.policy == AssumedAvailable then tag == ASSUMED
    else if SomeExceptionCovers(data, zone, t) then
      exists e :: TopException(data, zone, t, e) && tag == ExceptionLabel(e)
    else if SomeRuleCovers(data, zone, from, to, t) then
      exists d, i :: TopRule(data, zone, from, to, t, d, i) && tag == RuleLabel(data.rules[i])
    else tag == NO_ENTRY
  }

  ghost predicate DistinctIds(exceptions: seq<Exception>) {
    forall e, f :: e in exceptions && f in exceptions && e.id == f.id ==> e == f
  }

  lemma EquallyRanked(e: Exception, f: Exception)
    requires AppliedNoLater(e, f) && AppliedNoLater(f, e)
    ensures e.id == f.id && Priority(e.kind) == Priority(f.kind)
    ensures e.kind == AvailableOverride <==> f.kind == AvailableOverride
  {
    StringLeTotal(e.id, f.id);
  }

  /** The status at an instant never depends on how ties are broken, and with distinct IDs nothing else does. */
  lemma ExplanationIsUnique(data: Schedule, zone: Zone, from: int, to: int, t: int, a: Label, b: Label)
    requires Explains(data, zone, from, to, t, a) && Explains(data, zone, from, to, t, b)
    ensures a.status == b.status
    ensures DistinctIds(data.exceptions) ==> a == b
  {
    if data.isActive && data.policy != AssumedAvailable {
      if SomeExceptionCovers(data, zone, t) {
        var e :| TopException(data, zone, t, e) && a == ExceptionLabel(e);
        var f :| TopException(data, zone, t, f) && b == ExceptionLabel(f);
        EquallyRanked(e, f);
      } else if SomeRuleCovers(data, zone, from, to, t) {
        var d, i :| TopRule(data, zone, from, to, t, d, i) && a == RuleLabel(data.rules[i]);
        var c, j :| TopRule(data, zone, from, to, t, c, j) && b == RuleLabel(data.rules[j]);
        assert !Before(d, i, c, j) && !Before(c, j, d, i);
      }
    }
  }

  /** Every rule that applies on a day of the range has both instants, and every exception that counts has a range. */
  ghost predicate Resolvable(data: Schedule, zone: Zone, from: int, to: int) {
    !data.isActive || data.policy == AssumedAvailable ||
    ((forall d, i :: RuleInRange(data, zone, from, to, d, i) && RuleApplies(data.rules[i], d) ==>
        RuleRange(zone, data.rules[i], d).Some?)
     && (forall e :: e in data.exceptions && ExceptionCounts(data.policy, e) ==> ExceptionRange(zone, e).Some?))
  }

  // ---------- The same in the words of the rules ----------

  // What follows tells what is shown at an instant once more, kind by kind and from the entries' own fields.

  /** An exception in force: when only explicit dates count, just those that make available do. */
  ghost predicate InForce(data: Schedule, zone: Zone, t: int, e: Exception) {
    && e in data.exceptions && (data.policy == ExplicitDates ==> e.kind.AvailableOverride?)
    && (if !e.isAllDay then e.startsAt <= t < e.endsAt
        else e.localDate.Some? && zone.pick(e.localDate.value * DAY) <= t < zone.pick((e.localDate.value + 1) * DAY))
  }

  ghost predicate SameKind(a: ExceptionType, b: ExceptionType) {
    a == b || (a.Unknown? && b.Unknown?)
  }

  /** The one of a kind in force with the largest identifier. */
  ghost predicate LastOfKind(data: Schedule, zone: Zone, t: int, kind: ExceptionType, e: Exception) {
    && InForce(data, zone, t, e) && SameKind(e.kind, kind)
    && forall f :: InForce(data, zone, t, f) && SameKind(f.kind, kind) ==> StringLe(f.id, e.id)
  }

  ghost predicate KindInForce(data: Schedule, zone: Zone, t: int, kind: ExceptionType) {
    exists e :: InForce(data, zone, t, e) && SameKind(e.kind, kind)
  }

  /** Some such exception is the one shown, with this status, kind and reason. */
  ghost predicate Shows(data: Schedule, zone: Zone, t: int, tag: Label, kind: ExceptionType, status: Status, sourceType: string, reason: string) {
    exists e :: LastOfKind(data, zone, t, kind, e) && tag == Label(status, "exception", sourceType, reason, e.internalNote)
  }

  /** The only instant at which the local clock of a day shows a minute. */
  ghost predicate ShowsOnly(zone: Zone, day: int, minute: nat, t: int) {
    minute < 1440 && IsOnlyInstant(zone, day * DAY + minute * MINUTE, t)
  }

  /** A rule in force: on its weekday, while it is valid, between the only instants that show its two clock times. */
  ghost predicate RuleInForce(data: Schedule, zone: Zone, from: int, to: int, t: int, day: int, index: int) {
    && data.policy != ExplicitDates && 0 <= index < |data.rules|
    && LocalDay(zone, from) <= day <= LocalDay(zone, to - 1)
    && var rule := data.rules[index];
       && rule.weekday == IsoWeekday(day) && rule.validFrom <= day
       && (rule.validUntil == None || day <= rule.validUntil.value)
       && exists start, end :: ShowsOnly(zone, day, rule.startMinute, start) && ShowsOnly(zone, day, rule.endMinute, end)
                               && start <= t < end
  }

  /** The rule in force of the latest day, and on that day the last listed. */
  ghost predicate LastRule(data: Schedule, zone: Zone, from: int, to: int, t: int, day: int, index: int) {
    && RuleInForce(data, zone, from, to, t, day, index)
    && forall d, i :: RuleInForce(data, zone, from, to, t, d, i) ==> d < day || (d == day && i <= index)
  }

  ghost predicate ShowsRule(data: Schedule, zone: Zone, from: int, to: int, t: int, tag: Label) {
    exists day, index :: LastRule(data, zone, from, to, t, day, index)
      && var rule := data.rules[index];
         tag == if rule.status.RuleLimited? then Label(Limited, "rule", "limited", "eingeschränkte Wochenregel", rule.internalNote)
                else Label(Available, "rule", "available", "verfügbare Wochenregel", rule.internalNote)
  }

  /** Sickness comes before vacation, that before absence at short notice, that before other absence, and that before what
      makes available; any other entry comes last, then the weekly rules, and without them the driver is unavailable. */
  ghost predicate ToldByKind(data: Schedule, zone: Zone, from: int, to: int, t: int, tag: Label) {
    if !data.isActive then tag == Label(Unavailable, "inactive_driver", "", "Fahrerprofil ist inaktiv", "")
    else if data.policy == AssumedAvailable then
      tag == Label(Available, "policy", "assumed_available", "Hauptfahrer standardmäßig verfügbar", "")
    else if KindInForce(data, zone, t, Sick) then Shows(data, zone, t, tag, Sick, Unavailable, "sick", "nicht verfügbar")
    else if KindInForce(data, zone, t, Vacation) then Shows(data, zone, t, tag, Vacation, Unavailable, "vacation", "Urlaub")
    else if KindInForce(data, zone, t, ShortNotice) then
      Shows(data, zone, t, tag, ShortNotice, Unavailable, "unavailable", "kurzfristig nicht verfügbar")
    else if KindInForce(data, zone, t, Other) then Shows(data, zone, t, tag, Other, Unavailable, "other", "andere Abwesenheit")
    else if KindInForce(data, zone, t, AvailableOverride) then
      Shows(data, zone, t, tag, AvailableOverride, Available, "available_override", "kurzfristig verfügbar")
    else if exists e :: InForce(data, zone, t, e) then
      exists e :: LastOfKind(data, zone, t, Unknown(""), e) && e.kind.Unknown?
                  && tag == Label(Unavailable, "exception", e.kind.text, "nicht verfügbar", e.internalNote)
    else if exists day, index :: RuleInForce(data, zone, from, to, t, day, index) then ShowsRule(data, zone, from, to, t, tag)
    else tag == Label(Unavailable, "none", "", "keine gepflegte Verfügbarkeit", "")
  }

  lemma CoversIsInForce(data: Schedule, zone: Zone, t: int, e: Exception)
    requires e in data.exceptions
    ensures ExceptionCovers(zone, data.policy, e, t) <==> InForce(data, zone, t, e)
  {
  }

  /** Of two exceptions the one of the graver kind is applied later, and of one kind the one with the larger identifier. */
  lemma GraverIsLater(e: Exception, f: Exception)
    ensures SameKind(e.kind, f.kind) ==> (AppliedNoLater(f, e) <==> StringLe(f.id, e.id))
    ensures e.kind.Sick? && !f.kind.Sick? ==> AppliedNoLater(f, e) && !AppliedNoLater(e, f)
    ensures e.kind.Vacation? && !f.kind.Sick? && !f.kind.Vacation? ==> AppliedNoLater(f, e) && !AppliedNoLater(e, f)
    ensures e.kind.ShortNotice? && (f.kind.Other? || f.kind.AvailableOverride? || f.kind.Unknown?) ==>
      AppliedNoLater(f, e) && !AppliedNoLater(e, f)
    ensures e.kind.Other? && (f.kind.AvailableOverride? || f.kind.Unknown?) ==> AppliedNoLater(f, e) && !AppliedNoLater(e, f)
    ensures e.kind.AvailableOverride? && f.kind.Unknown? ==> AppliedNoLater(f, e) && !AppliedNoLater(e, f)
  {
  }

  lemma TopIsLastOfKind(data: Schedule, zone: Zone, t: int, e: Exception)
    requires TopException(data, zone, t, e)
    ensures LastOfKind(data, zone, t, e.kind, e)
    ensures forall f :: InForce(data, zone, t, f) ==> AppliedNoLater(f, e)
  {
    forall f | InForce(data, zone, t, f) ensures AppliedNoLater(f, e) && (SameKind(f.kind, e.kind) ==> StringLe(f.id, e.id)) {
      CoversIsInForce(data, zone, t, f);
      GraverIsLater(e, f);
    }
  }

  /** No kind graver than that of the exception shown is in force. */
  lemma NothingGraver(data: Schedule, zone: Zone, t: int, e: Exception)
    requires TopException(data, zone, t, e)
    ensures !e.kind.Sick? ==> !KindInForce(data, zone, t, Sick)
    ensures !e.kind.Sick? && !e.kind.Vacation? ==> !KindInForce(data, zone, t, Vacation)
    ensures e.kind.Other? || e.kind.AvailableOverride? || e.kind.Unknown? ==> !KindInForce(data, zone, t, ShortNotice)
    ensures e.kind.AvailableOverride? || e.kind.Unknown? ==> !KindInForce(data, zone, t, Other)
    ensures e.kind.Unknown? ==> !KindInForce(data, zone, t, AvailableOverride)
    ensures KindInForce(data, zone, t, e.kind)
  {
    TopIsLastOfKind(data, zone, t, e);
    forall f | InForce(data, zone, t, f) ensures AppliedNoLater(f, e) { }
    forall f ensures InForce(data, zone, t, f) ==>
      && (f.kind.Sick? ==> e.kind.Sick?) && (f.kind.Vacation? ==> e.kind.Sick? || e.kind.Vacation?)
      && (f.kind.ShortNotice? ==> e.kind.Sick? || e.kind.Vacation? || e.kind.ShortNotice?)
      && (f.kind.Other? ==> !e.kind.AvailableOverride? && !e.kind.Unknown?)
      && (f.kind.AvailableOverride? ==> !e.kind.Unknown?)
    {
      if InForce(data, zone, t, f) { GraverIsLater(f, e); }
    }
  }

  lemma TopExceptionToldByKind(data: Schedule, zone: Zone, from: int, to: int, t: int, e: Exception)
    requires data.isActive && data.policy != AssumedAvailable && TopException(data, zone, t, e)
    ensures ToldByKind(data, zone, from, to, t, ExceptionLabel(e))
  {
    TopIsLastOfKind(data, zone, t, e);
    NothingGraver(data, zone, t, e);
  }

  lemma MinuteInstantIsOnly(zone: Zone, day: int, minute: nat)
    ensures forall t :: ShowsOnly(zone, day, minute, t) <==> MinuteInstant(zone, day, minute) == Some(t)
  {
  }

  lemma RuleCoversIsInForce(data: Schedule, zone: Zone, from: int, to: int, t: int, day: int, index: int)
    ensures RuleInRange(data, zone, from, to, day, index) && RuleCovers(zone, data.rules[index], day, t)
            <==> RuleInForce(data, zone, from, to, t, day, index)
  {
    if 0 <= index < |data.rules| {
      MinuteInstantIsOnly(zone, day, data.rules[index].startMinute);
      MinuteInstantIsOnly(zone, day, data.rules[index].endMinute);
    }
  }

  lemma TopRuleIsLast(data: Schedule, zone: Zone, from: int, to: int, t: int, day: int, index: int)
    requires TopRule(data, zone, from, to, t, day, index)
    ensures LastRule(data, zone, from, to, t, day, index)
  {
    RuleCoversIsInForce(data, zone, from, to, t, day, index);
    forall d, i | RuleInForce(data, zone, from, to, t, d, i) ensures d < day || (d == day && i <= index) {
      RuleCoversIsInForce(data, zone, from, to, t, d, i);
    }
  }

  /** Every explanation is the one that the rules call for, told without priorities. */
  lemma ExplanationIsToldByKind(data: Schedule, zone: Zone, from: int, to: int, t: int, tag: Label)
    requires Explains(data, zone, from, to, t, tag)
    ensures ToldByKind(data, zone, from, to, t, tag)
  {
    if data.isActive && data.policy != AssumedAvailable {
      forall e ensures e in data.exceptions ==> (ExceptionCovers(zone, data.policy, e, t) <==> InForce(data, zone, t, e)) {
      }
      forall d, i ensures RuleInRange(data, zone, from, to, d, i) && RuleCovers(zone, data.rules[i], d, t)
                          <==> RuleInForce(data, zone, from, to, t, d, i) {
        RuleCoversIsInForce(data, zone, from, to, t, d, i);
      }
      if SomeExceptionCovers(data, zone, t) {
        var e :| TopException(data, zone, t, e) && tag == ExceptionLabel(e);
        TopExceptionToldByKind(data, zone, from, to, t, e);
      } else if SomeRuleCovers(data, zone, from, to, t) {
        var d, i :| TopRule(data, zone, from, to, t, d, i) && tag == RuleLabel(data.rules[i]);
        TopRuleIsLast(data, zone, from, to, t, d, i);
      }
    }
  }

  /** Days of the week follow each other, and 5 January 1970 was a Monday. */
  lemma WeekdaysFollow(day: int)
    ensures IsoWeekday(4) == 1 && 1 <= IsoWeekday(day) <= 7
    ensures IsoWeekday(day + 1) == if IsoWeekday(day) == 7 then 1 else IsoWeekday(day) + 1
  {
  }
}
