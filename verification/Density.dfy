/** How many exceptions one resolution can meet: the admission rule of the exception table, over whole runs. */
module Density {
  import opened Options
  import opened Ordering
  import opened Calendar
  import opened Durations

  const MAX_EXCEPTIONS_PER_WINDOW := 1000
  const MARGIN := MAX_RESOLVE_DAYS * DAY

  /** What the table keeps of an exception's range: two instants, or one local date. */
  datatype Entry = Timed(startsAt: int, endsAt: int) | AllDay(date: int)

  type Table = map<string, Entry>

  /** Local days follow each other at their midnights, as they do where clocks change by day. */
  ghost predicate DaysAtMidnight(zone: Zone) {
    && OneOrTwoHours(zone)
    && forall t, d :: d <= LocalDay(zone, t) <==> Midnight(zone, d) <= t
  }

  function EntryStart(zone: Zone, e: Entry): int {
    match e case Timed(s, _) => s case AllDay(d) => Midnight(zone, d)
  }

  function EntryEnd(zone: Zone, e: Entry): int {
    match e case Timed(_, t) => t case AllDay(d) => Midnight(zone, d + 1)
  }

  /** An entry for a day covers just the instants of that day. */
  lemma EntryCoversItsDay(zone: Zone, day: int, t: int)
    requires DaysAtMidnight(zone)
    ensures EntryStart(zone, AllDay(day)) <= t < EntryEnd(zone, AllDay(day)) <==> LocalDay(zone, t) == day
  {
    assert day <= LocalDay(zone, t) <==> Midnight(zone, day) <= t;
    assert day + 1 <= LocalDay(zone, t) <==> Midnight(zone, day + 1) <= t;
  }

  /** The row condition shared by the resolution query and the counting query. */
  ghost predicate Matches(zone: Zone, e: Entry, from: int, to: int) {
    match e
    case Timed(s, t) => s < to && t > from
    case AllDay(d) => LocalDay(zone, from) <= d <= LocalDay(zone, to - NANOSECOND)
  }

  ghost function Matching(zone: Zone, rows: Table, from: int, to: int): set<string> {
    set id | id in rows && Matches(zone, rows[id], from, to)
  }

  ghost predicate ResolveRange(from: int, to: int) {
    from < to && to - from <= 90 * 24 * 3_600_000_000_000
  }

  datatype Window = Window(from: int, to: int, localFrom: int, localTo: int)

  /** The range that must hold fewer than a thousand other exceptions. */
  function DensityWindow(location: Option<Zone>, e: Entry): (w: Option<Window>)
    ensures w.Some? <==> location.Some? && EntryStart(location.value, e) < EntryEnd(location.value, e)
    ensures w.Some? ==> forall f :: Matches(location.value, f, w.value.from, w.value.to) <==>
      match f case Timed(s, t) => s < w.value.to && t > w.value.from case AllDay(d) => w.value.localFrom <= d <= w.value.localTo
  {
    if location.None? then None
    else
      var zone := location.value;
      var start, end := EntryStart(zone, e), EntryEnd(zone, e);
      if end <= start then None
      else Some(Window(start - MARGIN, end + MARGIN, LocalDay(zone, start - MARGIN), LocalDay(zone, end + MARGIN - NANOSECOND)))
  }

  /** The window is wider than the exception by the longest resolve range, before and after. */
  lemma WindowIsWider(zone: Zone, e: Entry)
    requires DensityWindow(Some(zone), e).Some?
    ensures var w := DensityWindow(Some(zone), e).value;
            EntryStart(zone, e) - w.from == w.to - EntryEnd(zone, e) == 90 * 24 * 3_600_000_000_000
  {
  }

  /** Any resolve range that meets an exception lies inside that exception's window. */
  lemma RangeInsideWindow(zone: Zone, e: Entry, from: int, to: int)
    requires DaysAtMidnight(zone) && ResolveRange(from, to) && Matches(zone, e, from, to)
    requires DensityWindow(Some(zone), e).Some?
    ensures DensityWindow(Some(zone), e).value.from < from && to < DensityWindow(Some(zone), e).value.to
  {
    if e.AllDay? {
      assert e.date <= LocalDay(zone, to - NANOSECOND);
      assert !(e.date + 1 <= LocalDay(zone, from));
    }
  }

  lemma WiderRangeMatchesMore(zone: Zone, e: Entry, from: int, to: int, from': int, to': int)
    requires DaysAtMidnight(zone) && from' <= from < to <= to' && Matches(zone, e, from, to)
    ensures Matches(zone, e, from', to')
  {
    if e.AllDay? {
      var first, last := LocalDay(zone, from'), LocalDay(zone, to - NANOSECOND);
      assert first <= LocalDay(zone, from) by {
        assert Midnight(zone, first) <= from';
      }
      assert last <= LocalDay(zone, to' - NANOSECOND) by {
        assert Midnight(zone, last) <= to - NANOSECOND;
      }
    }
  }

  /** The promise of the admission rule. */
  ghost predicate Bounded(zone: Zone, rows: Table) {
    forall from, to :: ResolveRange(from, to) ==> |Matching(zone, rows, from, to)| <= 1_000
  }

  ghost function Excluded(exclude: Option<string>): set<string> {
    if exclude.Some? then {exclude.value} else {}
  }

  /** Fewer than the limit of other exceptions lie in the window of `e`. */
  ghost predicate Admissible(zone: Zone, rows: Table, exclude: Option<string>, e: Entry) {
    var w := DensityWindow(Some(zone), e);
    w.Some? && |Matching(zone, rows, w.value.from, w.value.to) - Excluded(exclude)| < 1_000
  }

  lemma OthersLieInWindow(zone: Zone, rows: Table, exclude: Option<string>, id: string, e: Entry, from: int, to: int)
    requires DaysAtMidnight(zone) && DensityWindow(Some(zone), e).Some? && ResolveRange(from, to) && Matches(zone, e, from, to)
    requires exclude == (if id in rows then Some(id) else None)
    ensures var w := DensityWindow(Some(zone), e).value;
            |Matching(zone, rows[id := e], from, to) - {id}| <= |Matching(zone, rows, w.from, w.to) - Excluded(exclude)|
  {
    var w := DensityWindow(Some(zone), e).value;
    var now, others := Matching(zone, rows[id := e], from, to), Matching(zone, rows, w.from, w.to) - Excluded(exclude);
    RangeInsideWindow(zone, e, from, to);
    forall other | other in now - {id} ensures other in others {
      WiderRangeMatchesMore(zone, rows[other], from, to, w.from, w.to);
    }
    SubsetSize(now - {id}, others);
  }

  lemma AdmissionKeepsBound(zone: Zone, rows: Table, exclude: Option<string>, id: string, e: Entry)
    requires DaysAtMidnight(zone) && Bounded(zone, rows) && Admissible(zone, rows, exclude, e)
    requires exclude == (if id in rows then Some(id) else None)
    ensures Bounded(zone, rows[id := e])
  {
    forall from, to | ResolveRange(from, to)
      ensures |Matching(zone, rows[id := e], from, to)| <= 1_000
    {
      var now := Matching(zone, rows[id := e], from, to);
      if Matches(zone, e, from, to) {
        OthersLieInWindow(zone, rows, exclude, id, e, from, to);
        assert id in now && |now - {id}| == |now| - 1;
      } else {
        SubsetSize(now, Matching(zone, rows, from, to));
      }
    }
  }

  lemma RemovalKeepsBound(zone: Zone, rows: Table, id: string)
    requires Bounded(zone, rows)
    ensures Bounded(zone, rows - {id})
  {
    forall from, to | ResolveRange(from, to)
      ensures |Matching(zone, rows - {id}, from, to)| <= 1_000
    {
      SubsetSize(Matching(zone, rows - {id}, from, to), Matching(zone, rows, from, to));
    }
  }

  datatype Command =
    | Create(id: string, entry: Entry)
    | CreateAll(ids: seq<string>, entries: seq<Entry>)
    | Update(id: string, entry: Entry)
    | Delete(id: string)

  /** None as soon as one of the entries is refused. */
  ghost function CreateEach(zone: Zone, rows: Table, ids: seq<string>, entries: seq<Entry>): Option<Table>
    decreases |entries|
  {
    if entries == [] then Some(rows)
    else if ids == [] || ids[0] in rows || !Admissible(zone, rows, None, entries[0]) then None
    else CreateEach(zone, rows[ids[0] := entries[0]], ids[1..], entries[1..])
  }

  /** The state of the table after a command; a refused command changes nothing, a batch is all or nothing. */
  ghost function Apply(zone: Zone, rows: Table, command: Command): Table {
    match command
    case Create(id, e) => if id !in rows && Admissible(zone, rows, None, e) then rows[id := e] else rows
    case CreateAll(ids, entries) =>
      var all := CreateEach(zone, rows, ids, entries);
      if all.Some? then all.value else rows
    case Update(id, e) => if id in rows && Admissible(zone, rows, Some(id), e) then rows[id := e] else rows
    case Delete(id) => rows - {id}
  }

  lemma {:induction false} BatchKeepsBound(zone: Zone, rows: Table, ids: seq<string>, entries: seq<Entry>)
    requires DaysAtMidnight(zone) && Bounded(zone, rows)
    ensures CreateEach(zone, rows, ids, entries).Some? ==> Bounded(zone, CreateEach(zone, rows, ids, entries).value)
    decreases |entries|
  {
    if entries != [] && ids != [] && ids[0] !in rows && Admissible(zone, rows, None, entries[0]) {
      AdmissionKeepsBound(zone, rows, None, ids[0], entries[0]);
      BatchKeepsBound(zone, rows[ids[0] := entries[0]], ids[1..], entries[1..]);
    }
  }

  ghost function Run(zone: Zone, commands: seq<Command>): Table {
    if commands == [] then map[]
    else Apply(zone, Run(zone, commands[..|commands| - 1]), commands[|commands| - 1])
  }

  /** Whatever commands are issued, in whatever order, no resolution ever meets more exceptions than the limit. */
  lemma {:induction false} EveryRunIsBounded(zone: Zone, commands: seq<Command>)
    requires DaysAtMidnight(zone)
    ensures Bounded(zone, Run(zone, commands))
  {
    if commands == [] {
      forall from, to | ResolveRange(from, to) ensures |Matching(zone, Run(zone, commands), from, to)| <= 1_000 {
        assert Matching(zone, Run(zone, commands), from, to) == {};
      }
    } else {
      var rows, command := Run(zone, commands[..|commands| - 1]), commands[|commands| - 1];
      EveryRunIsBounded(zone, commands[..|commands| - 1]);
      match command
      case Create(id, e) =>
        if id !in rows && Admissible(zone, rows, None, e) { AdmissionKeepsBound(zone, rows, None, id, e); }
      case CreateAll(ids, entries) => BatchKeepsBound(zone, rows, ids, entries);
      case Update(id, e) =>
        if id in rows && Admissible(zone, rows, Some(id), e) { AdmissionKeepsBound(zone, rows, Some(id), id, e); }
      case Delete(id) => RemovalKeepsBound(zone, rows, id);
    }
  }

  /** The window has to be wider than the exception: with a margin shorter than a resolve range by two
      nanoseconds or more some range reaches an exception and also an entry outside its window. */
  lemma MarginIsTight(zone: Zone, margin: int)
    requires 0 <= margin < MARGIN - NANOSECOND
    ensures exists e: Entry, f: Entry, from, to ::
      && ResolveRange(from, to) && Matches(zone, e, from, to) && Matches(zone, f, from, to)
      && !Matches(zone, f, EntryStart(zone, e) - margin, EntryEnd(zone, e) + margin)
  {
    var e, f := Timed(0, 1), Timed(1 + margin, 2 + margin);
    assert Matches(zone, e, 0, MARGIN) && Matches(zone, f, 0, MARGIN) && ResolveRange(0, MARGIN);
    assert !Matches(zone, f, EntryStart(zone, e) - margin, EntryEnd(zone, e) + margin);
  }

  class ExceptionTable {
    var rows: Table
    const zone: Zone

    constructor (zone: Zone)
      ensures this.zone == zone && rows == map[]
    {
      this.zone := zone;
      rows := map[];
    }

    /** The counting query with its excluded row. */
    method CountInWindow(exclude: Option<string>, w: Window) returns (count: nat)
      requires forall f :: Matches(zone, f, w.from, w.to) <==>
        match f case Timed(s, t) => s < w.to && t > w.from case AllDay(d) => w.localFrom <= d <= w.localTo
      ensures count == |Matching(zone, rows, w.from, w.to) - Excluded(exclude)|
    {
      var pending := rows.Keys;
      count := 0;
      ghost var counted: set<string> := {};
      while pending != {}
        invariant pending <= rows.Keys
        invariant counted == set id | id in rows.Keys - pending && Matches(zone, rows[id], w.from, w.to) && exclude != Some(id)
        invariant count == |counted|
        decreases |pending|
      {
        var id :| id in pending;
        pending := pending - {id};
        var hit := match rows[id]
          case Timed(s, t) => s < w.to && t > w.from
          case AllDay(d) => w.localFrom <= d <= w.localTo;
        if hit && exclude != Some(id) {
          count := count + 1;
          counted := counted + {id};
        }
      }
      assert counted == Matching(zone, rows, w.from, w.to) - Excluded(exclude);
    }

    method EnforceDensity(exclude: Option<string>, e: Entry) returns (admitted: bool)
      ensures admitted == Admissible(zone, rows, exclude, e)
    {
      var w := DensityWindow(Some(zone), e);
      if w.None? {
        return false;
      }
      var existing := CountInWindow(exclude, w.value);
      admitted := existing < MAX_EXCEPTIONS_PER_WINDOW;
    }

    method Create(id: string, e: Entry) returns (stored: bool)
      modifies this`rows
      ensures rows == Apply(zone, old(rows), Command.Create(id, e))
      ensures stored <==> id !in old(rows) && Admissible(zone, old(rows), None, e)
    {
      var admitted := EnforceDensity(None, e);
      stored := id !in rows && admitted;
      if stored {
        rows := rows[id := e];
      }
    }

    method Update(id: string, e: Entry) returns (stored: bool)
      modifies this`rows
      ensures rows == Apply(zone, old(rows), Command.Update(id, e))
      ensures stored <==> id in old(rows) && Admissible(zone, old(rows), Some(id), e)
    {
      var admitted := EnforceDensity(Some(id), e);
      stored := id in rows && admitted;
      if stored {
        rows := rows[id := e];
      }
    }

    method Delete(id: string) returns (deleted: bool)
      modifies this`rows
      ensures rows == Apply(zone, old(rows), Command.Delete(id)) && deleted == (id in old(rows))
    {
      deleted := id in rows;
      rows := rows - {id};
    }

    /** One transaction: a refusal rolls every row of the batch back. */
    method CreateAll(ids: seq<string>, entries: seq<Entry>) returns (stored: bool)
      modifies this`rows
      ensures rows == Apply(zone, old(rows), Command.CreateAll(ids, entries))
      ensures stored <==> CreateEach(zone, old(rows), ids, entries).Some?
    {
      var saved := rows;
      for k := 0 to |entries|
        invariant k <= |ids|
        invariant CreateEach(zone, saved, ids, entries) == CreateEach(zone, rows, ids[k..], entries[k..])
      {
        var admitted := EnforceDensity(None, entries[k]);
        if !admitted || k >= |ids| || ids[k] in rows {
          rows := saved;
          return false;
        }
        rows := rows[ids[k] := entries[k]];
        assert ids[k..][1..] == ids[k + 1..] && entries[k..][1..] == entries[k + 1..];
      }
      stored := true;
    }
  }
}
