/** The free part of each resource's working window: an exact complement of its bookings. */
module FreeCapacity {
  import opened Options
  import opened Arithmetic
  import opened Ordering
  import opened Durations

  datatype Booking = Booking(resourceId: string, resourceName: string, startsAt: int, endsAt: int, valid: bool)

  datatype Slot = Slot(startsAt: int, endsAt: int)

  function Length(slot: Slot): int {
    slot.endsAt - slot.startsAt
  }

  datatype Capacity = Capacity(resourceId: string, resourceName: string, free: seq<Slot>, totalMinutes: int,
                               freeMinutes: int, largest: Slot)

  const NO_SLOT := Slot(0, 0)

  function MaxTime(left: int, right: int): int {
    if left > right then left else right
  }

  function MinTime(left: int, right: int): int {
    if left < right then left else right
  }

  /** Go's division of durations, which truncates toward zero. */
  function WholeMinutes(duration: int): (minutes: int)
    ensures duration >= 0 ==> minutes * MINUTE <= duration < (minutes + 1) * MINUTE
    ensures duration <= 0 ==> (minutes - 1) * MINUTE < duration <= minutes * MINUTE
  {
    if duration >= 0 then duration / MINUTE else -((-duration) / MINUTE)
  }

  // ---------- What is free ----------

  ghost predicate Holds(slot: Slot, t: int) {
    slot.startsAt <= t < slot.endsAt
  }

  ghost predicate InSome(slots: seq<Slot>, t: int) {
    exists k :: 0 <= k < |slots| && Holds(slots[k], t)
  }

  /** Nonempty slots in order, with a gap between neighbours. */
  ghost predicate Separated(slots: seq<Slot>) {
    && (forall k :: 0 <= k < |slots| ==> slots[k].startsAt < slots[k].endsAt)
    && (forall j, k :: 0 <= j < k < |slots| ==> slots[j].endsAt < slots[k].startsAt)
  }

  ghost predicate Complements(free: seq<Slot>, taken: seq<Slot>, start: int, end: int) {
    Separated(free) && forall t :: InSome(free, t) <==> start <= t < end && !InSome(taken, t)
  }

  lemma FirstHolds(slots: seq<Slot>, t: int)
    ensures slots != [] && Holds(slots[0], t) ==> InSome(slots, t)
  {
  }

  lemma WithoutFirst(slots: seq<Slot>, t: int)
    requires Separated(slots) && slots != []
    ensures InSome(slots[1..], t) <==> InSome(slots, t) && !Holds(slots[0], t)
  {
    if InSome(slots[1..], t) {
      var k :| 0 <= k < |slots| - 1 && Holds(slots[1..][k], t);
      assert Holds(slots[k + 1], t);
    }
    if InSome(slots, t) && !Holds(slots[0], t) {
      var k :| 0 <= k < |slots| && Holds(slots[k], t);
      assert Holds(slots[1..][k - 1], t);
    }
  }

  lemma FirstSlotsAgree(a: seq<Slot>, b: seq<Slot>)
    requires Separated(a) && Separated(b) && a != [] && b != [] && (forall t :: InSome(a, t) <==> InSome(b, t))
    ensures a[0].startsAt >= b[0].startsAt && (a[0].startsAt == b[0].startsAt ==> a[0].endsAt <= b[0].endsAt)
  {
    FirstHolds(a, a[0].startsAt);
    FirstHolds(a, b[0].endsAt);
  }

  /** No two different lists of separated slots hold the same instants. */
  lemma {:induction false} SeparatedIsUnique(a: seq<Slot>, b: seq<Slot>)
    requires Separated(a) && Separated(b) && (forall t :: InSome(a, t) <==> InSome(b, t))
    ensures a == b
    decreases |a|
  {
    FirstHolds(a, if a == [] then 0 else a[0].startsAt);
    FirstHolds(b, if b == [] then 0 else b[0].startsAt);
    assert a == [] <==> b == [];
    if a != [] {
      FirstSlotsAgree(a, b);
      FirstSlotsAgree(b, a);
      forall t ensures InSome(a[1..], t) <==> InSome(b[1..], t) {
        WithoutFirst(a, t);
        WithoutFirst(b, t);
      }
      SeparatedIsUnique(a[1..], b[1..]);
      assert a == [a[0]] + a[1..] && b == [b[0]] + b[1..];
    }
  }

  // ---------- The sweep over one resource ----------

  predicate StartsNoLater(a: Slot, b: Slot) {
    a.startsAt <= b.startsAt
  }

  /** After `k` bookings in order of their starts: what is free before the cursor is known for good. */
  ghost predicate Sweeps(free: seq<Slot>, reserved: seq<Slot>, k: nat, start: int, cursor: int)
    requires k <= |reserved|
  {
    && Separated(free) && SortedBy(reserved, StartsNoLater)
    && (forall i :: 0 <= i < |free| ==> free[i].endsAt < cursor)
    && (forall i, j :: 0 <= i < |free| && k <= j < |reserved| ==> free[i].endsAt <= reserved[j].startsAt)
    && (forall t :: InSome(free, t) <==> start <= t < cursor && !InSome(reserved[..k], t))
    && (forall i :: 0 <= i < k ==> reserved[i].startsAt < reserved[i].endsAt ==> reserved[i].endsAt <= cursor)
  }

  ghost function Widened(free: seq<Slot>, slot: Slot, cursor: int): seq<Slot> {
    if slot.startsAt > cursor then free + [Slot(cursor, slot.startsAt)] else free
  }

  lemma InSomeAppend(slots: seq<Slot>, slot: Slot, t: int)
    ensures InSome(slots + [slot], t) <==> InSome(slots, t) || Holds(slot, t)
  {
    var all := slots + [slot];
    if InSome(slots, t) {
      var k :| 0 <= k < |slots| && Holds(slots[k], t);
      assert Holds(all[k], t);
    }
    if Holds(slot, t) { assert Holds(all[|slots|], t); }
  }

  lemma SweepStep(free: seq<Slot>, reserved: seq<Slot>, k: nat, start: int, cursor: int)
    requires k < |reserved| && start <= cursor && start <= reserved[k].startsAt && Sweeps(free, reserved, k, start, cursor)
    ensures var slot := reserved[k];
            if slot.endsAt < cursor || slot.endsAt <= slot.startsAt then Sweeps(free, reserved, k + 1, start, cursor)
            else Sweeps(Widened(free, slot, cursor), reserved, k + 1, start, MaxTime(slot.endsAt, cursor))
  {
    var slot := reserved[k];
    assert reserved[..k + 1] == reserved[..k] + [slot];
    var skipped := slot.endsAt < cursor || slot.endsAt <= slot.startsAt;
    var wide, next := if skipped then free else Widened(free, slot, cursor), if skipped then cursor else MaxTime(slot.endsAt, cursor);
    forall t ensures InSome(wide, t) <==> start <= t < next && !InSome(reserved[..k + 1], t) {
      InSomeAppend(reserved[..k], slot, t);
      InSomeAppend(free, Slot(cursor, slot.startsAt), t);
      if InSome(free, t) { var i :| 0 <= i < |free| && Holds(free[i], t); }
      if InSome(reserved[..k], t) { var i :| 0 <= i < k && Holds(reserved[..k][i], t); }
    }
    forall j | k + 1 <= j < |reserved| ensures slot.startsAt <= reserved[j].startsAt {
      assert StartsNoLater(reserved[k], reserved[j]);
    }
  }

  lemma SameSlots(a: seq<Slot>, b: seq<Slot>, t: int)
    requires forall x :: x in a <==> x in b
    ensures InSome(a, t) <==> InSome(b, t)
  {
    if InSome(a, t) {
      var k :| 0 <= k < |a| && Holds(a[k], t);
      assert a[k] in b;
    }
    if InSome(b, t) {
      var k :| 0 <= k < |b| && Holds(b[k], t);
      assert b[k] in a;
    }
  }

  lemma SweepEnds(free: seq<Slot>, taken: seq<Slot>, reserved: seq<Slot>, start: int, cursor: int, end: int)
    requires Sweeps(free, reserved, |reserved|, start, cursor) && start <= cursor && (cursor == start || cursor <= end)
    requires forall x :: x in reserved <==> x in taken
    ensures Complements(if cursor < end then free + [Slot(cursor, end)] else free, taken, start, end)
  {
    var all := if cursor < end then free + [Slot(cursor, end)] else free;
    forall t ensures InSome(all, t) <==> start <= t < end && !InSome(taken, t) {
      InSomeAppend(free, Slot(cursor, end), t);
      assert reserved[..|reserved|] == reserved;
      SameSlots(reserved, taken, t);
      if InSome(reserved, t) { var i :| 0 <= i < |reserved| && Holds(reserved[i], t); }
    }
  }

  method FreeSlots(taken: seq<Slot>, start: int, end: int) returns (free: seq<Slot>)
    requires forall k :: 0 <= k < |taken| ==> start <= taken[k].startsAt && taken[k].endsAt <= end
    ensures Complements(free, taken, start, end)
  {
    var reserved := Sort(taken, StartsNoLater);
    var cursor := start;
    free := [];
    for k := 0 to |reserved|
      invariant Sweeps(free, reserved, k, start, cursor)
      invariant start <= cursor && (cursor == start || cursor <= end)
    {
      var slot := reserved[k];
      assert slot in taken;
      SweepStep(free, reserved, k, start, cursor);
      if slot.endsAt < cursor || slot.endsAt <= slot.startsAt {
        continue;
      }
      if slot.startsAt > cursor {
        free := free + [Slot(cursor, slot.startsAt)];
      }
      if slot.endsAt > cursor {
        cursor := slot.endsAt;
      }
    }
    SweepEnds(free, taken, reserved, start, cursor, end);
    if cursor < end {
      free := free + [Slot(cursor, end)];
    }
  }

  // ---------- Bookings of a resource ----------

  ghost predicate Takes(booking: Booking, id: string, t: int) {
    booking.valid && booking.resourceId == id && booking.startsAt <= t < booking.endsAt
  }

  ghost predicate Booked(bookings: seq<Booking>, id: string, t: int) {
    exists k :: 0 <= k < |bookings| && Takes(bookings[k], id, t)
  }

  function Clamped(booking: Booking, start: int, end: int): Slot {
    Slot(MaxTime(booking.startsAt, start), MinTime(booking.endsAt, end))
  }

  /** The valid bookings of a resource, cut to the window. */
  ghost function Reserved(bookings: seq<Booking>, id: string, start: int, end: int): (r: seq<Slot>)
    ensures forall k :: 0 <= k < |r| ==> start <= r[k].startsAt && r[k].endsAt <= end
  {
    if bookings == [] then []
    else
      var front, last := Reserved(bookings[..|bookings| - 1], id, start, end), bookings[|bookings| - 1];
      if last.resourceId == id && last.valid then front + [Clamped(last, start, end)] else front
  }

  lemma {:induction false} ReservedIsBooked(bookings: seq<Booking>, id: string, start: int, end: int, t: int)
    requires start <= t < end
    ensures InSome(Reserved(bookings, id, start, end), t) <==> Booked(bookings, id, t)
  {
    if bookings != [] {
      var front, last := bookings[..|bookings| - 1], bookings[|bookings| - 1];
      ReservedIsBooked(front, id, start, end, t);
      InSomeAppend(Reserved(front, id, start, end), Clamped(last, start, end), t);
      if Booked(bookings, id, t) && !Takes(last, id, t) {
        var k :| 0 <= k < |bookings| && Takes(bookings[k], id, t);
        assert Takes(front[k], id, t);
      }
      if Booked(front, id, t) {
        var k :| 0 <= k < |front| && Takes(front[k], id, t);
        assert Takes(bookings[k], id, t);
      }
      if Takes(last, id, t) { assert Takes(bookings[|bookings| - 1], id, t); }
    }
  }

  ghost predicate IsFreeTime(free: seq<Slot>, bookings: seq<Booking>, id: string, start: int, end: int) {
    Separated(free) && forall t :: InSome(free, t) <==> start <= t < end && !Booked(bookings, id, t)
  }

  lemma FreeTimeIsComplement(free: seq<Slot>, bookings: seq<Booking>, id: string, start: int, end: int)
    ensures IsFreeTime(free, bookings, id, start, end) <==> Complements(free, Reserved(bookings, id, start, end), start, end)
  {
    forall t ensures start <= t < end ==> (InSome(Reserved(bookings, id, start, end), t) <==> Booked(bookings, id, t)) {
      if start <= t < end { ReservedIsBooked(bookings, id, start, end, t); }
    }
  }

  lemma FreeTimeIsUnique(a: seq<Slot>, b: seq<Slot>, bookings: seq<Booking>, id: string, start: int, end: int)
    requires IsFreeTime(a, bookings, id, start, end) && IsFreeTime(b, bookings, id, start, end)
    ensures a == b
  {
    SeparatedIsUnique(a, b);
  }

  // ---------- Minutes ----------

  ghost function SumMinutes(slots: seq<Slot>): int {
    if slots == [] then 0 else SumMinutes(slots[..|slots| - 1]) + WholeMinutes(Length(slots[|slots| - 1]))
  }

  ghost predicate IsFirstLargest(slots: seq<Slot>, at: int, largest: Slot) {
    && 0 <= at < |slots| && slots[at] == largest
    && (forall j :: 0 <= j < |slots| ==> Length(slots[j]) <= Length(largest))
    && (forall j :: 0 <= j < at ==> Length(slots[j]) < Length(largest))
  }

  /** The first of the longest slots. */
  ghost predicate IsLargest(largest: Slot, slots: seq<Slot>) {
    if |slots| == 0 then largest == Slot(0, 0)
    else exists at :: IsFirstLargest(slots, at, largest)
  }

  lemma SumStep(free: seq<Slot>, k: nat)
    requires k < |free|
    ensures SumMinutes(free[..k + 1]) == SumMinutes(free[..k]) + WholeMinutes(Length(free[k]))
  {
    assert free[..k + 1][..k] == free[..k];
  }

  lemma LargerComes(largest: Slot, before: seq<Slot>, next: Slot)
    requires IsLargest(largest, before) && Length(largest) < Length(next)
    ensures IsLargest(next, before + [next])
  {
    var after := before + [next];
    forall j | 0 <= j < |before| ensures Length(after[j]) < Length(next) {
      assert after[j] == before[j];
    }
    assert IsFirstLargest(after, |before|, next);
  }

  lemma LargestStays(largest: Slot, before: seq<Slot>, next: Slot)
    requires IsLargest(largest, before) && before != [] && Length(largest) >= Length(next)
    ensures IsLargest(largest, before + [next])
  {
    var at :| IsFirstLargest(before, at, largest);
    assert IsFirstLargest(before + [next], at, largest);
  }

  lemma LargestStep(largest: Slot, free: seq<Slot>, k: nat)
    requires k < |free| && Length(free[k]) > 0 && IsLargest(largest, free[..k])
    ensures IsLargest(if Length(largest) < Length(free[k]) then free[k] else largest, free[..k + 1])
  {
    assert free[..k + 1] == free[..k] + [free[k]];
    if Length(largest) < Length(free[k]) {
      LargerComes(largest, free[..k], free[k]);
    } else {
      LargestStays(largest, free[..k], free[k]);
    }
  }

  method Measure(free: seq<Slot>) returns (minutes: int, largest: Slot)
    requires Separated(free)
    ensures minutes == SumMinutes(free) && IsLargest(largest, free)
  {
    minutes, largest := 0, NO_SLOT;
    for k := 0 to |free|
      invariant minutes == SumMinutes(free[..k]) && IsLargest(largest, free[..k])
    {
      SumStep(free, k);
      LargestStep(largest, free, k);
      minutes := minutes + WholeMinutes(Length(free[k]));
      if Length(largest) < Length(free[k]) {
        largest := free[k];
      }
    }
    assert free[..|free|] == free;
  }

  /** The minute that begins `k` minutes after the start. */
  ghost function MinuteAt(start: int, k: int): int {
    start + k * MINUTE
  }

  ghost function CountFree(slots: seq<Slot>, start: int, n: nat): nat {
    if n == 0 then 0 else CountFree(slots, start, n - 1) + if InSome(slots, MinuteAt(start, n - 1)) then 1 else 0
  }

  /** Minutes of the window that some booking of the resource takes. */
  ghost function BookedMinutes(bookings: seq<Booking>, id: string, start: int, n: nat): nat {
    if n == 0 then 0
    else BookedMinutes(bookings, id, start, n - 1) + if Booked(bookings, id, MinuteAt(start, n - 1)) then 1 else 0
  }

  ghost function CountHeld(slot: Slot, start: int, n: nat): nat {
    if n == 0 then 0 else CountHeld(slot, start, n - 1) + if Holds(slot, MinuteAt(start, n - 1)) then 1 else 0
  }

  lemma {:induction false} HeldMinutes(slot: Slot, start: int, a: nat, b: nat, n: nat)
    requires slot == Slot(MinuteAt(start, a), MinuteAt(start, b)) && a <= b
    ensures CountHeld(slot, start, n) == MinTime(n, b) - MinTime(n, a)
  {
    if n > 0 { HeldMinutes(slot, start, a, b, n - 1); }
  }

  ghost predicate Apart(slots: seq<Slot>, slot: Slot) {
    forall t :: InSome(slots, t) ==> !Holds(slot, t)
  }

  lemma LastIsApart(slots: seq<Slot>)
    requires Separated(slots) && slots != []
    ensures Apart(slots[..|slots| - 1], slots[|slots| - 1])
  {
    var front := slots[..|slots| - 1];
    forall t | InSome(front, t) ensures !Holds(slots[|slots| - 1], t) {
      var k :| 0 <= k < |front| && Holds(front[k], t);
      assert slots[k].endsAt < slots[|slots| - 1].startsAt;
    }
  }

  lemma MinutesBetween(start: int, a: int, b: int)
    requires a <= b
    ensures WholeMinutes(MinuteAt(start, b) - MinuteAt(start, a)) == b - a
  {
    var length := MinuteAt(start, b) - MinuteAt(start, a);
    assert length == (b - a) * MINUTE;
    DivideBy(length, MINUTE, b - a, 0);
  }

  lemma {:induction false} CountsAdd(slots: seq<Slot>, last: Slot, start: int, n: nat)
    requires Apart(slots, last)
    ensures CountFree(slots + [last], start, n) == CountFree(slots, start, n) + CountHeld(last, start, n)
  {
    if n > 0 {
      CountsAdd(slots, last, start, n - 1);
      InSomeAppend(slots, last, MinuteAt(start, n - 1));
    }
  }

  lemma {:induction false} NothingFree(start: int, n: nat)
    ensures CountFree([], start, n) == 0
  {
    if n > 0 { NothingFree(start, n - 1); }
  }

  ghost predicate WholeSlot(slot: Slot, start: int, n: nat) {
    exists a: nat, b: nat :: a < b <= n && slot == Slot(MinuteAt(start, a), MinuteAt(start, b))
  }

  /** Slots whose ends are whole minutes of the window. */
  ghost predicate OnMinutes(slots: seq<Slot>, start: int, n: nat) {
    forall k :: 0 <= k < |slots| ==> WholeSlot(slots[k], start, n)
  }

  lemma WholeSlotCounts(slot: Slot, start: int, n: nat)
    requires WholeSlot(slot, start, n)
    ensures WholeMinutes(Length(slot)) == CountHeld(slot, start, n)
  {
    var a: nat, b: nat :| a < b <= n && slot == Slot(MinuteAt(start, a), MinuteAt(start, b));
    HeldMinutes(slot, start, a, b, n);
    MinutesBetween(start, a, b);
  }

  lemma {:induction false} SumIsCount(slots: seq<Slot>, start: int, n: nat)
    requires Separated(slots) && OnMinutes(slots, start, n)
    ensures SumMinutes(slots) == CountFree(slots, start, n)
  {
    if slots == [] {
      NothingFree(start, n);
    } else {
      var front, last := slots[..|slots| - 1], slots[|slots| - 1];
      SumIsCount(front, start, n);
      WholeSlotCounts(last, start, n);
      LastIsApart(slots);
      CountsAdd(front, last, start, n);
      assert slots == front + [last];
    }
  }

  lemma {:induction false} FreeAndBookedCount(free: seq<Slot>, bookings: seq<Booking>, id: string, start: int, end: int, n: nat)
    requires IsFreeTime(free, bookings, id, start, end) && MinuteAt(start, n) <= end
    ensures CountFree(free, start, n) + BookedMinutes(bookings, id, start, n) == n
  {
    if n > 0 { FreeAndBookedCount(free, bookings, id, start, end, n - 1); }
  }

  ghost predicate OnGrid(start: int, t: int) {
    (t - start) % MINUTE == 0
  }

  ghost predicate BookedOnGrid(bookings: seq<Booking>, id: string, start: int) {
    forall k :: 0 <= k < |bookings| && bookings[k].valid && bookings[k].resourceId == id
      ==> OnGrid(start, bookings[k].startsAt) && OnGrid(start, bookings[k].endsAt)
  }

  lemma GridMinute(start: int, t: int)
    requires start <= t && OnGrid(start, t)
    ensures (t - start) / MINUTE >= 0 && t == MinuteAt(start, (t - start) / MINUTE)
  {
  }

  /** A free slot begins at the start of the window or where a booking ends. */
  lemma FreeStartsOnGrid(free: seq<Slot>, bookings: seq<Booking>, id: string, start: int, end: int, k: nat)
    requires IsFreeTime(free, bookings, id, start, end) && BookedOnGrid(bookings, id, start) && k < |free|
    ensures start <= free[k].startsAt && OnGrid(start, free[k].startsAt)
  {
    var s := free[k].startsAt;
    assert Holds(free[k], s) && InSome(free, s);
    if s != start {
      forall j | 0 <= j < |free| ensures !Holds(free[j], s - 1) {
        if j < k { assert free[j].endsAt < s; } else if j > k { assert free[k].endsAt < free[j].startsAt; }
      }
      assert !InSome(free, s - 1);
      var b :| 0 <= b < |bookings| && Takes(bookings[b], id, s - 1);
      assert !Takes(bookings[b], id, s);
    }
  }

  /** A free slot ends at the end of the window or where a booking begins. */
  lemma FreeEndsOnGrid(free: seq<Slot>, bookings: seq<Booking>, id: string, start: int, end: int, k: nat)
    requires IsFreeTime(free, bookings, id, start, end) && BookedOnGrid(bookings, id, start) && k < |free|
    requires OnGrid(start, end)
    ensures free[k].endsAt <= end && OnGrid(start, free[k].endsAt)
  {
    var e := free[k].endsAt;
    assert Holds(free[k], e - 1) && InSome(free, e - 1);
    if e != end {
      forall j | 0 <= j < |free| ensures !Holds(free[j], e) {
        if j < k { assert free[j].endsAt < free[k].startsAt; } else if j > k { assert e < free[j].startsAt; }
      }
      assert !InSome(free, e);
      var b :| 0 <= b < |bookings| && Takes(bookings[b], id, e);
      assert !Takes(bookings[b], id, e - 1);
    }
  }

  lemma GridSlotIsWhole(slot: Slot, start: int, n: nat)
    requires start <= slot.startsAt < slot.endsAt <= MinuteAt(start, n)
    requires OnGrid(start, slot.startsAt) && OnGrid(start, slot.endsAt)
    ensures WholeSlot(slot, start, n)
  {
    GridMinute(start, slot.startsAt);
    GridMinute(start, slot.endsAt);
    var a, b := (slot.startsAt - start) / MINUTE, (slot.endsAt - start) / MINUTE;
    assert slot == Slot(MinuteAt(start, a), MinuteAt(start, b));
  }

  lemma EndOnGrid(start: int, n: nat)
    ensures OnGrid(start, MinuteAt(start, n)) && WholeMinutes(MinuteAt(start, n) - start) == n
  {
    DivideBy(n * MINUTE, MINUTE, n, 0);
  }

  /** With times on whole minutes, free and booked minutes make up the window. */
  lemma MinutesAreConserved(free: seq<Slot>, bookings: seq<Booking>, id: string, start: int, end: int, n: nat)
    requires IsFreeTime(free, bookings, id, start, end) && BookedOnGrid(bookings, id, start) && end == MinuteAt(start, n)
    ensures SumMinutes(free) + BookedMinutes(bookings, id, start, n) == n == WholeMinutes(end - start)
  {
    EndOnGrid(start, n);
    forall k | 0 <= k < |free| ensures WholeSlot(free[k], start, n) {
      FreeStartsOnGrid(free, bookings, id, start, end, k);
      FreeEndsOnGrid(free, bookings, id, start, end, k);
      GridSlotIsWhole(free[k], start, n);
    }
    SumIsCount(free, start, n);
    FreeAndBookedCount(free, bookings, id, start, end, n);
  }

  // ---------- All resources ----------

  /** The name given by the last booking of a resource, valid or not. */
  ghost function LastName(bookings: seq<Booking>, id: string): Option<string> {
    if bookings == [] then None
    else if bookings[|bookings| - 1].resourceId == id then Some(bookings[|bookings| - 1].resourceName)
    else LastName(bookings[..|bookings| - 1], id)
  }

  ghost predicate Grouped(names: map<string, string>, byResource: map<string, seq<Slot>>, bookings: seq<Booking>,
                          start: int, end: int) {
    && (forall id :: LastName(bookings, id) == if id in names then Some(names[id]) else None)
    && (forall id :: Reserved(bookings, id, start, end) == if id in byResource then byResource[id] else [])
  }

  method Group(bookings: seq<Booking>, start: int, end: int)
    returns (names: map<string, string>, byResource: map<string, seq<Slot>>)
    ensures Grouped(names, byResource, bookings, start, end)
  {
    names, byResource := map[], map[];
    for k := 0 to |bookings|
      invariant Grouped(names, byResource, bookings[..k], start, end)
    {
      assert bookings[..k + 1][..k] == bookings[..k];
      var booking := bookings[k];
      names := names[booking.resourceId := booking.resourceName];
      if booking.valid {
        var before := if booking.resourceId in byResource then byResource[booking.resourceId] else [];
        byResource := byResource[booking.resourceId := before + [Clamped(booking, start, end)]];
      }
    }
    assert bookings[..|bookings|] == bookings;
  }

  function NameIn(names: map<string, string>, id: string): string {
    if id in names then names[id] else ""
  }

  function ByName(names: map<string, string>): (string, string) -> bool {
    (a: string, b: string) => StringLe(NameIn(names, a), NameIn(names, b))
  }

  /** Every resource once, in order of the names. */
  method SortedIds(names: map<string, string>) returns (ids: seq<string>)
    ensures Distinct(ids) && (forall id :: id in ids <==> id in names)
    ensures forall i, j :: 0 <= i < j < |ids| ==> StringLe(names[ids[i]], names[ids[j]])
  {
    var left := names.Keys;
    var all: seq<string> := [];
    while left != {}
      invariant Distinct(all) && (forall id :: id in names <==> id in all || id in left)
      invariant forall id :: id in all ==> id !in left
      decreases left
    {
      var id :| id in left;
      left := left - {id};
      all := all + [id];
    }
    StringLeOrder();
    assert TotalPreorder(ByName(names));
    ids := Sort(all, ByName(names));
    PermutationDistinct(ids, all);
    forall i, j | 0 <= i < j < |ids| ensures StringLe(names[ids[i]], names[ids[j]]) {
      assert ByName(names)(ids[i], ids[j]);
    }
  }

  ghost predicate IsCapacity(c: Capacity, bookings: seq<Booking>, start: int, end: int) {
    && LastName(bookings, c.resourceId) == Some(c.resourceName)
    && IsFreeTime(c.free, bookings, c.resourceId, start, end)
    && c.totalMinutes == WholeMinutes(end - start)
    && c.freeMinutes == SumMinutes(c.free) && IsLargest(c.largest, c.free)
  }

  ghost predicate EachResourceOnce(result: seq<Capacity>, bookings: seq<Booking>) {
    && (forall i, j :: 0 <= i < j < |result| ==> result[i].resourceId != result[j].resourceId)
    && (forall i, j :: 0 <= i < j < |result| ==> StringLe(result[i].resourceName, result[j].resourceName))
    && (forall id :: LastName(bookings, id).Some? <==> exists i :: 0 <= i < |result| && result[i].resourceId == id)
  }

  method CapacityOf(id: string, name: string, reserved: seq<Slot>, start: int, end: int, ghost bookings: seq<Booking>)
    returns (c: Capacity)
    requires LastName(bookings, id) == Some(name) && reserved == Reserved(bookings, id, start, end)
    ensures c.resourceId == id && IsCapacity(c, bookings, start, end)
  {
    var free := FreeSlots(reserved, start, end);
    FreeTimeIsComplement(free, bookings, id, start, end);
    var minutes, largest := Measure(free);
    c := Capacity(id, name, free, WholeMinutes(end - start), minutes, largest);
  }

  lemma ResourcesAreListed(result: seq<Capacity>, bookings: seq<Booking>, names: map<string, string>, ids: seq<string>)
    requires |result| == |ids| && Distinct(ids) && (forall id :: id in ids <==> id in names)
    requires forall i, j :: 0 <= i < j < |ids| ==> StringLe(names[ids[i]], names[ids[j]])
    requires forall id :: LastName(bookings, id) == if id in names then Some(names[id]) else None
    requires forall i :: 0 <= i < |ids| ==>
      result[i].resourceId == ids[i] && LastName(bookings, ids[i]) == Some(result[i].resourceName)
    ensures EachResourceOnce(result, bookings)
  {
    forall id ensures LastName(bookings, id).Some? <==> exists i :: 0 <= i < |result| && result[i].resourceId == id {
      if id in ids {
        var i :| 0 <= i < |ids| && ids[i] == id;
        assert result[i].resourceId == id;
      }
    }
    forall i, j | 0 <= i < j < |result| ensures StringLe(result[i].resourceName, result[j].resourceName) {
      assert ids[i] in names && ids[j] in names;
    }
  }

  method FreeCapacity(bookings: seq<Booking>, start: int, end: int) returns (result: seq<Capacity>)
    ensures EachResourceOnce(result, bookings)
    ensures forall i :: 0 <= i < |result| ==> IsCapacity(result[i], bookings, start, end)
  {
    var names, byResource := Group(bookings, start, end);
    var ids := SortedIds(names);
    result := [];
    for k := 0 to |ids|
      invariant |result| == k
      invariant forall i :: 0 <= i < k ==> result[i].resourceId == ids[i] && IsCapacity(result[i], bookings, start, end)
    {
      assert ids[k] in names;
      var c := CapacityOf(ids[k], names[ids[k]], if ids[k] in byResource then byResource[ids[k]] else [], start, end, bookings);
      result := result + [c];
    }
    ResourcesAreListed(result, bookings, names, ids);
  }
}
