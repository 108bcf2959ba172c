/** Limits how often a client may call within a minute, in bounded memory. */
module RateLimiter {
  import opened Durations
  import opened Options
  import opened Ordering

  /** Instants are counted from the zero time, in nanoseconds. */
  const ZERO_TIME := 0
  const SWEEP_THRESHOLD := 4096
  const SWEEP_INTERVAL := SECOND
  const MAX_ENTRIES := 65536
  const DEFAULT_LIMIT := 30

  datatype Window = Window(started: int, count: nat)

  datatype Call<K> = Call(key: K, now: int)

  datatype State<K> = State(windows: map<K, Window>, lastSweep: int)

  datatype Outcome = Allowed | OverLimit | Full

  // ---------- One call ----------

  ghost function Swept<K>(windows: map<K, Window>, now: int): map<K, Window> {
    map k | k in windows && now - windows[k].started < MINUTE :: windows[k]
  }

  /** A client without a window asks, 4096 windows are held, and the last sweep was a second ago. */
  ghost predicate SweepIsDue<K>(s: State<K>, call: Call<K>) {
    call.key !in s.windows && |s.windows| >= 4_096 && call.now - s.lastSweep >= 1_000_000_000
  }

  ghost function AfterSweep<K>(s: State<K>, call: Call<K>): State<K> {
    if SweepIsDue(s, call) then State(Swept(s.windows, call.now), call.now) else s
  }

  ghost predicate IsFull<K>(s: State<K>, call: Call<K>) {
    call.key !in s.windows && |s.windows| >= 65_536
  }

  /** The window a call falls in, given the client's last one. */
  ghost function Counted(last: Option<Window>, now: int): Window {
    if last.None? || last.value.started == 0 || now - last.value.started >= MINUTE
    then Window(now, 1)
    else Window(last.value.started, last.value.count + 1)
  }

  ghost function WindowOf<K>(windows: map<K, Window>, key: K): Option<Window> {
    if key in windows then Some(windows[key]) else None
  }

  ghost function Step<K>(limit: int, s: State<K>, call: Call<K>): (State<K>, Outcome) {
    var swept := AfterSweep(s, call);
    if IsFull(swept, call) then (swept, Full)
    else
      var w := Counted(WindowOf(swept.windows, call.key), call.now);
      (swept.(windows := swept.windows[call.key := w]), if w.count <= limit then Allowed else OverLimit)
  }

  // ---------- Traces ----------

  ghost function Run<K>(limit: int, calls: seq<Call<K>>): State<K> {
    if calls == [] then State(map[], 0)
    else Step(limit, Run(limit, calls[..|calls| - 1]), calls[|calls| - 1]).0
  }

  /** What the last call of a trace is told. */
  ghost function LastOutcome<K>(limit: int, calls: seq<Call<K>>): Outcome
    requires calls != []
  {
    Step(limit, Run(limit, calls[..|calls| - 1]), calls[|calls| - 1]).1
  }

  /** A clock that never runs backwards and stands after the zero time. */
  ghost predicate Clock<K>(calls: seq<Call<K>>) {
    && (forall i :: 0 <= i < |calls| ==> calls[i].now > 0)
    && (forall i, j :: 0 <= i < j < |calls| ==> calls[i].now <= calls[j].now)
  }

  ghost function Time<K>(calls: seq<Call<K>>): int {
    if calls == [] then 0 else calls[|calls| - 1].now
  }

  lemma PrefixClock<K>(calls: seq<Call<K>>)
    requires Clock(calls) && calls != []
    ensures Clock(calls[..|calls| - 1]) && Time(calls[..|calls| - 1]) <= Time(calls)
  {
    var front := calls[..|calls| - 1];
    assert forall i :: 0 <= i < |front| ==> front[i] == calls[i];
  }

  lemma SweptIsSmaller<K>(windows: map<K, Window>, now: int)
    ensures |Swept(windows, now)| <= |windows|
  {
    SubsetSize(Swept(windows, now).Keys, windows.Keys);
  }

  lemma UpdateSize<K>(windows: map<K, Window>, key: K, w: Window)
    ensures |windows[key := w]| == if key in windows then |windows| else |windows| + 1
  {
    assert windows[key := w].Keys == windows.Keys + {key};
  }

  /** However the calls go, no more windows are held than the cap allows. */
  lemma {:induction false} MemoryIsBounded<K>(limit: int, calls: seq<Call<K>>)
    ensures |Run(limit, calls).windows| <= 65_536
  {
    if calls != [] {
      MemoryIsBounded(limit, calls[..|calls| - 1]);
      var s, call := Run(limit, calls[..|calls| - 1]), calls[|calls| - 1];
      SweptIsSmaller(s.windows, call.now);
      var windows := AfterSweep(s, call).windows;
      var w := Counted(WindowOf(windows, call.key), call.now);
      UpdateSize(windows, call.key, w);
    }
  }

  // ---------- Nothing is forgotten too early ----------

  /** The last window of a client, remembered for ever; calls refused for want of room leave no trace. */
  ghost function LastWindow<K>(limit: int, calls: seq<Call<K>>, client: K): Option<Window> {
    if calls == [] then None
    else
      var front, call := calls[..|calls| - 1], calls[|calls| - 1];
      var before := LastWindow(limit, front, client);
      if call.key == client && LastOutcome(limit, calls) != Full then Some(Counted(before, call.now)) else before
  }

  ghost predicate Remembers(held: Option<Window>, last: Option<Window>, time: int) {
    && (last.Some? ==> 0 < last.value.started <= time && last.value.count >= 1)
    && (if held.Some? then last == held else last.None? || time - last.value.started >= MINUTE)
  }

  /** What the limiter holds for a client is its last window; what it has dropped is over. */
  lemma {:induction false} LimiterRemembers<K>(limit: int, calls: seq<Call<K>>, client: K)
    requires Clock(calls)
    ensures Remembers(WindowOf(Run(limit, calls).windows, client), LastWindow(limit, calls, client), Time(calls))
  {
    if calls != [] {
      var front, call := calls[..|calls| - 1], calls[|calls| - 1];
      PrefixClock(calls);
      LimiterRemembers(limit, front, client);
      LimiterRemembers(limit, front, call.key);
    }
  }

  /** The window a call is counted in does not depend on what was swept. */
  lemma CallIsCountedAsRemembered<K>(limit: int, calls: seq<Call<K>>)
    requires calls != [] && Clock(calls)
    ensures var front, call := calls[..|calls| - 1], calls[|calls| - 1];
            var w := Counted(LastWindow(limit, front, call.key), call.now);
            LastOutcome(limit, calls) == Full || LastOutcome(limit, calls) == (if w.count <= limit then Allowed else OverLimit)
  {
    PrefixClock(calls);
    LimiterRemembers(limit, calls[..|calls| - 1], calls[|calls| - 1].key);
  }

  // ---------- Windows of a client are a minute apart ----------

  /** The call opens a window for its client. */
  ghost predicate Opens<K>(limit: int, calls: seq<Call<K>>, i: nat)
    requires i < |calls|
  {
    LastOutcome(limit, calls[..i + 1]) != Full
    && Counted(LastWindow(limit, calls[..i], calls[i].key), calls[i].now) == Window(calls[i].now, 1)
  }

  /** The last window started no earlier than any call that opened one. */
  lemma {:induction false} LastWindowIsLatest<K>(limit: int, calls: seq<Call<K>>, i: nat, n: nat)
    requires i < n <= |calls| && Clock(calls) && Opens(limit, calls, i)
    ensures LastWindow(limit, calls[..n], calls[i].key).Some?
    ensures LastWindow(limit, calls[..n], calls[i].key).value.started >= calls[i].now
  {
    var client := calls[i].key;
    var front, last := calls[..n - 1], calls[n - 1];
    assert calls[..n][..n - 1] == front && calls[..n][n - 1] == last;
    if i == n - 1 {
    } else {
      LastWindowIsLatest(limit, calls, i, n - 1);
      assert calls[i].now <= last.now;
    }
  }

  lemma WindowStartsAreApart<K>(limit: int, calls: seq<Call<K>>, i: nat, j: nat)
    requires i < j < |calls| && calls[i].key == calls[j].key && Clock(calls)
    requires Opens(limit, calls, i) && Opens(limit, calls, j)
    ensures calls[j].now - calls[i].now >= 60_000_000_000
  {
    LastWindowIsLatest(limit, calls, i, j);
    assert Clock(calls[..j]);
    LimiterRemembers(limit, calls[..j], calls[i].key);
  }

  // ---------- At most twice the limit in any minute ----------

  /** Allowed calls of a client from `a` on, within a minute. */
  ghost function AllowedWithin<K>(limit: int, calls: seq<Call<K>>, client: K, a: int): nat {
    if calls == [] then 0
    else
      var call := calls[|calls| - 1];
      AllowedWithin(limit, calls[..|calls| - 1], client, a)
      + (if call.key == client && a <= call.now < a + 60_000_000_000 && LastOutcome(limit, calls) == Allowed then 1 else 0)
  }

  ghost function Min(a: int, b: int): int {
    if a <= b then a else b
  }

  /** How many may have been allowed, by where the client's last window starts. */
  ghost predicate Bounded(limit: int, last: Option<Window>, a: int, time: int, allowed: nat) {
    if time < a || last.None? then allowed == 0
    else if last.value.started < a then allowed <= Min(last.value.count, limit)
    else if last.value.started < a + MINUTE then allowed <= limit + Min(last.value.count, limit)
    else allowed <= 2 * limit
  }

  lemma {:induction false} AllowedCallsAreBounded<K>(limit: int, calls: seq<Call<K>>, client: K, a: int)
    requires limit >= 1 && Clock(calls)
    ensures Bounded(limit, LastWindow(limit, calls, client), a, Time(calls), AllowedWithin(limit, calls, client, a))
  {
    if calls != [] {
      var front := calls[..|calls| - 1];
      PrefixClock(calls);
      AllowedCallsAreBounded(limit, front, client, a);
      LimiterRemembers(limit, front, client);
      CallIsCountedAsRemembered(limit, calls);
    }
  }

  lemma NeverMoreThanTwiceTheLimit<K>(limit: int, calls: seq<Call<K>>, client: K, a: int)
    requires limit >= 1 && Clock(calls)
    ensures AllowedWithin(limit, calls, client, a) <= 2 * limit
  {
    AllowedCallsAreBounded(limit, calls, client, a);
  }

  // ---------- The same decisions as a limiter that never sweeps ----------

  /** The client's last window when nothing is ever dropped or refused for want of room. */
  ghost function AloneWindow<K>(calls: seq<Call<K>>, client: K): Option<Window> {
    if calls == [] then None
    else
      var before := AloneWindow(calls[..|calls| - 1], client);
      var call := calls[|calls| - 1];
      if call.key == client then Some(Counted(before, call.now)) else before
  }

  ghost predicate AloneAllows<K>(limit: int, calls: seq<Call<K>>)
    requires calls != []
  {
    var call := calls[|calls| - 1];
    Counted(AloneWindow(calls[..|calls| - 1], call.key), call.now).count <= limit
  }

  ghost predicate NeverFull<K>(limit: int, calls: seq<Call<K>>) {
    forall i :: 0 < i <= |calls| ==> LastOutcome(limit, calls[..i]) != Full
  }

  lemma {:induction false} NeverFullRemembersAll<K>(limit: int, calls: seq<Call<K>>, client: K)
    requires NeverFull(limit, calls)
    ensures LastWindow(limit, calls, client) == AloneWindow(calls, client)
  {
    if calls != [] {
      var front := calls[..|calls| - 1];
      forall i | 0 < i <= |front| ensures LastOutcome(limit, front[..i]) != Full {
        assert front[..i] == calls[..i];
      }
      NeverFullRemembersAll(limit, front, client);
      assert calls[..|calls|] == calls;
    }
  }

  /** While there is room, each decision is the one a limiter would take that keeps every window for ever. */
  lemma SweepingChangesNoDecision<K>(limit: int, calls: seq<Call<K>>)
    requires calls != [] && Clock(calls) && NeverFull(limit, calls)
    ensures LastOutcome(limit, calls) == Allowed <==> AloneAllows(limit, calls)
  {
    var front, call := calls[..|calls| - 1], calls[|calls| - 1];
    forall i | 0 < i <= |front| ensures LastOutcome(limit, front[..i]) != Full {
      assert front[..i] == calls[..i];
    }
    NeverFullRemembersAll(limit, front, call.key);
    CallIsCountedAsRemembered(limit, calls);
    assert calls[..|calls|] == calls;
  }

  ghost function CallsOf<K>(calls: seq<Call<K>>, client: K): seq<Call<K>> {
    if calls == [] then []
    else
      CallsOf(calls[..|calls| - 1], client)
      + (if calls[|calls| - 1].key == client then [calls[|calls| - 1]] else [])
  }

  /** Such a limiter treats each client as if it were the only one. */
  lemma {:induction false} ClientsDoNotAffectEachOther<K>(calls: seq<Call<K>>, client: K)
    ensures AloneWindow(calls, client) == AloneWindow(CallsOf(calls, client), client)
  {
    if calls != [] {
      var front, call := calls[..|calls| - 1], calls[|calls| - 1];
      ClientsDoNotAffectEachOther(front, client);
      if call.key == client {
        var own := CallsOf(front, client);
        assert (own + [call])[..|own|] == own;
      } else {
        assert CallsOf(calls, client) == CallsOf(front, client);
      }
    }
  }

  // ---------- Who is allowed ----------

  /** How many calls a client has made from `a` on. */
  ghost function CallsFrom<K>(calls: seq<Call<K>>, client: K, a: int): nat {
    if calls == [] then 0
    else
      var call := calls[|calls| - 1];
      CallsFrom(calls[..|calls| - 1], client, a) + (if call.key == client && call.now >= a then 1 else 0)
  }

  lemma {:induction false} FewerCallsLater<K>(calls: seq<Call<K>>, client: K, a: int, b: int)
    requires a <= b
    ensures CallsFrom(calls, client, b) <= CallsFrom(calls, client, a)
  {
    if calls != [] { FewerCallsLater(calls[..|calls| - 1], client, a, b); }
  }

  lemma {:induction false} NoCallsFrom<K>(calls: seq<Call<K>>, client: K, a: int)
    requires forall i :: 0 <= i < |calls| && calls[i].key == client ==> calls[i].now < a
    ensures CallsFrom(calls, client, a) == 0
  {
    if calls != [] { NoCallsFrom(calls[..|calls| - 1], client, a); }
  }

  /** No call of the client came a minute or more after its window started. */
  ghost predicate AllWithinWindow<K>(calls: seq<Call<K>>, client: K, window: Option<Window>) {
    forall i :: 0 <= i < |calls| && calls[i].key == client ==>
      window.Some? && calls[i].now < window.value.started + 60_000_000_000
  }

  lemma StaysWithin<K>(calls: seq<Call<K>>, client: K, before: Option<Window>)
    requires calls != [] && calls[|calls| - 1].key != client && AllWithinWindow(calls[..|calls| - 1], client, before)
    ensures AllWithinWindow(calls, client, before)
  {
    forall i | 0 <= i < |calls| && calls[i].key == client
      ensures before.Some? && calls[i].now < before.value.started + 60_000_000_000
    {
      assert calls[..|calls| - 1][i] == calls[i];
    }
  }

  lemma StaysWithinWindow<K>(calls: seq<Call<K>>, client: K, before: Option<Window>, now: int)
    requires calls != [] && Clock(calls) && now == calls[|calls| - 1].now
    requires AllWithinWindow(calls[..|calls| - 1], client, before) && (before.Some? ==> before.value.started > 0)
    ensures AllWithinWindow(calls, client, Some(Counted(before, now)))
  {
    var w := Counted(before, now);
    forall i | 0 <= i < |calls| && calls[i].key == client ensures calls[i].now < w.started + 60_000_000_000 {
      if i < |calls| - 1 {
        assert calls[..|calls| - 1][i] == calls[i];
        assert calls[i].now <= now;
      }
    }
  }

  /** The count of a client's window is the number of its calls since the window started, all of them within a minute. */
  lemma {:induction false} WindowCountsItsCalls<K>(calls: seq<Call<K>>, client: K)
    requires Clock(calls)
    ensures var w := AloneWindow(calls, client);
            && AllWithinWindow(calls, client, w)
            && (w.Some? ==> 0 < w.value.started <= Time(calls))
            && (w.Some? ==> w.value.count == CallsFrom(calls, client, w.value.started))
  {
    if calls != [] {
      var front, call := calls[..|calls| - 1], calls[|calls| - 1];
      PrefixClock(calls);
      WindowCountsItsCalls(front, client);
      var before := AloneWindow(front, client);
      if call.key == client {
        if before.None? || call.now - before.value.started >= 60_000_000_000 { NoCallsFrom(front, client, call.now); }
        StaysWithinWindow(calls, client, before, call.now);
      } else {
        StaysWithin(calls, client, before);
      }
    }
  }

  /** While there is room, a call is allowed exactly when its window holds no more calls of the client than the limit. */
  lemma AllowedUpToTheLimit<K>(limit: int, calls: seq<Call<K>>)
    requires calls != [] && Clock(calls) && NeverFull(limit, calls)
    ensures var client := calls[|calls| - 1].key;
            && AloneWindow(calls, client).Some?
            && (LastOutcome(limit, calls) == Allowed <==>
                  CallsFrom(calls, client, AloneWindow(calls, client).value.started) <= limit)
  {
    SweepingChangesNoDecision(limit, calls);
    WindowCountsItsCalls(calls, calls[|calls| - 1].key);
  }

  /** A client that has made fewer calls than the limit within the last minute is never refused while there is room. */
  lemma FewCallsAreAllowed<K>(limit: int, calls: seq<Call<K>>)
    requires calls != [] && Clock(calls) && NeverFull(limit, calls)
    requires var front, call := calls[..|calls| - 1], calls[|calls| - 1];
             CallsFrom(front, call.key, call.now - 60_000_000_000 + 1) < limit
    ensures LastOutcome(limit, calls) == Allowed
  {
    var front, call := calls[..|calls| - 1], calls[|calls| - 1];
    PrefixClock(calls);
    WindowCountsItsCalls(front, call.key);
    var before := AloneWindow(front, call.key);
    if before.Some? && call.now - before.value.started < 60_000_000_000 {
      FewerCallsLater(front, call.key, call.now - 60_000_000_000 + 1, before.value.started);
    }
    SweepingChangesNoDecision(limit, calls);
  }

  ghost function Clients<K>(calls: seq<Call<K>>): set<K> {
    if calls == [] then {} else Clients(calls[..|calls| - 1]) + {calls[|calls| - 1].key}
  }

  lemma {:induction false} WindowsAreOfClients<K>(limit: int, calls: seq<Call<K>>)
    ensures Run(limit, calls).windows.Keys <= Clients(calls)
  {
    if calls != [] { WindowsAreOfClients(limit, calls[..|calls| - 1]); }
  }

  lemma LastIsNotFull<K>(limit: int, calls: seq<Call<K>>)
    requires calls != [] && |Clients(calls)| <= 65_536
    ensures LastOutcome(limit, calls) != Full
  {
    var front, call := calls[..|calls| - 1], calls[|calls| - 1];
    var swept := AfterSweep(Run(limit, front), call);
    WindowsAreOfClients(limit, front);
    if call.key !in swept.windows {
      assert swept.windows.Keys + {call.key} <= Clients(calls);
      SubsetSize(swept.windows.Keys + {call.key}, Clients(calls));
    }
  }

  lemma {:induction false} ClientsGrow<K>(calls: seq<Call<K>>, n: nat)
    requires n <= |calls|
    ensures Clients(calls[..n]) <= Clients(calls)
    decreases |calls|
  {
    if n == |calls| {
      assert calls[..n] == calls;
    } else {
      ClientsGrow(calls[..|calls| - 1], n);
      assert calls[..|calls| - 1][..n] == calls[..n];
    }
  }

  /** With no more than 65536 clients there is always room. */
  lemma FewClientsAreNeverRefusedForRoom<K>(limit: int, calls: seq<Call<K>>)
    requires |Clients(calls)| <= 65_536
    ensures NeverFull(limit, calls)
  {
    forall i | 0 < i <= |calls| ensures LastOutcome(limit, calls[..i]) != Full {
      ClientsGrow(calls, i);
      SubsetSize(Clients(calls[..i]), Clients(calls));
      LastIsNotFull(limit, calls[..i]);
    }
  }

  // ---------- The limiter ----------

  class Limiter<K(!new,==)> {
    var windows: map<K, Window>
    var lastSweep: int
    const limit: int
    /** The calls so far. */
    ghost var calls: seq<Call<K>>

    ghost predicate Valid()
      reads this
    {
      limit >= 1 && State(windows, lastSweep) == Run(limit, calls)
    }

    constructor (limit: int)
      ensures Valid() && calls == [] && this.limit == if limit < 1 then 30 else limit
    {
      this.limit := if limit < 1 then DEFAULT_LIMIT else limit;
      windows, lastSweep, calls := map[], ZERO_TIME, [];
    }

    method Allow(key: K, now: int) returns (allowed: bool)
      requires Valid()
      modifies this
      ensures Valid() && calls == old(calls) + [Call(key, now)]
      ensures allowed <==> LastOutcome(limit, calls) == Allowed
      ensures |windows| <= 65_536
    {
      ghost var before, call := State(windows, lastSweep), Call(key, now);
      calls := calls + [call];
      assert calls[..|calls| - 1] == old(calls);
      MemoryIsBounded(limit, calls);
      var tracked := key in windows;
      var window := if tracked then windows[key] else Window(ZERO_TIME, 0);
      if !tracked && |windows| >= SWEEP_THRESHOLD && now - lastSweep >= SWEEP_INTERVAL {
        lastSweep := now;
        Sweep(now);
      }
      assert State(windows, lastSweep) == AfterSweep(before, call);
      if !tracked && |windows| >= MAX_ENTRIES {
        return false;
      }
      if window.started == ZERO_TIME || now - window.started >= MINUTE {
        window := Window(now, 0);
      }
      window := window.(count := window.count + 1);
      windows := windows[key := window];
      allowed := window.count <= limit;
    }

    /** Deletes the windows that are over. */
    method Sweep(now: int)
      modifies this`windows
      ensures windows == Swept(old(windows), now)
    {
      var left := windows.Keys;
      while left != {}
        invariant left <= old(windows).Keys
        invariant forall k :: k in windows <==> k in old(windows) && (k in left || now - old(windows)[k].started < MINUTE)
        invariant forall k :: k in windows ==> windows[k] == old(windows)[k]
        decreases left
      {
        var k :| k in left;
        left := left - {k};
        if now - windows[k].started >= MINUTE {
          windows := windows - {k};
        }
      }
    }
  }
}
