/** Movie fragments: where a track fragment starts, and how far its runs reach. */
module Mp4Fragments {
  import opened Options
  import opened Arithmetic
  import opened Bytes
  import opened ItemBudgets
  import opened Mp4Boxes
  import opened Mp4Timing

  const TFHD: seq<byte> := [116, 102, 104, 100]
  const TFDT: seq<byte> := [116, 102, 100, 116]
  const TRUN: seq<byte> := [116, 114, 117, 110]

  lemma KindsAreNamed()
    ensures |TFHD| == |TFDT| == |TRUN| == 4 && Spells(TFHD, "tfhd") && Spells(TFDT, "tfdt") && Spells(TRUN, "trun")
  {
  }

  ghost predicate InData(data: seq<byte>, boxes: seq<Box>) {
    forall k :: 0 <= k < |boxes| ==> boxes[k].dataOffset <= boxes[k].end <= |data|
  }

  lemma {:induction false} TiledIsInData(data: seq<byte>, offset: nat, to: nat, limit: nat, boxes: seq<Box>)
    requires Tiles(data, offset, to, limit, boxes) && limit <= |data|
    ensures InData(data, boxes)
    decreases |boxes|
  {
    if boxes != [] {
      BoxAdvances(data, offset, limit, boxes[0]);
      TiledIsInData(data, boxes[0].end, to, limit, boxes[1..]);
      assert boxes == [boxes[0]] + boxes[1..];
    }
  }

  function Payload(data: seq<byte>, box: Box): seq<byte>
    requires box.dataOffset <= box.end <= |data|
  {
    data[box.dataOffset..box.end]
  }

  // ---------- The fragment's header ----------

  predicate AllowedHeaderFlags(header: seq<byte>)
    requires |header| >= 8
  {
    header[0] == 0 && header[1] < 4 && header[2] == 0 && header[3] < 64 && !Bit(header[3], 4)
  }

  /** Where the default sample time stands, after two optional fields. */
  function DefaultOffset(header: seq<byte>): nat
    requires |header| >= 8
  {
    8 + (if Bit(header[3], 1) then 8 else 0) + Four(Bit(header[3], 2))
  }

  /** The default sample time, zero when there is none; nothing when the fields do not fill the header. */
  function DefaultTime(header: seq<byte>): (r: Option<nat>)
    requires |header| >= 8
    ensures r.Some? ==> r.value < POW32
  {
    var at := DefaultOffset(header);
    var length := at + Four(Bit(header[3], 8)) + Four(Bit(header[3], 16)) + Four(Bit(header[3], 32));
    if length != |header| then None
    else if Bit(header[3], 8) then Some(Word(header, at))
    else Some(0)
  }

  /** Where the fragment starts, in 32 or in 64 bits. */
  function BaseTime(time: seq<byte>): Option<nat> {
    if |time| < 8 || time[1] != 0 || time[2] != 0 || time[3] != 0 then None
    else if time[0] == 0 then if |time| == 8 then Some(Word(time, 4)) else None
    else if time[0] == 1 then if |time| == 12 then Some(BigEndian(time[4..12])) else None
    else None
  }

  // ---------- The runs ----------

  /** What matters about a run: whether it is well formed with no sample taking no time, its length, and its samples. */
  datatype Reach = Reach(good: bool, time: nat, count: nat)

  ghost function ReachOf(run: seq<byte>, defaultTime: nat): Reach {
    if !IsRun(run) then Reach(false, 0, 0)
    else
      var times := SampleTimes(run, defaultTime);
      Reach(forall k :: 0 <= k < |times| ==> times[k] > 0, Sum(times), RunHead(run).count)
  }

  /** The runs among the boxes of a fragment. */
  ghost function RunsOf(data: seq<byte>, boxes: seq<Box>, defaultTime: nat): seq<Reach>
    requires InData(data, boxes)
  {
    if boxes == [] then []
    else
      var front, last := RunsOf(data, boxes[..|boxes| - 1], defaultTime), boxes[|boxes| - 1];
      if last.kind == TRUN then front + [ReachOf(Payload(data, last), defaultTime)] else front
  }

  ghost function Times(runs: seq<Reach>): (times: seq<nat>)
    ensures |times| == |runs| && forall k :: 0 <= k < |runs| ==> times[k] == runs[k].time
  {
    seq(|runs|, k requires 0 <= k < |runs| => runs[k].time)
  }

  ghost function Counts(runs: seq<Reach>): (counts: seq<nat>)
    ensures |counts| == |runs| && forall k :: 0 <= k < |runs| ==> counts[k] == runs[k].count
  {
    seq(|runs|, k requires 0 <= k < |runs| => runs[k].count)
  }

  ghost predicate AllGood(runs: seq<Reach>) {
    forall k :: 0 <= k < |runs| ==> runs[k].good
  }

  /** Well-formed runs that end no later than the maximum and stay within the budget. */
  ghost predicate RunsFit(runs: seq<Reach>, room: int, left: int) {
    AllGood(runs) && Sum(Times(runs)) <= room && Sum(Counts(runs)) <= left
  }

  lemma OneMoreSum(runs: seq<Reach>, run: Reach)
    ensures Sum(Times(runs + [run])) == Sum(Times(runs)) + run.time
    ensures Sum(Counts(runs + [run])) == Sum(Counts(runs)) + run.count
  {
    assert Times(runs + [run]) == Times(runs) + [run.time];
    assert Counts(runs + [run]) == Counts(runs) + [run.count];
    SumAppend(Times(runs), run.time);
    SumAppend(Counts(runs), run.count);
  }

  /** Whether one more run fits is decided by that run alone. */
  lemma OneMoreRun(runs: seq<Reach>, run: Reach, room: int, left: int)
    requires RunsFit(runs, room, left)
    ensures RunsFit(runs + [run], room, left) <==>
      run.good && run.time <= room - Sum(Times(runs)) && run.count <= left - Sum(Counts(runs))
  {
    OneMoreSum(runs, run);
    assert (runs + [run])[|runs|] == run;
  }

  /** A run that does not fit is not made up for by later ones. */
  lemma LaterRunsDoNotHelp(runs: seq<Reach>, all: seq<Reach>, room: int, left: int)
    requires runs <= all && RunsFit(all, room, left)
    ensures RunsFit(runs, room, left)
  {
    SumPrefix(Times(all), |runs|);
    SumPrefix(Counts(all), |runs|);
    assert Times(all)[..|runs|] == Times(runs);
    assert Counts(all)[..|runs|] == Counts(runs);
  }

  lemma {:induction false} RunsOfPrefix(data: seq<byte>, boxes: seq<Box>, defaultTime: nat, n: nat)
    requires InData(data, boxes) && n <= |boxes|
    ensures RunsOf(data, boxes[..n], defaultTime) <= RunsOf(data, boxes, defaultTime)
    decreases |boxes|
  {
    if n == |boxes| {
      assert boxes[..n] == boxes;
    } else {
      RunsOfPrefix(data, boxes[..|boxes| - 1], defaultTime, n);
      assert boxes[..|boxes| - 1][..n] == boxes[..n];
    }
  }

  lemma OneMoreBox(data: seq<byte>, boxes: seq<Box>, defaultTime: nat, k: nat)
    requires InData(data, boxes) && k < |boxes|
    ensures RunsOf(data, boxes[..k + 1], defaultTime) ==
      RunsOf(data, boxes[..k], defaultTime)
      + if boxes[k].kind == TRUN then [ReachOf(Payload(data, boxes[k]), defaultTime)] else []
  {
    assert boxes[..k + 1][..k] == boxes[..k];
  }

  lemma RunStops(data: seq<byte>, boxes: seq<Box>, defaultTime: nat, k: nat, room: int, left: int)
    requires InData(data, boxes) && k < |boxes| && !RunsFit(RunsOf(data, boxes[..k + 1], defaultTime), room, left)
    ensures !RunsFit(RunsOf(data, boxes, defaultTime), room, left)
  {
    RunsOfPrefix(data, boxes, defaultTime, k + 1);
    if RunsFit(RunsOf(data, boxes, defaultTime), room, left) {
      LaterRunsDoNotHelp(RunsOf(data, boxes[..k + 1], defaultTime), RunsOf(data, boxes, defaultTime), room, left);
    }
  }

  method ReadRun(run: seq<byte>, defaultTime: nat, maximum: nat, budget: ItemBudget) returns (result: Option<nat>)
    requires budget.items <= MAXIMUM_ITEMS && maximum <= MAX_UINT64 && defaultTime < POW32
    modifies budget
    ensures old(budget.items) <= budget.items <= MAXIMUM_ITEMS
    ensures var r := ReachOf(run, defaultTime);
      && (result.Some? <==> r.good && r.time <= maximum && r.count <= MAXIMUM_ITEMS - old(budget.items))
      && (result.Some? ==> result.value == r.time && budget.items == old(budget.items) + r.count)
  {
    result := RunDuration(run, defaultTime, maximum, budget);
  }

  /** Adds up the runs after `base`; nothing when one is malformed or goes beyond the maximum or the budget. */
  method SumRuns(data: seq<byte>, boxes: seq<Box>, defaultTime: nat, base: nat, maximum: nat, budget: ItemBudget)
    returns (result: Option<nat>)
    requires InData(data, boxes) && defaultTime < POW32 && base <= maximum <= MAX_UINT64 && budget.items <= MAXIMUM_ITEMS
    modifies budget
    ensures old(budget.items) <= budget.items <= MAXIMUM_ITEMS
    ensures result.Some? <==> RunsOf(data, boxes, defaultTime) != []
                              && RunsFit(RunsOf(data, boxes, defaultTime), maximum - base, MAXIMUM_ITEMS - old(budget.items))
    ensures result.Some? ==> result.value == base + Sum(Times(RunsOf(data, boxes, defaultTime))) <= maximum
  {
    ghost var left := MAXIMUM_ITEMS - budget.items;
    ghost var runs: seq<Reach> := [];
    var units, found := base, false;
    for k := 0 to |boxes|
      invariant runs == RunsOf(data, boxes[..k], defaultTime) && (found <==> runs != [])
      invariant RunsFit(runs, maximum - base, left) && units == base + Sum(Times(runs))
      invariant budget.items == old(budget.items) + Sum(Counts(runs))
    {
      OneMoreBox(data, boxes, defaultTime, k);
      if boxes[k].kind != TRUN {
        continue;
      }
      ghost var run := ReachOf(Payload(data, boxes[k]), defaultTime);
      OneMoreRun(runs, run, maximum - base, left);
      OneMoreSum(runs, run);
      var added := ReadRun(Payload(data, boxes[k]), defaultTime, maximum - units, budget);
      if added.None? {
        RunStops(data, boxes, defaultTime, k, maximum - base, left);
        return None;
      }
      runs := runs + [run];
      units, found := units + added.value, true;
    }
    assert boxes[..|boxes|] == boxes;
    result := if found then Some(units) else None;
  }

  // ---------- A whole fragment ----------

  datatype Inspection = Malformed | OtherTrack | Units(units: nat)

  ghost predicate IsOnlyAt(boxes: seq<Box>, kind: seq<byte>, at: int) {
    0 <= at < |boxes| && forall k :: 0 <= k < |boxes| ==> (boxes[k].kind == kind <==> k == at)
  }

  /** The only box of a kind, or none. */
  ghost predicate IsOnly(boxes: seq<Box>, kind: seq<byte>, found: Option<Box>) {
    if found.None? then forall k :: 0 <= k < |boxes| ==> boxes[k].kind != kind
    else exists at :: IsOnlyAt(boxes, kind, at) && boxes[at] == found.value
  }

  lemma TwiceIsNotOnly(boxes: seq<Box>, kind: seq<byte>, i: nat, j: nat)
    requires i < j < |boxes| && boxes[i].kind == kind && boxes[j].kind == kind
    ensures forall only :: !IsOnly(boxes, kind, only)
  {
  }

  /** No box of the kind occurs twice; tells the one there is. */
  method FindOnly(boxes: seq<Box>, kind: seq<byte>) returns (unique: bool, found: Option<Box>)
    ensures unique <==> exists only :: IsOnly(boxes, kind, only)
    ensures unique ==> IsOnly(boxes, kind, found)
  {
    found := None;
    var at := -1;
    for k := 0 to |boxes|
      invariant if at < 0 then found.None? && forall i :: 0 <= i < k ==> boxes[i].kind != kind
                else at < k && found == Some(boxes[at]) && forall i :: 0 <= i < k ==> (boxes[i].kind == kind <==> i == at)
    {
      if boxes[k].kind == kind {
        if at >= 0 {
          TwiceIsNotOnly(boxes, kind, at, k);
          return false, None;
        }
        found, at := Some(boxes[k]), k;
      }
    }
    assert at >= 0 ==> IsOnlyAt(boxes, kind, at);
    assert IsOnly(boxes, kind, found);
    unique := true;
  }

  lemma OnlyIsUnique(boxes: seq<Box>, kind: seq<byte>, a: Option<Box>, b: Option<Box>)
    requires IsOnly(boxes, kind, a) && IsOnly(boxes, kind, b)
    ensures a == b
  {
    if a.Some? && b.Some? {
      var i :| IsOnlyAt(boxes, kind, i) && boxes[i] == a.value;
      var j :| IsOnlyAt(boxes, kind, j) && boxes[j] == b.value;
    }
  }

  /** A header of the right form for the wanted track. */
  ghost predicate IsHeader(header: seq<byte>, wanted: nat) {
    |header| >= 8 && AllowedHeaderFlags(header) && Word(header, 4) == wanted
  }

  ghost predicate HeadersAre(data: seq<byte>, boxes: seq<Box>, header: seq<byte>, time: seq<byte>)
    requires InData(data, boxes)
  {
    exists h: Box, t: Box :: IsOnly(boxes, TFHD, Some(h)) && IsOnly(boxes, TFDT, Some(t))
      && h.dataOffset <= h.end <= |data| && t.dataOffset <= t.end <= |data|
      && header == Payload(data, h) && time == Payload(data, t)
  }

  /** The fragment's runs start at its base time, fit, and end after so many units. */
  ghost predicate Reaches(data: seq<byte>, boxes: seq<Box>, header: seq<byte>, time: seq<byte>, wanted: nat,
                          maximum: nat, left: int, units: nat)
    requires InData(data, boxes)
  {
    && IsHeader(header, wanted) && !Bit(header[1], 1) && DefaultTime(header).Some?
    && BaseTime(time).Some? && BaseTime(time).value <= maximum
    && var runs := RunsOf(data, boxes, DefaultTime(header).value);
       runs != [] && RunsFit(runs, maximum - BaseTime(time).value, left) && units == BaseTime(time).value + Sum(Times(runs))
  }

  lemma PayloadInData(data: seq<byte>, boxes: seq<Box>, kind: seq<byte>, box: Box)
    requires InData(data, boxes) && IsOnly(boxes, kind, Some(box))
    ensures box.dataOffset <= box.end <= |data|
  {
  }

  method InspectRuns(data: seq<byte>, boxes: seq<Box>, header: seq<byte>, time: seq<byte>, wanted: nat, maximum: nat,
                     budget: ItemBudget)
    returns (result: Inspection)
    requires InData(data, boxes) && IsHeader(header, wanted) && maximum <= MAX_UINT64 && budget.items <= MAXIMUM_ITEMS
    modifies budget
    ensures old(budget.items) <= budget.items <= MAXIMUM_ITEMS && !result.OtherTrack?
    ensures forall units :: result == Units(units) <==>
      Reaches(data, boxes, header, time, wanted, maximum, MAXIMUM_ITEMS - old(budget.items), units)
  {
    var defaultTime, base := DefaultTime(header), BaseTime(time);
    if Bit(header[1], 1) || defaultTime.None? || base.None? || base.value > maximum {
      return Malformed;
    }
    var units := SumRuns(data, boxes, defaultTime.value, base.value, maximum, budget);
    result := if units.None? then Malformed else Units(units.value);
  }

  /** The boxes of the fragment, its two headers, and what its runs reach. */
  ghost predicate IsReach(data: seq<byte>, fragment: Box, boxes: seq<Box>, header: seq<byte>, time: seq<byte>, wanted: nat,
                          maximum: nat, left: int, units: nat)
  {
    && Walks(data, fragment.dataOffset, fragment.end, left, boxes) && InData(data, boxes)
    && HeadersAre(data, boxes, header, time)
    && Reaches(data, boxes, header, time, wanted, maximum, left - |boxes|, units)
  }

  ghost predicate FragmentReaches(data: seq<byte>, fragment: Box, wanted: nat, maximum: nat, left: int, units: nat) {
    exists boxes, header, time :: IsReach(data, fragment, boxes, header, time, wanted, maximum, left, units)
  }

  /** A fragment has one list of boxes and one pair of headers. */
  lemma ReachIsUnique(data: seq<byte>, fragment: Box, boxes: seq<Box>, h: Option<Box>, t: Option<Box>, wanted: nat,
                      maximum: nat, left: int, units: nat)
    requires Walks(data, fragment.dataOffset, fragment.end, left, boxes) && InData(data, boxes)
    requires IsOnly(boxes, TFHD, h) && IsOnly(boxes, TFDT, t)
    requires FragmentReaches(data, fragment, wanted, maximum, left, units)
    ensures h.Some? && t.Some? && h.value.dataOffset <= h.value.end <= |data| && t.value.dataOffset <= t.value.end <= |data|
    ensures Reaches(data, boxes, Payload(data, h.value), Payload(data, t.value), wanted, maximum, left - |boxes|, units)
  {
    var boxes', header, time :| IsReach(data, fragment, boxes', header, time, wanted, maximum, left, units);
    TilingIsUnique(data, fragment.dataOffset, fragment.end, boxes, boxes');
    var h', t' :| IsOnly(boxes', TFHD, Some(h')) && IsOnly(boxes', TFDT, Some(t'))
      && h'.dataOffset <= h'.end <= |data| && t'.dataOffset <= t'.end <= |data|
      && header == Payload(data, h') && time == Payload(data, t');
    OnlyIsUnique(boxes, TFHD, h, Some(h'));
    OnlyIsUnique(boxes, TFDT, t, Some(t'));
  }

  lemma UnreachedWithoutBoxes(data: seq<byte>, fragment: Box, wanted: nat, maximum: nat, left: int)
    requires !Walkable(data, fragment.dataOffset, fragment.end, left)
    ensures forall units :: !FragmentReaches(data, fragment, wanted, maximum, left, units)
  {
  }

  /** The only header and the only time box of the fragment; nothing when one is missing or occurs twice. */
  lemma UnreachedWithoutHeaders(data: seq<byte>, fragment: Box, boxes: seq<Box>, kind: seq<byte>, wanted: nat, maximum: nat, left: int)
    requires Walks(data, fragment.dataOffset, fragment.end, left, boxes) && (kind == TFHD || kind == TFDT)
    requires forall only :: !IsOnly(boxes, kind, only)
    ensures forall units :: !FragmentReaches(data, fragment, wanted, maximum, left, units)
  {
    forall units ensures !FragmentReaches(data, fragment, wanted, maximum, left, units) {
      if FragmentReaches(data, fragment, wanted, maximum, left, units) {
        var boxes', header, time :| IsReach(data, fragment, boxes', header, time, wanted, maximum, left, units);
        TilingIsUnique(data, fragment.dataOffset, fragment.end, boxes, boxes');
      }
    }
  }

  ghost predicate IsOtherHeader(data: seq<byte>, tfhd: Option<Box>, wanted: nat) {
    && tfhd.Some? && tfhd.value.dataOffset <= tfhd.value.end <= |data| && |Payload(data, tfhd.value)| >= 8
    && AllowedHeaderFlags(Payload(data, tfhd.value)) && Word(Payload(data, tfhd.value), 4) != wanted
  }

  /** The fragment has one sound header, which names another track, and no more than one time box. */
  ghost predicate BelongsToOther(data: seq<byte>, fragment: Box, wanted: nat, left: int) {
    exists boxes, tfhd, tfdt :: Walks(data, fragment.dataOffset, fragment.end, left, boxes)
      && IsOnly(boxes, TFHD, tfhd) && IsOnly(boxes, TFDT, tfdt) && IsOtherHeader(data, tfhd, wanted)
  }

  lemma OtherIsDecided(data: seq<byte>, fragment: Box, boxes: seq<Box>, tfhd: Option<Box>, tfdt: Option<Box>, wanted: nat, left: int)
    requires Walks(data, fragment.dataOffset, fragment.end, left, boxes)
    requires IsOnly(boxes, TFHD, tfhd) && IsOnly(boxes, TFDT, tfdt)
    ensures BelongsToOther(data, fragment, wanted, left) <==> IsOtherHeader(data, tfhd, wanted)
  {
    if BelongsToOther(data, fragment, wanted, left) {
      var boxes', tfhd', tfdt' :| Walks(data, fragment.dataOffset, fragment.end, left, boxes')
        && IsOnly(boxes', TFHD, tfhd') && IsOnly(boxes', TFDT, tfdt') && IsOtherHeader(data, tfhd', wanted);
      TilingIsUnique(data, fragment.dataOffset, fragment.end, boxes, boxes');
      OnlyIsUnique(boxes, TFHD, tfhd, tfhd');
    }
  }

  lemma NotOtherWithoutHeaders(data: seq<byte>, fragment: Box, boxes: seq<Box>, kind: seq<byte>, wanted: nat, left: int)
    requires Walks(data, fragment.dataOffset, fragment.end, left, boxes) && (kind == TFHD || kind == TFDT)
    requires forall only :: !IsOnly(boxes, kind, only)
    ensures !BelongsToOther(data, fragment, wanted, left)
  {
    if BelongsToOther(data, fragment, wanted, left) {
      var boxes', tfhd, tfdt :| Walks(data, fragment.dataOffset, fragment.end, left, boxes')
        && IsOnly(boxes', TFHD, tfhd) && IsOnly(boxes', TFDT, tfdt) && IsOtherHeader(data, tfhd, wanted);
      TilingIsUnique(data, fragment.dataOffset, fragment.end, boxes, boxes');
    }
  }

  method InspectHeaders(data: seq<byte>, ghost fragment: Box, boxes: seq<Box>, tfhd: Option<Box>, tfdt: Option<Box>,
                        ghost left: int, wanted: nat, maximum: nat, budget: ItemBudget)
    returns (result: Inspection)
    requires maximum <= MAX_UINT64 && budget.items <= MAXIMUM_ITEMS && left - |boxes| == MAXIMUM_ITEMS - budget.items
    requires Walks(data, fragment.dataOffset, fragment.end, left, boxes) && InData(data, boxes)
    requires IsOnly(boxes, TFHD, tfhd) && IsOnly(boxes, TFDT, tfdt)
    modifies budget
    ensures old(budget.items) <= budget.items <= MAXIMUM_ITEMS
    ensures forall units :: result == Units(units) <==> FragmentReaches(data, fragment, wanted, maximum, left, units)
    ensures result.Units? ==> result.units <= maximum
    ensures result.OtherTrack? <==> IsOtherHeader(data, tfhd, wanted)
  {
    forall units | FragmentReaches(data, fragment, wanted, maximum, left, units)
      ensures tfhd.Some? && tfdt.Some? && tfhd.value.dataOffset <= tfhd.value.end <= |data|
      ensures tfdt.value.dataOffset <= tfdt.value.end <= |data|
      ensures Reaches(data, boxes, Payload(data, tfhd.value), Payload(data, tfdt.value), wanted, maximum, left - |boxes|, units)
    {
      ReachIsUnique(data, fragment, boxes, tfhd, tfdt, wanted, maximum, left, units);
    }
    if tfhd.None? {
      return Malformed;
    }
    PayloadInData(data, boxes, TFHD, tfhd.value);
    var header := Payload(data, tfhd.value);
    if |header| < 8 || !AllowedHeaderFlags(header) {
      return Malformed;
    }
    if Word(header, 4) != wanted {
      return OtherTrack;
    }
    if tfdt.None? {
      return Malformed;
    }
    PayloadInData(data, boxes, TFDT, tfdt.value);
    var time := Payload(data, tfdt.value);
    result := InspectRuns(data, boxes, header, time, wanted, maximum, budget);
    if result.Units? {
      assert HeadersAre(data, boxes, header, time);
      assert IsReach(data, fragment, boxes, header, time, wanted, maximum, left, result.units);
    }
  }

  method InspectBoxes(data: seq<byte>, ghost fragment: Box, boxes: seq<Box>, ghost left: int, wanted: nat, maximum: nat,
                      budget: ItemBudget)
    returns (result: Inspection)
    requires maximum <= MAX_UINT64 && budget.items <= MAXIMUM_ITEMS && left - |boxes| == MAXIMUM_ITEMS - budget.items
    requires Walks(data, fragment.dataOffset, fragment.end, left, boxes) && InData(data, boxes)
    modifies budget
    ensures old(budget.items) <= budget.items <= MAXIMUM_ITEMS
    ensures forall units :: result == Units(units) <==> FragmentReaches(data, fragment, wanted, maximum, left, units)
    ensures result.Units? ==> result.units <= maximum
    ensures result == OtherTrack <==> BelongsToOther(data, fragment, wanted, left)
  {
    var headerIsUnique, tfhd := FindOnly(boxes, TFHD);
    var timeIsUnique, tfdt := FindOnly(boxes, TFDT);
    if !headerIsUnique || !timeIsUnique {
      ghost var kind := if !headerIsUnique then TFHD else TFDT;
      UnreachedWithoutHeaders(data, fragment, boxes, kind, wanted, maximum, left);
      NotOtherWithoutHeaders(data, fragment, boxes, kind, wanted, left);
      return Malformed;
    }
    OtherIsDecided(data, fragment, boxes, tfhd, tfdt, wanted, left);
    result := InspectHeaders(data, fragment, boxes, tfhd, tfdt, left, wanted, maximum, budget);
  }

  /** How far a track fragment reaches, in units of the track's time scale; another track's fragment is passed over. */
  method InspectTrackFragment(data: seq<byte>, fragment: Box, wanted: nat, maximum: nat, budget: ItemBudget)
    returns (result: Inspection)
    requires |data| <= MAX_INT && maximum <= MAX_UINT64 && budget.items <= MAXIMUM_ITEMS
    modifies budget
    ensures old(budget.items) <= budget.items <= MAXIMUM_ITEMS
    ensures forall units :: result == Units(units) <==>
      FragmentReaches(data, fragment, wanted, maximum, MAXIMUM_ITEMS - old(budget.items), units)
    ensures result.Units? ==> result.units <= maximum
    ensures result == OtherTrack <==> BelongsToOther(data, fragment, wanted, MAXIMUM_ITEMS - old(budget.items))
  {
    ghost var left := MAXIMUM_ITEMS - budget.items;
    var boxes := ReadBoxes(data, fragment.dataOffset, fragment.end, budget);
    if boxes.None? {
      UnreachedWithoutBoxes(data, fragment, wanted, maximum, left);
      return Malformed;
    }
    TiledIsInData(data, fragment.dataOffset, fragment.end, fragment.end, boxes.value);
    result := InspectBoxes(data, fragment, boxes.value, left, wanted, maximum, budget);
  }
}
