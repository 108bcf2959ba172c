/** Sample durations in MP4 files: timing tables and track runs, added up without overflow. */
module Mp4Timing {
  import opened Options
  import opened Arithmetic
  import opened Bytes
  import opened ItemBudgets

  const POW32 := 0x1_0000_0000

  function CheckedAdd(left: nat, right: nat): (r: Option<nat>)
    ensures r.Some? <==> left + right <= MAX_UINT64
    ensures r.Some? ==> r.value == left + right
  {
    if left > MAX_UINT64 - right then None else Some(left + right)
  }

  /** A factor is at most the quotient exactly when the product is at most the dividend. */
  lemma QuotientBounds(most: nat, left: nat, right: nat)
    requires left > 0
    ensures right <= most / left <==> left * right <= most
  {
    var q, r := most / left, most % left;
    assert most == q * left + r;
    WholeMultiple(right - q, left);
    assert left * right == (right - q) * left + q * left;
  }

  function CheckedMultiply(left: nat, right: nat): (r: Option<nat>)
    ensures r.Some? <==> left * right <= MAX_UINT64
    ensures r.Some? ==> r.value == left * right
  {
    if left == 0 then Some(0)
    else
      QuotientBounds(MAX_UINT64, left, right);
      if right > MAX_UINT64 / left then None else Some(left * right)
  }

  function Word(data: seq<byte>, offset: nat): (w: nat)
    requires offset + 4 <= |data|
    ensures w < POW32
  {
    BigEndianBound(data[offset..offset + 4]);
    assert Pow256(4) == POW32;
    BigEndian(data[offset..offset + 4])
  }

  // ---------- Timing tables ----------

  /** Eight octets for each entry, after a header that gives their number. */
  ghost predicate IsTable(data: seq<byte>) {
    |data| >= 8 && |data| == 8 + 8 * Word(data, 4)
  }

  /** An entry: so many samples, each taking so long. */
  function Entry(data: seq<byte>, k: nat): (nat, nat)
    requires 8 + 8 * k + 8 <= |data|
  {
    (Word(data, 8 + 8 * k), Word(data, 8 + 8 * k + 4))
  }

  /** The exact length of an entry: samples times the time each takes. */
  ghost function EntryTime(data: seq<byte>, k: nat): nat
    requires 8 + 8 * k + 8 <= |data|
  {
    Entry(data, k).0 * Entry(data, k).1
  }

  ghost function EntryTimes(data: seq<byte>): (times: seq<nat>)
    requires IsTable(data)
    ensures |times| == Word(data, 4)
    ensures forall k :: 0 <= k < |times| ==> times[k] == EntryTime(data, k)
  {
    seq(Word(data, 4), k requires 0 <= k < Word(data, 4) => EntryTime(data, k))
  }

  /** Adds what an entry takes, unless the total passes 64 bits. */
  method AddEntry(data: seq<byte>, k: nat, units: nat) returns (result: Option<nat>)
    requires IsTable(data) && k < Word(data, 4) && units <= MAX_UINT64
    ensures result.Some? <==> units + EntryTimes(data)[k] <= MAX_UINT64
    ensures result.Some? ==> result.value == units + EntryTimes(data)[k]
  {
    var samples, delta := Entry(data, k).0, Entry(data, k).1;
    assert EntryTimes(data)[k] == samples * delta;
    if samples != 0 {
      QuotientBounds(MAX_UINT64 - units, samples, delta);
      if delta > (MAX_UINT64 - units) / samples {
        return None;
      }
    }
    result := Some(units + samples * delta);
  }

  method AddEntries(data: seq<byte>, count: nat, ghost times: seq<nat>) returns (result: Option<nat>)
    requires IsTable(data) && count == Word(data, 4) == |times| && times == EntryTimes(data)
    ensures result.Some? <==> Sum(times) <= MAX_UINT64
    ensures result.Some? ==> result.value == Sum(times)
  {
    var units := 0;
    for k := 0 to count
      invariant units == Sum(times[..k]) <= MAX_UINT64
    {
      SumStep(times, k);
      var next := AddEntry(data, k, units);
      if next.None? {
        return None;
      }
      units := next.value;
    }
    assert times[..count] == times;
    result := Some(units);
  }

  /** The exact sum of a well-formed table within the budget, or nothing when it does not fit 64 bits. */
  method TimingDuration(data: seq<byte>, budget: ItemBudget) returns (result: Option<nat>)
    requires budget.items <= MAXIMUM_ITEMS
    modifies budget
    ensures old(budget.items) <= budget.items <= MAXIMUM_ITEMS
    ensures result.Some? <==> IsTable(data) && Word(data, 4) <= MAXIMUM_ITEMS - old(budget.items)
                              && Sum(EntryTimes(data)) <= MAX_UINT64
    ensures result.Some? ==> result.value == Sum(EntryTimes(data))
    ensures result.Some? ==> budget.items == old(budget.items) + Word(data, 4)
  {
    if |data| < 8 {
      return None;
    }
    var count := Word(data, 4);
    if count > MAXIMUM_ITEMS - budget.items || 8 + count * 8 != |data| {
      return None;
    }
    budget.items := budget.items + count;
    result := AddEntries(data, count, EntryTimes(data));
  }

  // ---------- Written tables are added up ----------

  ghost predicate Fits32(entries: seq<(nat, nat)>) {
    |entries| < POW32 && forall k :: 0 <= k < |entries| ==> entries[k].0 < POW32 && entries[k].1 < POW32
  }

  ghost function EncodedEntry(e: (nat, nat)): (s: seq<byte>)
    ensures |s| == 8
  {
    BigEndianBytes(e.0, 4) + BigEndianBytes(e.1, 4)
  }

  ghost function EncodedEntries(entries: seq<(nat, nat)>): (s: seq<byte>)
    ensures |s| == 8 * |entries|
  {
    if entries == [] then [] else EncodedEntries(entries[..|entries| - 1]) + EncodedEntry(entries[|entries| - 1])
  }

  /** Version and flags, the number of entries, and the entries. */
  ghost function EncodedTable(head: seq<byte>, entries: seq<(nat, nat)>): seq<byte> {
    head + BigEndianBytes(|entries|, 4) + EncodedEntries(entries)
  }

  lemma {:induction false} EntryStands(entries: seq<(nat, nat)>, k: nat)
    requires k < |entries|
    ensures EncodedEntries(entries)[8 * k..8 * k + 8] == EncodedEntry(entries[k])
  {
    var front := entries[..|entries| - 1];
    if k < |entries| - 1 {
      EntryStands(front, k);
      assert EncodedEntries(entries)[8 * k..8 * k + 8] == EncodedEntries(front)[8 * k..8 * k + 8];
    }
  }

  lemma WordIsRead(data: seq<byte>, offset: nat, v: nat)
    requires offset + 4 <= |data| && data[offset..offset + 4] == BigEndianBytes(v, 4) && v < POW32
    ensures Word(data, offset) == v
  {
    assert Pow256(4) == POW32;
    BigEndianInverts(v, 4);
  }

  lemma EntryIsRead(data: seq<byte>, k: nat, e: (nat, nat))
    requires 8 + 8 * k + 8 <= |data| && data[8 + 8 * k..8 + 8 * k + 8] == EncodedEntry(e) && e.0 < POW32 && e.1 < POW32
    ensures Entry(data, k) == e
  {
    var row := data[8 + 8 * k..8 + 8 * k + 8];
    assert data[8 + 8 * k..8 + 8 * k + 4] == row[..4] == BigEndianBytes(e.0, 4);
    assert data[8 + 8 * k + 4..8 + 8 * k + 8] == row[4..] == BigEndianBytes(e.1, 4);
    WordIsRead(data, 8 + 8 * k, e.0);
    WordIsRead(data, 8 + 8 * k + 4, e.1);
  }

  ghost function Products(entries: seq<(nat, nat)>): (p: seq<nat>)
    ensures |p| == |entries| && forall k :: 0 <= k < |p| ==> p[k] == entries[k].0 * entries[k].1
  {
    seq(|entries|, k requires 0 <= k < |entries| => entries[k].0 * entries[k].1)
  }

  /** Reading a written table gives just the products that were written. */
  lemma EncodedTableIsRead(head: seq<byte>, entries: seq<(nat, nat)>)
    requires |head| == 4 && Fits32(entries)
    ensures IsTable(EncodedTable(head, entries)) && EntryTimes(EncodedTable(head, entries)) == Products(entries)
  {
    var data := EncodedTable(head, entries);
    assert data[4..8] == BigEndianBytes(|entries|, 4);
    WordIsRead(data, 4, |entries|);
    forall k | 0 <= k < |entries| ensures Entry(data, k) == entries[k] {
      EntryStands(entries, k);
      assert data[8..] == EncodedEntries(entries);
      assert data[8 + 8 * k..8 + 8 * k + 8] == data[8..][8 * k..8 * k + 8];
      EntryIsRead(data, k, entries[k]);
    }
  }

  // ---------- Track runs ----------

  predicate Bit(b: byte, value: nat)
    requires value > 0
  {
    b / value % 2 == 1
  }

  /** What the head of a run announces. */
  datatype Run = Run(count: nat, offset: nat, recordSize: nat, timed: bool)

  predicate AllowedRunFlags(data: seq<byte>)
    requires |data| >= 8
  {
    && data[0] <= 1 && data[1] == 0 && data[2] < 16 && !Bit(data[3], 2) && data[3] < 8
    && !(Bit(data[3], 4) && Bit(data[2], 4))
  }

  function Four(present: bool): nat {
    if present then 4 else 0
  }

  function RunHead(data: seq<byte>): Run
    requires |data| >= 8
  {
    Run(Word(data, 4), 8 + Four(Bit(data[3], 1)) + Four(Bit(data[3], 4)),
        Four(Bit(data[2], 1)) + Four(Bit(data[2], 2)) + Four(Bit(data[2], 4)) + Four(Bit(data[2], 8)), Bit(data[2], 1))
  }

  /** At least one sample, and just as many records as announced. */
  ghost predicate IsRun(data: seq<byte>) {
    |data| >= 8 && AllowedRunFlags(data) && RunHead(data).count > 0
    && RunHead(data).offset + RunHead(data).count * RunHead(data).recordSize == |data|
  }

  /** Where the `k`-th record starts. */
  ghost function RecordOffset(run: Run, k: nat): nat {
    if k == 0 then run.offset else RecordOffset(run, k - 1) + run.recordSize
  }

  lemma {:induction false} RecordOffsetIsLinear(run: Run, k: nat)
    ensures RecordOffset(run, k) == run.offset + k * run.recordSize
  {
    if k > 0 {
      RecordOffsetIsLinear(run, k - 1);
      Distribute(k - 1, 1, run.recordSize);
    }
  }

  lemma {:induction false} RecordsInOrder(run: Run, k: nat, n: nat)
    requires k <= n
    ensures RecordOffset(run, k) <= RecordOffset(run, n)
  {
    if k < n { RecordsInOrder(run, k, n - 1); }
  }

  lemma RecordFits(data: seq<byte>, k: nat)
    requires IsRun(data) && RunHead(data).timed && k < RunHead(data).count
    ensures RecordOffset(RunHead(data), k) + 4 <= |data|
  {
    var run := RunHead(data);
    RecordOffsetIsLinear(run, run.count);
    RecordsInOrder(run, k + 1, run.count);
  }

  /** The time of the `k`-th sample: its own, or the track's default. */
  ghost function SampleTime(data: seq<byte>, defaultTime: nat, k: nat): nat
    requires IsRun(data) && k < RunHead(data).count
  {
    if RunHead(data).timed then
      RecordFits(data, k);
      Word(data, RecordOffset(RunHead(data), k))
    else defaultTime
  }

  ghost function SampleTimes(data: seq<byte>, defaultTime: nat): (times: seq<nat>)
    requires IsRun(data)
    ensures |times| == RunHead(data).count
    ensures forall k :: 0 <= k < |times| ==> times[k] == SampleTime(data, defaultTime, k)
  {
    seq(RunHead(data).count, k requires 0 <= k < RunHead(data).count => SampleTime(data, defaultTime, k))
  }

  /** Every sample takes time, and together they take no more than the maximum. */
  ghost predicate TimesFit(times: seq<nat>, maximum: nat) {
    (forall k :: 0 <= k < |times| ==> times[k] > 0) && Sum(times) <= maximum
  }

  /** A run that is well formed, within the budget, and no longer than what is left. */
  ghost predicate Accepts(data: seq<byte>, defaultTime: nat, maximum: nat, left: int) {
    IsRun(data) && RunHead(data).count <= left && TimesFit(SampleTimes(data, defaultTime), maximum)
  }

  lemma OneMoreTime(times: seq<nat>, k: nat, maximum: nat)
    requires k < |times| && TimesFit(times[..k], maximum)
    ensures Sum(times[..k + 1]) == Sum(times[..k]) + times[k]
    ensures TimesFit(times[..k + 1], maximum) <==> times[k] > 0 && Sum(times[..k]) + times[k] <= maximum
    ensures TimesFit(times, maximum) ==> TimesFit(times[..k + 1], maximum)
  {
    SumStep(times, k);
    assert times[..k + 1] == times[..k] + [times[k]];
    assert times[..k + 1][k] == times[k];
  }

  method DefaultDuration(data: seq<byte>, run: Run, defaultTime: nat, maximum: nat) returns (result: Option<nat>)
    requires IsRun(data) && run == RunHead(data) && !run.timed && maximum <= MAX_UINT64
    ensures result.Some? <==> TimesFit(SampleTimes(data, defaultTime), maximum)
    ensures result.Some? ==> result.value == Sum(SampleTimes(data, defaultTime))
  {
    ghost var times := SampleTimes(data, defaultTime);
    SumOfEqual(times, defaultTime);
    assert times[0] == defaultTime;
    var units := CheckedMultiply(run.count, defaultTime);
    if defaultTime == 0 || units.None? || units.value > maximum {
      return None;
    }
    result := units;
  }

  method ReadTime(data: seq<byte>, ghost k: nat, offset: nat, ghost defaultTime: nat) returns (duration: nat)
    requires IsRun(data) && RunHead(data).timed && k < RunHead(data).count && offset == RecordOffset(RunHead(data), k)
    ensures duration == SampleTimes(data, defaultTime)[k]
  {
    RecordFits(data, k);
    duration := Word(data, offset);
  }

  method TimedDuration(data: seq<byte>, run: Run, ghost defaultTime: nat, maximum: nat) returns (result: Option<nat>)
    requires IsRun(data) && run == RunHead(data) && run.timed && maximum <= MAX_UINT64
    ensures result.Some? <==> TimesFit(SampleTimes(data, defaultTime), maximum)
    ensures result.Some? ==> result.value == Sum(SampleTimes(data, defaultTime))
  {
    ghost var times := SampleTimes(data, defaultTime);
    var units, offset := 0, run.offset;
    for k := 0 to run.count
      invariant offset == RecordOffset(run, k)
      invariant units == Sum(times[..k]) && TimesFit(times[..k], maximum)
    {
      OneMoreTime(times, k, maximum);
      var duration := ReadTime(data, k, offset, defaultTime);
      offset := offset + run.recordSize;
      var sum := CheckedAdd(units, duration);
      if duration == 0 || sum.None? || sum.value > maximum {
        return None;
      }
      units := sum.value;
    }
    assert times[..run.count] == times;
    result := Some(units);
  }

  method RunDuration(data: seq<byte>, defaultTime: nat, maximum: nat, budget: ItemBudget) returns (result: Option<nat>)
    requires budget.items <= MAXIMUM_ITEMS && maximum <= MAX_UINT64 && defaultTime < POW32
    modifies budget
    ensures old(budget.items) <= budget.items <= MAXIMUM_ITEMS
    ensures result.Some? <==> Accepts(data, defaultTime, maximum, MAXIMUM_ITEMS - old(budget.items))
    ensures result.Some? ==> result.value == Sum(SampleTimes(data, defaultTime)) <= maximum
    ensures result.Some? ==> budget.items == old(budget.items) + RunHead(data).count
  {
    if |data| < 8 || !AllowedRunFlags(data) {
      return None;
    }
    var run := RunHead(data);
    if run.count == 0 || run.count > MAXIMUM_ITEMS - budget.items {
      return None;
    }
    if run.offset > |data| || run.count * run.recordSize != |data| - run.offset {
      return None;
    }
    budget.items := budget.items + run.count;
    if !run.timed {
      result := DefaultDuration(data, run, defaultTime, maximum);
    } else {
      result := TimedDuration(data, run, defaultTime, maximum);
    }
  }
}
