/** MP4 boxes told from the writing side (ISO/IEC 14496-12): what is written into a box is what is read from it. */
module Mp4Encoding {
  import opened Options
  import opened Arithmetic
  import opened Bytes
  import opened Mp4Boxes
  import opened Mp4Timing
  import opened Mp4Fragments

  // ---------- Fields ----------

  predicate FitsField(value: Option<nat>) {
    value.Some? ==> value.value < 0x1_0000_0000
  }

  /** A field of four octets, or nothing. */
  function Field(value: Option<nat>): (octets: seq<byte>)
    ensures |octets| == if value.Some? then 4 else 0
  {
    if value.Some? then BigEndianBytes(value.value, 4) else []
  }

  function Flag(present: bool, bit: nat): nat {
    if present then bit else 0
  }

  lemma FourOctetsHold(value: nat)
    ensures value < 0x1_0000_0000 <==> value < Pow256(4)
  {
    assert Pow256(1) == 256 * Pow256(0) && Pow256(2) == 256 * Pow256(1);
    assert Pow256(3) == 256 * Pow256(2) && Pow256(4) == 256 * Pow256(3);
  }

  /** A number of four octets is read where it stands. */
  lemma WordIsReadAt(before: seq<byte>, value: nat, after: seq<byte>)
    requires value < 0x1_0000_0000
    ensures Word(before + BigEndianBytes(value, 4) + after, |before|) == value
  {
    var data := before + BigEndianBytes(value, 4) + after;
    assert data[|before|..|before| + 4] == BigEndianBytes(value, 4);
    FourOctetsHold(value);
    BigEndianInverts(value, 4);
  }

  lemma EightOctetsHold(value: nat)
    ensures value < 0x1_0000_0000_0000_0000 <==> value < Pow256(8)
  {
    FourOctetsHold(0);
    assert Pow256(5) == 256 * Pow256(4) && Pow256(6) == 256 * Pow256(5);
    assert Pow256(7) == 256 * Pow256(6) && Pow256(8) == 256 * Pow256(7);
  }

  // ---------- Boxes ----------

  /** A box with its size in 64 bits. */
  ghost function EncodedLargeBox(kind: seq<byte>, payload: seq<byte>): seq<byte> {
    BigEndianBytes(1, 4) + kind + BigEndianBytes(16 + |payload|, 8) + payload
  }

  /** A box that says nothing about its size and reaches to the end. */
  ghost function EncodedOpenBox(kind: seq<byte>, payload: seq<byte>): seq<byte> {
    BigEndianBytes(0, 4) + kind + payload
  }

  /** Four pieces after what comes before them, the first three of 4, 4 and 8 octets. */
  lemma PiecesStand(before: seq<byte>, a: seq<byte>, b: seq<byte>, c: seq<byte>, d: seq<byte>, after: seq<byte>)
    requires |a| == 4 && |b| == 4 && |c| == 8
    ensures var data, o := before + (a + b + c + d) + after, |before|;
            && data[o..o + 4] == a && data[o + 4..o + 8] == b && data[o + 8..o + 16] == c && data[o + 16..o + 16 + |d|] == d
  {
  }

  lemma ThreePiecesStand(before: seq<byte>, a: seq<byte>, b: seq<byte>, c: seq<byte>)
    requires |a| == 4 && |b| == 4
    ensures var data, o := before + (a + b + c), |before|;
            data[o..o + 4] == a && data[o + 4..o + 8] == b && data[o + 8..|data|] == c && |data| == o + 8 + |c|
  {
  }

  lemma LargeBoxIsRead(before: seq<byte>, kind: seq<byte>, payload: seq<byte>, after: seq<byte>)
    requires |kind| == 4 && 16 + |payload| < 0x1_0000_0000_0000_0000
    ensures var data := before + EncodedLargeBox(kind, payload) + after;
            var box := Box(kind, |before| + 16, |before| + 16 + |payload|);
            BoxAt(data, |before|, |data|, box) && data[box.dataOffset..box.end] == payload
  {
    var data := before + EncodedLargeBox(kind, payload) + after;
    PiecesStand(before, BigEndianBytes(1, 4), kind, BigEndianBytes(16 + |payload|, 8), payload, after);
    FourOctetsHold(1);
    BigEndianInverts(1, 4);
    EightOctetsHold(16 + |payload|);
    BigEndianInverts(16 + |payload|, 8);
  }

  lemma OpenBoxIsRead(before: seq<byte>, kind: seq<byte>, payload: seq<byte>)
    requires |kind| == 4
    ensures var data := before + EncodedOpenBox(kind, payload);
            var box := Box(kind, |before| + 8, |data|);
            BoxAt(data, |before|, |data|, box) && data[box.dataOffset..box.end] == payload
  {
    var data := before + EncodedOpenBox(kind, payload);
    ThreePiecesStand(before, BigEndianBytes(0, 4), kind, payload);
    FourOctetsHold(0);
    BigEndianInverts(0, 4);
  }

  // ---------- The header of a track fragment ----------

  datatype TrackHeader = TrackHeader(track: nat, baseOffset: Option<nat>, description: Option<nat>, duration: Option<nat>,
                                     size: Option<nat>, sampleFlags: Option<nat>, isEmpty: bool, fromMovie: bool)

  ghost predicate WritableHeader(h: TrackHeader) {
    && h.track < 0x1_0000_0000 && FitsField(h.description) && FitsField(h.duration) && FitsField(h.size) && FitsField(h.sampleFlags)
    && (h.baseOffset.Some? ==> h.baseOffset.value < 0x1_0000_0000_0000_0000)
  }

  ghost function LongField(value: Option<nat>): (octets: seq<byte>)
    ensures |octets| == if value.Some? then 8 else 0
  {
    if value.Some? then BigEndianBytes(value.value, 8) else []
  }

  ghost function HeaderFlags(h: TrackHeader): (flags: seq<byte>)
    ensures |flags| == 4
  {
    [0, Flag(h.isEmpty, 1) + Flag(h.fromMovie, 2), 0,
     Flag(h.baseOffset.Some?, 1) + Flag(h.description.Some?, 2) + Flag(h.duration.Some?, 8) + Flag(h.size.Some?, 16)
     + Flag(h.sampleFlags.Some?, 32)]
  }

  /** The flags say which fields follow the track's number. */
  ghost function EncodedHeader(h: TrackHeader): seq<byte> {
    HeaderFlags(h) + BigEndianBytes(h.track, 4) + LongField(h.baseOffset) + Field(h.description) + Field(h.duration)
    + (Field(h.size) + Field(h.sampleFlags))
  }

  lemma HeaderBits(h: TrackHeader)
    ensures var flags := HeaderFlags(h);
            && (Bit(flags[1], 1) <==> h.isEmpty) && flags[1] < 4 && flags[3] < 64 && !Bit(flags[3], 4)
            && (Bit(flags[3], 1) <==> h.baseOffset.Some?) && (Bit(flags[3], 2) <==> h.description.Some?)
            && (Bit(flags[3], 8) <==> h.duration.Some?) && (Bit(flags[3], 16) <==> h.size.Some?)
            && (Bit(flags[3], 32) <==> h.sampleFlags.Some?)
  {
  }

  lemma HeaderFieldsStand(flags: seq<byte>, track: nat, base: seq<byte>, description: seq<byte>, duration: Option<nat>, back: seq<byte>)
    requires |flags| == 4 && track < 0x1_0000_0000 && FitsField(duration)
    ensures var header := flags + BigEndianBytes(track, 4) + base + description + Field(duration) + back;
            && Word(header, 4) == track
            && (duration.Some? ==> Word(header, 8 + |base| + |description|) == duration.value)
  {
    var number, front := BigEndianBytes(track, 4), flags + BigEndianBytes(track, 4) + base + description;
    if duration.Some? { WordIsReadAt(front, duration.value, back); }
    var header := front + Field(duration) + back;
    assert header[4..8] == number;
    FourOctetsHold(track);
    BigEndianInverts(track, 4);
  }

  /** A header is accepted whatever fields it has, and its track, its emptiness and its default duration are read back;
      without a default duration a sample takes no time. */
  lemma EncodedHeaderIsRead(h: TrackHeader, wanted: nat)
    requires WritableHeader(h)
    ensures var header := EncodedHeader(h);
            && |header| >= 8 && (IsHeader(header, wanted) <==> wanted == h.track) && AllowedHeaderFlags(header)
            && (Bit(header[1], 1) <==> h.isEmpty)
            && DefaultTime(header) == Some(if h.duration.Some? then h.duration.value else 0)
  {
    var header, flags := EncodedHeader(h), HeaderFlags(h);
    HeaderBits(h);
    assert header[0] == flags[0] && header[1] == flags[1] && header[2] == flags[2] && header[3] == flags[3];
    HeaderFieldsStand(flags, h.track, LongField(h.baseOffset), Field(h.description), h.duration, Field(h.size) + Field(h.sampleFlags));
  }

  // ---------- The start of a track fragment ----------

  /** The base time in 32 or, as the version says, in 64 bits. */
  ghost function EncodedTime(time: nat, long: bool): seq<byte> {
    [if long then 1 else 0, 0, 0, 0] + BigEndianBytes(time, if long then 8 else 4)
  }

  lemma EncodedTimeIsRead(time: nat, long: bool)
    requires if long then time < 0x1_0000_0000_0000_0000 else time < 0x1_0000_0000
    ensures BaseTime(EncodedTime(time, long)) == Some(time)
  {
    var data := EncodedTime(time, long);
    if long {
      EightOctetsHold(time);
      BigEndianInverts(time, 8);
      assert data[4..12] == BigEndianBytes(time, 8);
    } else {
      FourOctetsHold(time);
      BigEndianInverts(time, 4);
      assert data[4..8] == BigEndianBytes(time, 4);
    }
  }

  // ---------- Track runs ----------

  datatype Sample = Sample(duration: nat, size: nat, sampleFlags: nat, shift: nat)

  /** What a run says of each of its samples. */
  datatype Layout = Layout(durations: bool, sizes: bool, flags: bool, shifts: bool)

  datatype TrackRun = TrackRun(version: nat, dataOffset: Option<nat>, firstFlags: Option<nat>, layout: Layout, samples: seq<Sample>)

  ghost predicate WritableRun(r: TrackRun) {
    && r.version <= 1 && FitsField(r.dataOffset) && FitsField(r.firstFlags) && 1 <= |r.samples| < 0x1_0000_0000
    && !(r.firstFlags.Some? && r.layout.flags)
    && forall k :: 0 <= k < |r.samples| ==> r.samples[k].duration < 0x1_0000_0000
  }

  function Given(present: bool, value: nat): Option<nat> {
    if present then Some(value) else None
  }

  ghost function RecordLength(layout: Layout): nat {
    Flag(layout.durations, 4) + Flag(layout.sizes, 4) + Flag(layout.flags, 4) + Flag(layout.shifts, 4)
  }

  ghost function EncodedSample(layout: Layout, s: Sample): (record: seq<byte>)
    ensures |record| == RecordLength(layout)
  {
    Field(Given(layout.durations, s.duration))
    + (Field(Given(layout.sizes, s.size)) + Field(Given(layout.flags, s.sampleFlags)) + Field(Given(layout.shifts, s.shift)))
  }

  ghost function EncodedSamples(layout: Layout, samples: seq<Sample>): seq<byte> {
    if samples == [] then []
    else EncodedSamples(layout, samples[..|samples| - 1]) + EncodedSample(layout, samples[|samples| - 1])
  }

  ghost function RunFlags(r: TrackRun): (flags: seq<byte>)
    requires r.version <= 1
    ensures |flags| == 4
  {
    [r.version, 0,
     Flag(r.layout.durations, 1) + Flag(r.layout.sizes, 2) + Flag(r.layout.flags, 4) + Flag(r.layout.shifts, 8),
     Flag(r.dataOffset.Some?, 1) + Flag(r.firstFlags.Some?, 4)]
  }

  ghost function RunFront(r: TrackRun): seq<byte>
    requires r.version <= 1
  {
    RunFlags(r) + BigEndianBytes(|r.samples|, 4) + (Field(r.dataOffset) + Field(r.firstFlags))
  }

  /** The flags say which fields follow the number of samples, and which each sample has. */
  ghost function EncodedRun(r: TrackRun): seq<byte>
    requires r.version <= 1
  {
    RunFront(r) + EncodedSamples(r.layout, r.samples)
  }

  lemma RunBits(r: TrackRun)
    requires r.version <= 1
    ensures var flags := RunFlags(r);
            && flags[0] <= 1 && flags[1] == 0 && flags[2] < 16 && flags[3] < 8 && !Bit(flags[3], 2)
            && (Bit(flags[3], 1) <==> r.dataOffset.Some?) && (Bit(flags[3], 4) <==> r.firstFlags.Some?)
            && (Bit(flags[2], 1) <==> r.layout.durations) && (Bit(flags[2], 2) <==> r.layout.sizes)
            && (Bit(flags[2], 4) <==> r.layout.flags) && (Bit(flags[2], 8) <==> r.layout.shifts)
  {
  }

  lemma {:induction false} SamplesTakeRoom(layout: Layout, samples: seq<Sample>)
    ensures |EncodedSamples(layout, samples)| == |samples| * RecordLength(layout)
  {
    if samples != [] {
      SamplesTakeRoom(layout, samples[..|samples| - 1]);
      Distribute(|samples| - 1, 1, RecordLength(layout));
    }
  }

  lemma Associates(a: seq<byte>, b: seq<byte>, c: seq<byte>)
    ensures (a + b) + c == a + (b + c)
  {
  }

  lemma NothingAfter(a: seq<byte>)
    ensures a + [] == a
  {
  }

  lemma Regroups(a: seq<byte>, b: seq<byte>, c: seq<byte>, d: seq<byte>)
    ensures (a + (b + c)) + d == a + (b + (c + d))
  {
  }

  /** The record of a sample stands between those of the samples before it and whatever follows. */
  lemma {:induction false} SamplesSplit(layout: Layout, samples: seq<Sample>, k: nat) returns (rest: seq<byte>)
    requires k < |samples|
    ensures EncodedSamples(layout, samples) == EncodedSamples(layout, samples[..k]) + (EncodedSample(layout, samples[k]) + rest)
    decreases |samples|
  {
    var n := |samples| - 1;
    var last := EncodedSample(layout, samples[n]);
    if k == n {
      rest := [];
      assert last + rest == last by { NothingAfter(last); }
    } else {
      var inner := SamplesSplit(layout, samples[..n], k);
      assert samples[..n][..k] == samples[..k];
      rest := inner + last;
      Regroups(EncodedSamples(layout, samples[..k]), EncodedSample(layout, samples[k]), inner, last);
    }
  }

  lemma RunHeadIsRead(r: TrackRun)
    requires WritableRun(r)
    ensures var data := EncodedRun(r);
            && |data| >= 8 && AllowedRunFlags(data)
            && RunHead(data) == Run(|r.samples|, |RunFront(r)|, RecordLength(r.layout), r.layout.durations)
  {
    var data, flags := EncodedRun(r), RunFlags(r);
    var rest := Field(r.dataOffset) + Field(r.firstFlags);
    RunBits(r);
    Associates(flags + BigEndianBytes(|r.samples|, 4), rest, EncodedSamples(r.layout, r.samples));
    assert data[0] == flags[0] && data[1] == flags[1] && data[2] == flags[2] && data[3] == flags[3];
    WordIsReadAt(flags, |r.samples|, rest + EncodedSamples(r.layout, r.samples));
  }

  lemma RecordStarts(layout: Layout, s: Sample)
    requires layout.durations
    ensures |EncodedSample(layout, s)| >= 4 && EncodedSample(layout, s)[..4] == BigEndianBytes(s.duration, 4)
  {
  }

  lemma FirstWordIsRead(front: seq<byte>, earlier: seq<byte>, value: nat, others: seq<byte>, rest: seq<byte>)
    requires value < 0x1_0000_0000
    ensures var data := front + (earlier + ((BigEndianBytes(value, 4) + others) + rest));
            Word(data, |front| + |earlier|) == value
  {
    var number := BigEndianBytes(value, 4);
    Associates(number, others, rest);
    Associates(front, earlier, number + (others + rest));
    Associates(front + earlier, number, others + rest);
    WordIsReadAt(front + earlier, value, others + rest);
  }

  lemma SampleIsRead(r: TrackRun, k: nat)
    requires WritableRun(r) && r.layout.durations && k < |r.samples|
    ensures var at := |RunFront(r)| + k * RecordLength(r.layout);
            at + 4 <= |EncodedRun(r)| && Word(EncodedRun(r), at) == r.samples[k].duration
  {
    var s, layout := r.samples[k], r.layout;
    var rest := SamplesSplit(layout, r.samples, k);
    SamplesTakeRoom(layout, r.samples[..k]);
    var earlier, record := EncodedSamples(layout, r.samples[..k]), EncodedSample(layout, s);
    RecordStarts(layout, s);
    FirstWordIsRead(RunFront(r), earlier, s.duration, record[4..], rest);
    assert record == BigEndianBytes(s.duration, 4) + record[4..];
  }

  lemma TimeIsRead(r: TrackRun, defaultTime: nat, k: nat)
    requires WritableRun(r) && k < |r.samples| && IsRun(EncodedRun(r))
    requires RunHead(EncodedRun(r)) == Run(|r.samples|, |RunFront(r)|, RecordLength(r.layout), r.layout.durations)
    ensures SampleTime(EncodedRun(r), defaultTime, k) == if r.layout.durations then r.samples[k].duration else defaultTime
  {
    RecordOffsetIsLinear(RunHead(EncodedRun(r)), k);
    if r.layout.durations { SampleIsRead(r, k); }
  }

  /** A written run is well formed, and each sample takes the time written for it, or the default where none is written. */
  lemma EncodedRunIsRead(r: TrackRun, defaultTime: nat)
    requires WritableRun(r)
    ensures var data := EncodedRun(r);
            && IsRun(data) && |SampleTimes(data, defaultTime)| == |r.samples|
            && forall k :: 0 <= k < |r.samples| ==>
                 SampleTimes(data, defaultTime)[k] == if r.layout.durations then r.samples[k].duration else defaultTime
  {
    var data := EncodedRun(r);
    RunHeadIsRead(r);
    SamplesTakeRoom(r.layout, r.samples);
    forall k: nat | k < |r.samples|
      ensures SampleTime(data, defaultTime, k) == if r.layout.durations then r.samples[k].duration else defaultTime
    {
      TimeIsRead(r, defaultTime, k);
    }
  }

  // ---------- What is accepted was written so ----------

  lemma WordIsWritten(data: seq<byte>, at: nat)
    requires at + 4 <= |data|
    ensures Word(data, at) < 0x1_0000_0000 && BigEndianBytes(Word(data, at), 4) == data[at..at + 4]
  {
    BigEndianRestores(data[at..at + 4]);
  }

  lemma FieldIsWritten(data: seq<byte>, at: nat, present: bool) returns (value: Option<nat>)
    requires at + Flag(present, 4) <= |data|
    ensures FitsField(value) && value.Some? == present && Field(value) == data[at..at + Flag(present, 4)]
    ensures at + Flag(present, 4) == |data| ==> Field(value) == data[at..]
  {
    if present { WordIsWritten(data, at); }
    value := if present then Some(Word(data, at)) else None;
  }

  lemma LongFieldIsWritten(data: seq<byte>, at: nat, present: bool) returns (value: Option<nat>)
    requires at + Flag(present, 8) <= |data|
    ensures value.Some? ==> value.value < 0x1_0000_0000_0000_0000
    ensures value.Some? == present && LongField(value) == data[at..at + Flag(present, 8)]
  {
    value := None;
    if present {
      BigEndianRestores(data[at..at + 8]);
      BigEndianBound(data[at..at + 8]);
      EightOctetsHold(BigEndian(data[at..at + 8]));
      value := Some(BigEndian(data[at..at + 8]));
    }
  }

  lemma CutBox(data: seq<byte>, a: nat, b: nat, c: nat, d: nat, end: nat)
    requires a <= b <= c <= d <= end <= |data|
    ensures data[a..end] == data[a..b] + data[b..c] + data[c..end]
    ensures data[a..end] == data[a..b] + data[b..c] + data[c..d] + data[d..end]
  {
  }

  /** A box was written in one of the three ways, an open one at the end of its parent. */
  lemma BoxIsEncoded(data: seq<byte>, offset: nat, limit: nat, box: Box)
    requires BoxAt(data, offset, limit, box)
    ensures var whole, payload := data[offset..box.end], data[box.dataOffset..box.end];
            || whole == EncodedBox(box.kind, payload) || whole == EncodedLargeBox(box.kind, payload)
            || (box.end == limit && whole == EncodedOpenBox(box.kind, payload))
  {
    var whole, payload := data[offset..box.end], data[box.dataOffset..box.end];
    BigEndianRestores(data[offset..offset + 4]);
    CutBox(data, offset, offset + 4, offset + 8, box.dataOffset, box.end);
    if RawSize(data, offset) == 1 { BigEndianRestores(data[offset + 8..offset + 16]); }
  }

  lemma ThreeBits(b: byte)
    requires b < 8
    ensures b == Flag(Bit(b, 1), 1) + Flag(Bit(b, 2), 2) + Flag(Bit(b, 4), 4)
  {
  }

  lemma LowerBits(b: byte)
    ensures b / 2 % 2 == b % 8 / 2 % 2 && b / 4 % 2 == b % 8 / 4 % 2 && b % 2 == b % 8 % 2
  {
    var low, high := b % 8, b / 8;
    assert b == 8 * high + low;
    assert b / 2 == 4 * high + low / 2;
    assert b / 4 == 2 * high + low / 4;
  }

  lemma UpperBits(b: byte)
    ensures b / 16 == b / 8 / 2 && b / 32 == b / 8 / 4
  {
  }

  lemma HeaderFlagsAreWritten(b: byte)
    requires b < 64 && !Bit(b, 4)
    ensures b == Flag(Bit(b, 1), 1) + Flag(Bit(b, 2), 2) + Flag(Bit(b, 8), 8) + Flag(Bit(b, 16), 16) + Flag(Bit(b, 32), 32)
  {
    var low, high := b % 8, b / 8;
    ThreeBits(low);
    ThreeBits(high);
    LowerBits(b);
    UpperBits(b);
    assert b == low + 8 * high;
  }

  lemma CutHeader(s: seq<byte>, a: nat, b: nat, c: nat, d: nat)
    requires 8 <= a <= b <= c <= d <= |s|
    ensures s == s[..4] + s[4..8] + s[8..a] + s[a..b] + s[b..c] + (s[c..d] + s[d..])
  {
  }

  /** The track's number and the fields there are, cut at these places. */
  ghost predicate Filled(s: seq<byte>, h: TrackHeader, a: nat, b: nat, c: nat, d: nat) {
    && 8 <= a <= b <= c <= d <= |s| && s[4..8] == BigEndianBytes(h.track, 4) && s[8..a] == LongField(h.baseOffset)
    && s[a..b] == Field(h.description) && s[b..c] == Field(h.duration) && s[c..d] == Field(h.size) && s[d..] == Field(h.sampleFlags)
  }

  lemma HeaderIsJoined(s: seq<byte>, h: TrackHeader, a: nat, b: nat, c: nat, d: nat)
    requires |s| >= 8 && HeaderFlags(h) == s[..4] && Filled(s, h, a, b, c, d)
    ensures s == EncodedHeader(h)
  {
    CutHeader(s, a, b, c, d);
  }

  lemma HeaderFlagsAreRestored(h: TrackHeader, header: seq<byte>)
    requires |header| >= 8 && AllowedHeaderFlags(header)
    requires h.isEmpty == Bit(header[1], 1) && h.fromMovie == Bit(header[1], 2)
    requires h.baseOffset.Some? == Bit(header[3], 1) && h.description.Some? == Bit(header[3], 2)
    requires h.duration.Some? == Bit(header[3], 8) && h.size.Some? == Bit(header[3], 16) && h.sampleFlags.Some? == Bit(header[3], 32)
    ensures HeaderFlags(h) == header[..4]
  {
    HeaderFlagsAreWritten(header[3]);
  }

  lemma FieldsFillHeader(header: seq<byte>)
    requires |header| >= 8 && DefaultTime(header).Some?
    ensures var flags := header[3];
            |header| == 8 + Flag(Bit(flags, 1), 8) + Flag(Bit(flags, 2), 4) + Flag(Bit(flags, 8), 4) + Flag(Bit(flags, 16), 4)
                        + Flag(Bit(flags, 32), 4)
  {
  }

  ghost predicate SameForm(h: TrackHeader, form: TrackHeader) {
    && h.isEmpty == form.isEmpty && h.fromMovie == form.fromMovie && h.baseOffset.Some? == form.baseOffset.Some?
    && h.description.Some? == form.description.Some? && h.duration.Some? == form.duration.Some? && h.size.Some? == form.size.Some?
    && h.sampleFlags.Some? == form.sampleFlags.Some?
  }

  lemma SameFormSameFlags(h: TrackHeader, form: TrackHeader)
    requires SameForm(h, form)
    ensures HeaderFlags(h) == HeaderFlags(form)
  {
  }

  lemma FieldIsTaken(data: seq<byte>, at: nat, to: nat, present: bool) returns (value: Option<nat>)
    requires to == at + Flag(present, 4) <= |data|
    ensures FitsField(value) && value.Some? == present && data[at..to] == Field(value)
    ensures to == |data| ==> data[at..] == Field(value)
  {
    value := FieldIsWritten(data, at, present);
  }

  /** The fields of a header, taken as a form says which there are. */
  lemma FieldsAreTaken(header: seq<byte>, form: TrackHeader, a: nat, b: nat, c: nat, d: nat) returns (h: TrackHeader)
    requires a == 8 + Flag(form.baseOffset.Some?, 8) && b == a + Flag(form.description.Some?, 4)
    requires c == b + Flag(form.duration.Some?, 4) && d == c + Flag(form.size.Some?, 4)
    requires |header| == d + Flag(form.sampleFlags.Some?, 4)
    ensures WritableHeader(h) && SameForm(h, form) && Filled(header, h, a, b, c, d)
  {
    var baseOffset := LongFieldIsWritten(header, 8, form.baseOffset.Some?);
    var description := FieldIsTaken(header, a, b, form.description.Some?);
    var duration := FieldIsTaken(header, b, c, form.duration.Some?);
    var size := FieldIsTaken(header, c, d, form.size.Some?);
    var sampleFlags := FieldIsTaken(header, d, |header|, form.sampleFlags.Some?);
    WordIsWritten(header, 4);
    h := TrackHeader(Word(header, 4), baseOffset, description, duration, size, sampleFlags, form.isEmpty, form.fromMovie);
  }

  /** Every header that is accepted is one that is written. */
  lemma HeaderIsEncoded(header: seq<byte>) returns (h: TrackHeader)
    requires |header| >= 8 && AllowedHeaderFlags(header) && DefaultTime(header).Some?
    ensures WritableHeader(h) && header == EncodedHeader(h)
  {
    var flags := header[3];
    var form := TrackHeader(0, Given(Bit(flags, 1), 0), Given(Bit(flags, 2), 0), Given(Bit(flags, 8), 0),
                            Given(Bit(flags, 16), 0), Given(Bit(flags, 32), 0), Bit(header[1], 1), Bit(header[1], 2));
    FieldsFillHeader(header);
    HeaderFlagsAreRestored(form, header);
    var a := 8 + Flag(Bit(flags, 1), 8);
    var b := a + Flag(Bit(flags, 2), 4);
    var c := b + Flag(Bit(flags, 8), 4);
    var d := c + Flag(Bit(flags, 16), 4);
    h := FieldsAreTaken(header, form, a, b, c, d);
    SameFormSameFlags(h, form);
    HeaderIsJoined(header, h, a, b, c, d);
  }

  /** Every base time that is accepted is one that is written. */
  lemma TimeIsEncoded(data: seq<byte>)
    requires BaseTime(data).Some?
    ensures data == EncodedTime(BaseTime(data).value, data[0] == 1)
  {
    if data[0] == 1 {
      BigEndianRestores(data[4..12]);
      assert data == data[..4] + data[4..12];
    } else {
      WordIsWritten(data, 4);
      assert data == data[..4] + data[4..8];
    }
  }

  ghost function Held(value: Option<nat>): nat {
    if value.Some? then value.value else 0
  }

  lemma RecordIsJoined(record: seq<byte>, layout: Layout, duration: Option<nat>, size: Option<nat>, flags: Option<nat>, shift: Option<nat>)
    requires (layout.durations, layout.sizes, layout.flags, layout.shifts) == (duration.Some?, size.Some?, flags.Some?, shift.Some?)
    ensures EncodedSample(layout, Sample(Held(duration), Held(size), Held(flags), Held(shift)))
            == Field(duration) + (Field(size) + Field(flags) + Field(shift))
  {
  }

  lemma CutRecord(s: seq<byte>, a: nat, b: nat, c: nat)
    requires a <= b <= c <= |s|
    ensures s == s[0..a] + (s[a..b] + s[b..c] + s[c..])
  {
  }

  lemma SampleIsEncoded(layout: Layout, record: seq<byte>) returns (s: Sample)
    requires |record| == RecordLength(layout)
    ensures EncodedSample(layout, s) == record && s.duration < 0x1_0000_0000
  {
    var a := Flag(layout.durations, 4);
    var b := a + Flag(layout.sizes, 4);
    var c := b + Flag(layout.flags, 4);
    var duration := FieldIsWritten(record, 0, layout.durations);
    var size := FieldIsWritten(record, a, layout.sizes);
    var flags := FieldIsWritten(record, b, layout.flags);
    var shift := FieldIsWritten(record, c, layout.shifts);
    s := Sample(Held(duration), Held(size), Held(flags), Held(shift));
    RecordIsJoined(record, layout, duration, size, flags, shift);
    CutRecord(record, a, b, c);
  }

  lemma OneMoreSample(layout: Layout, samples: seq<Sample>, s: Sample)
    ensures EncodedSamples(layout, samples + [s]) == EncodedSamples(layout, samples) + EncodedSample(layout, s)
  {
    assert (samples + [s])[..|samples|] == samples;
  }

  lemma CutInTwo(s: seq<byte>, at: nat)
    requires at <= |s|
    ensures s == s[..at] + s[at..]
  {
  }

  lemma LastRecord(records: seq<byte>, n: nat, size: nat)
    requires n > 0 && |records| == n * size
    ensures var at := (n - 1) * size;
            0 <= at && |records| == at + size && |records[..at]| == at && |records[at..]| == size
  {
    Distribute(n - 1, 1, size);
  }

  lemma {:induction false} SamplesAreEncoded(layout: Layout, records: seq<byte>, n: nat) returns (samples: seq<Sample>)
    requires |records| == n * RecordLength(layout)
    ensures |samples| == n && EncodedSamples(layout, samples) == records
    ensures forall k :: 0 <= k < n ==> samples[k].duration < 0x1_0000_0000
  {
    samples := [];
    if n > 0 {
      var at := (n - 1) * RecordLength(layout);
      LastRecord(records, n, RecordLength(layout));
      var front := SamplesAreEncoded(layout, records[..at], n - 1);
      var last := SampleIsEncoded(layout, records[at..]);
      samples := front + [last];
      OneMoreSample(layout, front, last);
      CutInTwo(records, at);
    }
  }

  lemma RunFlagsAreWritten(b: byte)
    ensures b < 16 ==> b == Flag(Bit(b, 1), 1) + Flag(Bit(b, 2), 2) + Flag(Bit(b, 4), 4) + Flag(Bit(b, 8), 8)
    ensures b < 8 && !Bit(b, 2) ==> b == Flag(Bit(b, 1), 1) + Flag(Bit(b, 4), 4)
  {
  }

  lemma CutRun(s: seq<byte>, a: nat, b: nat)
    requires 8 <= a <= b <= |s|
    ensures s == s[..4] + s[4..8] + (s[8..a] + s[a..b]) + s[b..]
  {
  }

  lemma RunFlagsAreRestored(r: TrackRun, data: seq<byte>)
    requires |data| >= 8 && AllowedRunFlags(data) && r.version == data[0]
    requires r.layout == Layout(Bit(data[2], 1), Bit(data[2], 2), Bit(data[2], 4), Bit(data[2], 8))
    requires r.dataOffset.Some? == Bit(data[3], 1) && r.firstFlags.Some? == Bit(data[3], 4)
    ensures RunFlags(r) == data[..4]
  {
    RunFlagsAreWritten(data[2]);
    RunFlagsAreWritten(data[3]);
  }

  lemma RunIsJoined(s: seq<byte>, r: TrackRun, a: nat, b: nat)
    requires 8 <= a <= b <= |s| && r.version <= 1 && RunFlags(r) == s[..4] && BigEndianBytes(|r.samples|, 4) == s[4..8]
    requires Field(r.dataOffset) == s[8..a] && Field(r.firstFlags) == s[a..b] && EncodedSamples(r.layout, r.samples) == s[b..]
    ensures s == EncodedRun(r)
  {
    CutRun(s, a, b);
  }

  /** The records after the front of a run are its samples. */
  lemma RunIsTaken(data: seq<byte>, dataOffset: Option<nat>, firstFlags: Option<nat>, layout: Layout, a: nat, b: nat, n: nat)
    returns (r: TrackRun)
    requires 8 <= a <= b <= |data| && data[0] <= 1 && n == Word(data, 4) && |data[b..]| == n * RecordLength(layout)
    requires Field(dataOffset) == data[8..a] && Field(firstFlags) == data[a..b]
    ensures r == TrackRun(data[0], dataOffset, firstFlags, layout, r.samples) && |r.samples| == n
    ensures forall k :: 0 <= k < n ==> r.samples[k].duration < 0x1_0000_0000
    ensures RunFlags(r) == data[..4] ==> data == EncodedRun(r)
  {
    var samples := SamplesAreEncoded(layout, data[b..], n);
    r := TrackRun(data[0], dataOffset, firstFlags, layout, samples);
    WordIsWritten(data, 4);
    if RunFlags(r) == data[..4] { RunIsJoined(data, r, a, b); }
  }

  lemma RecordsFillRun(data: seq<byte>, layout: Layout)
    requires IsRun(data) && layout == Layout(Bit(data[2], 1), Bit(data[2], 2), Bit(data[2], 4), Bit(data[2], 8))
    ensures var b := 8 + Flag(Bit(data[3], 1), 4) + Flag(Bit(data[3], 4), 4);
            1 <= Word(data, 4) && b <= |data| && |data[b..]| == Word(data, 4) * RecordLength(layout)
  {
    assert RunHead(data).recordSize == RecordLength(layout);
  }

  /** Every run that is accepted is one that is written. */
  lemma RunIsEncoded(data: seq<byte>) returns (r: TrackRun)
    requires IsRun(data)
    ensures WritableRun(r) && data == EncodedRun(r)
  {
    var layout := Layout(Bit(data[2], 1), Bit(data[2], 2), Bit(data[2], 4), Bit(data[2], 8));
    var a := 8 + Flag(Bit(data[3], 1), 4);
    var b := a + Flag(Bit(data[3], 4), 4);
    RecordsFillRun(data, layout);
    var dataOffset := FieldIsWritten(data, 8, Bit(data[3], 1));
    var firstFlags := FieldIsWritten(data, a, Bit(data[3], 4));
    r := RunIsTaken(data, dataOffset, firstFlags, layout, a, b, Word(data, 4));
    RunFlagsAreRestored(r, data);
  }

  lemma CutEntry(s: seq<byte>, at: nat)
    requires |s| == at + 8
    ensures s == s[..at] + (s[at..at + 4] + s[at + 4..at + 8])
  {
  }

  lemma {:induction false} EntriesAreEncoded(octets: seq<byte>, n: nat) returns (entries: seq<(nat, nat)>)
    requires |octets| == 8 * n
    ensures |entries| == n && EncodedEntries(entries) == octets
    ensures forall k :: 0 <= k < n ==> entries[k].0 < POW32 && entries[k].1 < POW32
  {
    entries := [];
    if n > 0 {
      var at := 8 * (n - 1);
      var front := EntriesAreEncoded(octets[..at], n - 1);
      WordIsWritten(octets, at);
      WordIsWritten(octets, at + 4);
      entries := front + [(Word(octets, at), Word(octets, at + 4))];
      assert entries[..n - 1] == front;
      CutEntry(octets, at);
    }
  }

  /** Every timing table that is accepted is one that is written. */
  lemma TableIsEncoded(data: seq<byte>) returns (entries: seq<(nat, nat)>)
    requires IsTable(data)
    ensures Fits32(entries) && data == EncodedTable(data[..4], entries)
  {
    entries := EntriesAreEncoded(data[8..], Word(data, 4));
    WordIsWritten(data, 4);
    assert data == data[..4] + data[4..8] + data[8..];
  }
}
