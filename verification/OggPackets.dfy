/** Packets in lacing segments (section 6 of RFC 3533) and how many samples Opus packets hold. */
module OggPackets {
  import opened Options
  import opened Bytes
  import opened Ordering

  // ---------- Segments ----------

  /** A segment is what one lacing value covers; its length is that value. */
  ghost predicate Segmented(segments: seq<seq<byte>>) {
    forall k :: 0 <= k < |segments| ==> |segments[k]| <= 255
  }

  /** The packets completed so far and the octets of the packet still open. */
  datatype Assembly = Assembly(packets: seq<seq<byte>>, open: seq<byte>)

  /** A lacing value below 255 ends a packet. */
  ghost function Assemble(segments: seq<seq<byte>>, carried: seq<byte>): Assembly {
    if segments == [] then Assembly([], carried)
    else
      var before, last := Assemble(segments[..|segments| - 1], carried), segments[|segments| - 1];
      if |last| == 255 then Assembly(before.packets, before.open + last)
      else Assembly(before.packets + [before.open + last], [])
  }

  lemma AssembleNext(segments: seq<seq<byte>>, carried: seq<byte>, last: seq<byte>)
    ensures Assemble(segments + [last], carried) ==
            var before := Assemble(segments, carried);
            if |last| == 255 then Assembly(before.packets, before.open + last)
            else Assembly(before.packets + [before.open + last], [])
  {
    assert (segments + [last])[..|segments|] == segments;
  }

  lemma AssembleOneMore(segments: seq<seq<byte>>, k: nat, carried: seq<byte>)
    requires k < |segments|
    ensures Assemble(segments[..k + 1], carried) ==
            var before := Assemble(segments[..k], carried);
            if |segments[k]| == 255 then Assembly(before.packets, before.open + segments[k])
            else Assembly(before.packets + [before.open + segments[k]], [])
  {
    TakeOneMore(segments, k);
    AssembleNext(segments[..k], carried, segments[k]);
  }

  /** Assembling page after page, carrying the open packet over, is assembling everything at once. */
  lemma {:induction false} AssembleConcat(a: seq<seq<byte>>, b: seq<seq<byte>>, carried: seq<byte>)
    ensures Assemble(a + b, carried) ==
            var first := Assemble(a, carried);
            var second := Assemble(b, first.open);
            Assembly(first.packets + second.packets, second.open)
  {
    var first := Assemble(a, carried);
    if b == [] {
      assert a + b == a && first.packets + [] == first.packets;
    } else {
      var n := |b| - 1;
      AssembleConcat(a, b[..n], carried);
      AssembleNext(a + b[..n], carried, b[n]);
      assert a + b == (a + b[..n]) + [b[n]];
      var second := Assemble(b[..n], first.open);
      assert (first.packets + second.packets) + [second.open + b[n]] == first.packets + (second.packets + [second.open + b[n]]);
    }
  }

  /** The segments of a packet: full ones of 255 octets and then the rest, even if it is empty. */
  function SegmentsOf(packet: seq<byte>): (segments: seq<seq<byte>>)
    decreases |packet|
  {
    if |packet| < 255 then [packet] else [packet[..255]] + SegmentsOf(packet[255..])
  }

  ghost function AllSegmentsOf(packets: seq<seq<byte>>): seq<seq<byte>> {
    if packets == [] then [] else AllSegmentsOf(packets[..|packets| - 1]) + SegmentsOf(packets[|packets| - 1])
  }

  lemma {:induction false} OnePacket(packet: seq<byte>, carried: seq<byte>)
    ensures Assemble(SegmentsOf(packet), carried) == Assembly([carried + packet], [])
    decreases |packet|
  {
    if |packet| < 255 {
      AssembleNext([], carried, packet);
    } else {
      var rest := packet[255..];
      OnePacket(rest, carried + packet[..255]);
      AssembleNext([], carried, packet[..255]);
      AssembleConcat([packet[..255]], SegmentsOf(rest), carried);
      assert (carried + packet[..255]) + rest == carried + packet;
    }
  }

  lemma OneMoreRecovered(segments: seq<seq<byte>>, packets: seq<seq<byte>>, packet: seq<byte>)
    requires Assemble(segments, []) == Assembly(packets, [])
    ensures Assemble(segments + SegmentsOf(packet), []) == Assembly(packets + [packet], [])
  {
    OnePacket(packet, []);
    AssembleConcat(segments, SegmentsOf(packet), []);
    assert [] + packet == packet;
  }

  /** Every list of packets is recovered from its segments. */
  lemma {:induction false} PacketsAreRecovered(packets: seq<seq<byte>>)
    ensures Assemble(AllSegmentsOf(packets), []) == Assembly(packets, [])
  {
    if packets != [] {
      var front, last := packets[..|packets| - 1], packets[|packets| - 1];
      assert packets == front + [last];
      PacketsAreRecovered(front);
      OneMoreRecovered(AllSegmentsOf(front), front, last);
    }
  }

  /** Full segments, as they stand while a packet is open. */
  ghost function FullSegments(open: seq<byte>): seq<seq<byte>>
    decreases |open|
  {
    if |open| < 255 then [] else [open[..255]] + FullSegments(open[255..])
  }

  lemma {:induction false} FullThenLast(open: seq<byte>, last: seq<byte>)
    requires |open| % 255 == 0
    ensures |last| < 255 ==> SegmentsOf(open + last) == FullSegments(open) + [last]
    ensures |last| == 255 ==> FullSegments(open + last) == FullSegments(open) + [last]
    decreases |open|
  {
    if open == [] {
      assert [] + last == last;
      if |last| == 255 { assert last[..255] == last && last[255..] == []; }
    } else {
      FullThenLast(open[255..], last);
      assert (open + last)[..255] == open[..255] && (open + last)[255..] == open[255..] + last;
    }
  }

  lemma OneMorePacket(packets: seq<seq<byte>>, packet: seq<byte>)
    ensures AllSegmentsOf(packets + [packet]) == AllSegmentsOf(packets) + SegmentsOf(packet)
  {
    assert (packets + [packet])[..|packets|] == packets;
  }

  lemma OneMoreSegment(whole: seq<seq<byte>>, open: seq<seq<byte>>, last: seq<byte>)
    ensures (whole + open) + [last] == whole + (open + [last])
  {
  }

  lemma SegmentsGoOn(before: Assembly, segments: seq<seq<byte>>, last: seq<byte>)
    requires |before.open| % 255 == 0 && segments == AllSegmentsOf(before.packets) + FullSegments(before.open) && |last| <= 255
    ensures |last| == 255 ==> segments + [last] == AllSegmentsOf(before.packets) + FullSegments(before.open + last)
    ensures |last| < 255 ==> segments + [last] == AllSegmentsOf(before.packets + [before.open + last]) + FullSegments([])
  {
    FullThenLast(before.open, last);
    OneMorePacket(before.packets, before.open + last);
    OneMoreSegment(AllSegmentsOf(before.packets), FullSegments(before.open), last);
    assert AllSegmentsOf(before.packets + [before.open + last]) + [] == AllSegmentsOf(before.packets + [before.open + last]);
  }

  /** Conversely a list of segments is that of the packets it completes, followed by full segments of an open one. */
  lemma {:induction false} SegmentsAreThoseOfPackets(segments: seq<seq<byte>>)
    requires Segmented(segments)
    ensures var a := Assemble(segments, []);
            |a.open| % 255 == 0 && segments == AllSegmentsOf(a.packets) + FullSegments(a.open)
  {
    if segments != [] {
      var n := |segments| - 1;
      SegmentsAreThoseOfPackets(segments[..n]);
      TakeOneMore(segments, n);
      assert segments[..n + 1] == segments;
      SegmentsGoOn(Assemble(segments[..n], []), segments[..n], segments[n]);
    }
  }

  // ---------- The codec stage ----------

  const OPUS_HEAD: seq<byte> := [79, 112, 117, 115, 72, 101, 97, 100]
  const OPUS_TAGS: seq<byte> := [79, 112, 117, 115, 84, 97, 103, 115]

  function SamplesPerFrame(configuration: nat): (samples: nat)
    ensures samples >= 120
  {
    if configuration < 12 then match configuration % 4 case 0 => 480 case 1 => 960 case 2 => 1920 case _ => 2880
    else if configuration < 16 then if configuration % 2 == 0 then 480 else 960
    else match configuration % 4 case 0 => 120 case 1 => 240 case 2 => 480 case _ => 960
  }

  /** Samples at 48 kHz; None when the packet is not a decodable Opus packet of at most 120 ms. */
  function OpusSamples(packet: seq<byte>): (samples: Option<nat>)
    ensures samples.Some? ==> 0 < samples.value <= 5760
  {
    if packet == [] then None
    else
      var perFrame := SamplesPerFrame(packet[0] as nat / 8);
      var code := packet[0] as nat % 4;
      if code == 3 && |packet| < 2 then None
      else
        var frames: nat := if code == 0 then 1 else if code == 3 then packet[1] as nat % 64 else 2;
        if frames == 0 || perFrame * frames > 5760 then None else Some(perFrame * frames)
  }

  datatype Codec = Unknown | Opus(preSkip: nat, tags: bool, audio: bool, samples: nat)

  function HandleAudio(codec: Codec, packet: seq<byte>): Option<Codec>
    requires codec.Opus?
  {
    var more := OpusSamples(packet);
    if more.None? || codec.samples > MAX_UINT64 - more.value then None
    else Some(codec.(audio := true, samples := codec.samples + more.value))
  }

  function HandlePacket(codec: Codec, packet: seq<byte>): Option<Codec> {
    match codec
    case Unknown =>
      if |packet| >= 19 && packet[..8] == OPUS_HEAD then Some(Opus(LittleEndian(packet[10..12]), false, false, 0)) else None
    case Opus(preSkip, tags, audio, samples) =>
      if |packet| >= 8 && packet[..8] == OPUS_TAGS then
        if tags || audio then None else Some(Opus(preSkip, true, audio, samples))
      else if !tags then None
      else HandleAudio(codec, packet)
  }

  ghost function HandleAll(codec: Codec, packets: seq<seq<byte>>): Option<Codec> {
    if packets == [] then Some(codec)
    else
      var before := HandleAll(codec, packets[..|packets| - 1]);
      if before.None? then None else HandlePacket(before.value, packets[|packets| - 1])
  }

  lemma HandleOneMore(codec: Codec, packets: seq<seq<byte>>, packet: seq<byte>)
    ensures HandleAll(codec, packets + [packet]) ==
            if HandleAll(codec, packets).None? then None else HandlePacket(HandleAll(codec, packets).value, packet)
  {
    assert (packets + [packet])[..|packets|] == packets;
  }

  lemma {:induction false} HandleAllConcat(codec: Codec, a: seq<seq<byte>>, b: seq<seq<byte>>)
    ensures HandleAll(codec, a + b) ==
            if HandleAll(codec, a).None? then None else HandleAll(HandleAll(codec, a).value, b)
  {
    if b == [] {
      assert a + b == a;
    } else {
      assert (a + b)[..|a + b| - 1] == a + b[..|b| - 1];
      HandleAllConcat(codec, a, b[..|b| - 1]);
    }
  }

  ghost predicate IsHead(packet: seq<byte>) { |packet| >= 19 && Spells(packet, "OpusHead") }
  ghost predicate IsTags(packet: seq<byte>) { Spells(packet, "OpusTags") }

  lemma HeadsAreSpelled(packet: seq<byte>)
    requires |packet| >= 8
    ensures packet[..8] == OPUS_HEAD <==> Spells(packet, "OpusHead")
    ensures packet[..8] == OPUS_TAGS <==> Spells(packet, "OpusTags")
  {
    var eight := packet[..8];
    assert eight == [packet[0], packet[1], packet[2], packet[3], packet[4], packet[5], packet[6], packet[7]];
    assert Spells(packet, "OpusHead") ==> eight == OPUS_HEAD;
    assert Spells(packet, "OpusTags") ==> eight == OPUS_TAGS;
  }

  /** What the codec stage makes of a packet, told by the texts it begins with. */
  lemma HandledAsSpelled(codec: Codec, packet: seq<byte>)
    ensures codec.Unknown? ==> (HandlePacket(codec, packet).Some? <==> IsHead(packet))
    ensures codec.Opus? && IsTags(packet) ==> (HandlePacket(codec, packet).Some? <==> !codec.tags && !codec.audio)
    ensures codec.Opus? && IsTags(packet) && HandlePacket(codec, packet).Some? ==>
      HandlePacket(codec, packet).value == codec.(tags := true)
    ensures codec.Opus? && !IsTags(packet) ==>
      HandlePacket(codec, packet) == if codec.tags then HandleAudio(codec, packet) else None
  {
    if |packet| >= 8 { HeadsAreSpelled(packet); }
  }

  ghost function TotalSamples(packets: seq<seq<byte>>): nat {
    if packets == [] then 0
    else
      var last := OpusSamples(packets[|packets| - 1]);
      TotalSamples(packets[..|packets| - 1]) + (if last.Some? then last.value else 0)
  }

  /** An accepted packet list is a head, a tags packet and decodable audio, and the codec stage counts all of it. */
  lemma {:induction false} AcceptedPackets(packets: seq<seq<byte>>)
    requires HandleAll(Unknown, packets).Some?
    ensures var codec := HandleAll(Unknown, packets).value;
            && (codec == Unknown <==> packets == [])
            && (|packets| >= 1 ==> IsHead(packets[0]) && codec.preSkip == LittleEndian(packets[0][10..12]))
            && (|packets| >= 2 ==> IsTags(packets[1]))
            && (forall k :: 2 <= k < |packets| ==> OpusSamples(packets[k]).Some?)
            && (|packets| >= 1 ==> (codec.tags <==> |packets| >= 2) && (codec.audio <==> |packets| >= 3))
            && (|packets| >= 2 ==> codec.samples == TotalSamples(packets[2..]))
            && (|packets| == 1 ==> codec.samples == 0)
  {
    if packets != [] {
      var n := |packets| - 1;
      AcceptedPackets(packets[..n]);
      if HandleAll(Unknown, packets[..n]).Some? { HandledAsSpelled(HandleAll(Unknown, packets[..n]).value, packets[n]); }
      if n >= 2 {
        assert packets[2..][..n - 2] == packets[..n][2..];
      }
    }
  }

  /** A head, one tags packet and then decodable audio whose samples can be counted. */
  ghost predicate IsOpusStream(packets: seq<seq<byte>>) {
    && (|packets| >= 1 ==> IsHead(packets[0])) && (|packets| >= 2 ==> IsTags(packets[1]))
    && (forall k :: 2 <= k < |packets| ==> !IsTags(packets[k]) && OpusSamples(packets[k]).Some?)
    && (|packets| >= 2 ==> TotalSamples(packets[2..]) <= MAX_UINT64)
  }

  lemma LastAudioCounts(packets: seq<seq<byte>>)
    requires |packets| >= 3
    ensures var last := OpusSamples(packets[|packets| - 1]);
            TotalSamples(packets[2..]) == TotalSamples(packets[..|packets| - 1][2..]) + (if last.Some? then last.value else 0)
  {
    assert packets[2..][..|packets| - 3] == packets[..|packets| - 1][2..];
  }

  lemma OneMoreTaken(packets: seq<seq<byte>>, codec: Codec)
    requires packets != [] && IsOpusStream(packets[..|packets| - 1]) && HandleAll(Unknown, packets[..|packets| - 1]) == Some(codec)
    ensures HandlePacket(codec, packets[|packets| - 1]).Some? <==> IsOpusStream(packets)
  {
    var front, last := packets[..|packets| - 1], packets[|packets| - 1];
    AcceptedPackets(front);
    HandledAsSpelled(codec, last);
    if |packets| >= 3 { LastAudioCounts(packets); }
  }

  lemma BeginningIsOpus(packets: seq<seq<byte>>)
    requires packets != [] && IsOpusStream(packets)
    ensures IsOpusStream(packets[..|packets| - 1])
  {
    if |packets| >= 3 { LastAudioCounts(packets); }
  }

  /** The codec stage takes exactly such packet lists and their beginnings. */
  lemma {:induction false} TakenPackets(packets: seq<seq<byte>>)
    ensures HandleAll(Unknown, packets).Some? <==> IsOpusStream(packets)
  {
    if packets != [] {
      var before := HandleAll(Unknown, packets[..|packets| - 1]);
      TakenPackets(packets[..|packets| - 1]);
      if before.Some? { OneMoreTaken(packets, before.value); }
      if IsOpusStream(packets) { BeginningIsOpus(packets); }
    }
  }

  // ---------- Opus packets as they are written (section 3 of RFC 6716) ----------

  datatype Mode = Silk | Hybrid | Celt

  /** How a frame is coded; its length is given in microseconds. */
  datatype Coding = Coding(mode: Mode, bandwidth: nat, microseconds: nat, stereo: bool)

  /** Frames in a packet: one, two of equal size, two of different sizes, or a number given in a second octet, which also
      carries two flags. */
  datatype Framing = One | TwoEqual | TwoDifferent | Counted(frames: nat, flags: nat)

  /** The frame lengths of a mode, in the order of their numbers. */
  ghost function Lengths(mode: Mode): seq<nat> {
    match mode
    case Silk => [10_000, 20_000, 40_000, 60_000]
    case Hybrid => [10_000, 20_000]
    case Celt => [2_500, 5_000, 10_000, 20_000]
  }

  ghost function Bandwidths(mode: Mode): nat {
    match mode case Silk => 3 case Hybrid => 2 case Celt => 4
  }

  /** The first configuration of a mode. */
  ghost function FirstConfiguration(mode: Mode): nat {
    match mode case Silk => 0 case Hybrid => 12 case Celt => 16
  }

  ghost predicate ValidCoding(c: Coding) {
    c.bandwidth < Bandwidths(c.mode) && c.microseconds in Lengths(c.mode)
  }

  ghost predicate ValidFraming(f: Framing) {
    f.Counted? ==> f.frames < 64 && f.flags < 4
  }

  ghost function Frames(f: Framing): nat {
    match f case One => 1 case TwoEqual => 2 case TwoDifferent => 2 case Counted(frames, _) => frames
  }

  ghost function FramingCode(f: Framing): nat {
    match f case One => 0 case TwoEqual => 1 case TwoDifferent => 2 case Counted(_, _) => 3
  }

  /** The packet starts with the configuration in five bits, the channels in one and the code of the framing in two. */
  ghost predicate IsWritten(packet: seq<byte>, c: Coding, f: Framing) {
    && ValidCoding(c) && ValidFraming(f) && packet != []
    && (exists k :: 0 <= k < |Lengths(c.mode)| && Lengths(c.mode)[k] == c.microseconds
          && packet[0] == 8 * (FirstConfiguration(c.mode) + c.bandwidth * |Lengths(c.mode)| + k)
                          + (if c.stereo then 4 else 0) + FramingCode(f))
    && (f.Counted? ==> |packet| >= 2 && packet[1] == f.frames + 64 * f.flags)
  }

  lemma OctetIsRead(octet: byte, configuration: nat, stereo: bool, code: nat)
    requires octet == 8 * configuration + (if stereo then 4 else 0) + code && code < 4
    ensures octet as nat / 8 == configuration && octet as nat % 4 == code
  {
  }

  lemma CountIsRead(octet: byte, frames: nat, flags: nat)
    requires octet == frames + 64 * flags && frames < 64
    ensures octet as nat % 64 == frames
  {
  }

  lemma FrameIsMeasured(c: Coding, k: nat)
    requires c.bandwidth < Bandwidths(c.mode) && k < |Lengths(c.mode)| && Lengths(c.mode)[k] == c.microseconds
    ensures 1000 * SamplesPerFrame(FirstConfiguration(c.mode) + c.bandwidth * |Lengths(c.mode)| + k) == 48 * c.microseconds
    ensures FirstConfiguration(c.mode) + c.bandwidth * |Lengths(c.mode)| + k < 32
  {
  }

  lemma FramesAreMeasured(samples: nat, microseconds: nat, frames: nat)
    requires 1000 * samples == 48 * microseconds
    ensures 1000 * (samples * frames) == 48 * (frames * microseconds)
    ensures samples * frames > 5760 <==> frames * microseconds > 120_000
  {
    assert 1000 * (samples * frames) == (1000 * samples) * frames == (48 * microseconds) * frames == 48 * (frames * microseconds);
  }

  /** However it is coded and framed, a packet holds 48 samples for each millisecond of each frame, and is refused exactly
      without frames or above 120 milliseconds. */
  lemma WrittenPacketIsMeasured(packet: seq<byte>, c: Coding, f: Framing)
    requires IsWritten(packet, c, f)
    ensures OpusSamples(packet).None? <==> Frames(f) == 0 || Frames(f) * c.microseconds > 120_000
    ensures OpusSamples(packet).Some? ==> 1000 * OpusSamples(packet).value == 48 * (Frames(f) * c.microseconds)
  {
    var n := |Lengths(c.mode)|;
    var k :| 0 <= k < n && Lengths(c.mode)[k] == c.microseconds
      && packet[0] == 8 * (FirstConfiguration(c.mode) + c.bandwidth * n + k) + (if c.stereo then 4 else 0) + FramingCode(f);
    var configuration := FirstConfiguration(c.mode) + c.bandwidth * n + k;
    OctetIsRead(packet[0], configuration, c.stereo, FramingCode(f));
    FrameIsMeasured(c, k);
    if f.Counted? { CountIsRead(packet[1], f.frames, f.flags); }
    FramesAreMeasured(SamplesPerFrame(configuration), c.microseconds, Frames(f));
  }

  ghost function ModeOf(configuration: nat): Mode {
    if configuration < 12 then Silk else if configuration < 16 then Hybrid else Celt
  }

  ghost function FramingOf(packet: seq<byte>): Framing
    requires packet != [] && (packet[0] % 4 == 3 ==> |packet| >= 2)
  {
    match packet[0] as nat % 4
    case 0 => One
    case 1 => TwoEqual
    case 2 => TwoDifferent
    case _ => Counted(packet[1] as nat % 64, packet[1] as nat / 64)
  }

  lemma OctetParts(octet: byte)
    ensures octet as nat == 8 * (octet as nat / 8) + (if octet as nat / 4 % 2 == 1 then 4 else 0) + octet as nat % 4
    ensures octet as nat / 8 < 32
  {
  }

  /** Every configuration is that of some mode, bandwidth and frame length. */
  lemma EveryConfigurationIsCoding(configuration: nat, stereo: bool) returns (c: Coding, k: nat)
    requires configuration < 32
    ensures ValidCoding(c) && c.stereo == stereo && k < |Lengths(c.mode)| && Lengths(c.mode)[k] == c.microseconds
    ensures configuration == FirstConfiguration(c.mode) + c.bandwidth * |Lengths(c.mode)| + k
  {
    var mode := ModeOf(configuration);
    var n, at := |Lengths(mode)|, configuration - FirstConfiguration(mode);
    k := at % n;
    c := Coding(mode, at / n, Lengths(mode)[k], stereo);
  }

  /** Nothing else can stand in a packet: its first octets are always those of some coding and framing, except where the
      second octet is missing. */
  lemma EveryPacketIsWritten(packet: seq<byte>)
    requires packet != [] && (packet[0] % 4 == 3 ==> |packet| >= 2)
    ensures exists c, f :: IsWritten(packet, c, f)
  {
    OctetParts(packet[0]);
    var c, k := EveryConfigurationIsCoding(packet[0] as nat / 8, packet[0] as nat / 4 % 2 == 1);
    assert FramingCode(FramingOf(packet)) == packet[0] as nat % 4;
    assert IsWritten(packet, c, FramingOf(packet));
  }

  /** A packet whose second octet is missing, and an empty one, are refused. */
  lemma CutPacketIsRefused(packet: seq<byte>)
    requires packet == [] || (|packet| == 1 && packet[0] % 4 == 3)
    ensures OpusSamples(packet).None?
  {
  }

  /** How long the packets last as they are written. */
  ghost function TotalMicroseconds(codings: seq<(Coding, Framing)>): nat {
    if codings == [] then 0
    else
      var (c, f) := codings[|codings| - 1];
      TotalMicroseconds(codings[..|codings| - 1]) + Frames(f) * c.microseconds
  }

  /** The samples counted are 48 for each millisecond that the packets last. */
  lemma {:induction false} WrittenPacketsAreMeasured(packets: seq<seq<byte>>, codings: seq<(Coding, Framing)>)
    requires |codings| == |packets|
    requires forall k :: 0 <= k < |packets| ==> IsWritten(packets[k], codings[k].0, codings[k].1) && OpusSamples(packets[k]).Some?
    ensures 1000 * TotalSamples(packets) == 48 * TotalMicroseconds(codings)
  {
    if packets != [] {
      var n := |packets| - 1;
      WrittenPacketsAreMeasured(packets[..n], codings[..n]);
      WrittenPacketIsMeasured(packets[n], codings[n].0, codings[n].1);
    }
  }
}
