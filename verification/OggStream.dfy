/** The Ogg reader: pages, their order, and the packets that cross them (section 6 of RFC 3533). */
module OggStream {
  import opened Options
  import opened Bytes
  import opened ItemBudgets
  import opened OggCrc
  import opened OggPackets

  const OGGS: seq<byte> := [79, 103, 103, 83]
  const NO_GRANULE := MAX_UINT64

  /** A page with its payload cut into segments by its lacing values. */
  datatype Page = Page(headerType: byte, granule: nat, serial: nat, sequence: nat, segments: seq<seq<byte>>)

  predicate Begins(page: Page) { page.headerType / 2 % 2 == 1 }
  predicate Ends(page: Page) { page.headerType / 4 % 2 == 1 }

  // ---------- One page ----------

  function SumBytes(s: seq<byte>): (n: nat)
  {
    if s == [] then 0 else SumBytes(s[..|s| - 1]) + s[|s| - 1]
  }

  /** The fixed header and the lacing values lie inside the data. */
  predicate HeaderFits(data: seq<byte>, offset: nat) {
    && offset + 27 <= |data| && data[offset..offset + 4] == OGGS && data[offset + 4] == 0
    && offset + 27 + data[offset + 26] <= |data|
  }

  function LacesAt(data: seq<byte>, offset: nat): seq<byte>
    requires HeaderFits(data, offset)
  {
    data[offset + 27..offset + 27 + data[offset + 26]]
  }

  ghost function PageEnd(data: seq<byte>, offset: nat): (end: nat)
    requires HeaderFits(data, offset)
    ensures end >= offset + 27
  {
    offset + 27 + data[offset + 26] + SumBytes(LacesAt(data, offset))
  }

  /** A page starts at `offset`: it lies inside the data and its checksum is right. */
  ghost predicate HasPage(data: seq<byte>, offset: nat) {
    HeaderFits(data, offset) && PageEnd(data, offset) <= |data| && ValidPage(data[offset..PageEnd(data, offset)])
  }

  lemma PageIsMarked(data: seq<byte>, offset: nat)
    requires HasPage(data, offset)
    ensures Spells(data[offset..], "OggS") && data[offset + 4] == 0
  {
    var marker := data[offset..offset + 4];
    assert marker[0] == 79 && marker[1] == 103 && marker[2] == 103 && marker[3] == 83;
  }

  /** Consecutive segments from `from` on, each as long as its lacing value. */
  function CutSegments(data: seq<byte>, from: nat, laces: seq<byte>): (segments: seq<seq<byte>>)
    requires from + SumBytes(laces) <= |data|
    ensures |segments| == |laces| && Segmented(segments)
    ensures forall k :: 0 <= k < |laces| ==> |segments[k]| == laces[k]
  {
    if laces == [] then []
    else
      var front, last := laces[..|laces| - 1], laces[|laces| - 1];
      var cut := CutSegments(data, from, front);
      var start := from + SumBytes(front);
      cut + [data[start..start + last]]
  }

  function PageOf(data: seq<byte>, offset: nat): (page: Page)
    requires HeaderFits(data, offset) && PageEnd(data, offset) <= |data|
    ensures Segmented(page.segments)
  {
    Page(data[offset + 5], LittleEndian(data[offset + 6..offset + 14]), LittleEndian(data[offset + 14..offset + 18]),
         LittleEndian(data[offset + 18..offset + 22]), CutSegments(data, offset + 27 + data[offset + 26], LacesAt(data, offset)))
  }

  method AddUp(laces: seq<byte>) returns (payloadSize: nat)
    ensures payloadSize == SumBytes(laces)
  {
    payloadSize := 0;
    for k := 0 to |laces|
      invariant payloadSize == SumBytes(laces[..k])
    {
      assert laces[..k + 1][..k] == laces[..k];
      payloadSize := payloadSize + laces[k];
    }
    assert laces[..|laces|] == laces;
  }

  method ReadPage(data: seq<byte>, offset: nat) returns (result: Option<(Page, nat)>)
    ensures result.Some? <==> HasPage(data, offset)
    ensures result.Some? ==> result.value == (PageOf(data, offset), PageEnd(data, offset))
  {
    if !HeaderFits(data, offset) {
      return None;
    }
    var segments: nat := data[offset + 26];
    var payloadSize := AddUp(LacesAt(data, offset));
    var pageEnd := offset + 27 + segments + payloadSize;
    if pageEnd > |data| {
      return None;
    }
    var valid := ValidChecksum(data[offset..pageEnd]);
    if !valid {
      return None;
    }
    result := Some((PageOf(data, offset), pageEnd));
  }

  // ---------- The whole stream ----------

  function AllSegments(pages: seq<Page>): seq<seq<byte>> {
    if pages == [] then [] else AllSegments(pages[..|pages| - 1]) + pages[|pages| - 1].segments
  }

  /** A reader of pages: the page at an offset and where it ends. */
  type Reader = nat -> Option<(Page, nat)>

  ghost function PageReader(data: seq<byte>): Reader {
    (offset: nat) => if HasPage(data, offset) then Some((PageOf(data, offset), PageEnd(data, offset))) else None
  }

  ghost predicate MovesOn(next: Reader) {
    forall offset: nat :: next(offset).Some? ==>
      next(offset).value.1 > offset
  }

  lemma ReadsPage(data: seq<byte>, offset: nat)
    ensures PageReader(data)(offset).Some? <==> HasPage(data, offset)
    ensures HasPage(data, offset) ==> PageReader(data)(offset) == Some((PageOf(data, offset), PageEnd(data, offset)))
    ensures HasPage(data, offset) ==> offset < PageEnd(data, offset) <= |data|
  {
  }

  lemma PageReaderMovesOn(data: seq<byte>)
    ensures MovesOn(PageReader(data))
  {
  }

  /** Pages that follow each other from `from` up to `to`. */
  ghost predicate PagesTile(next: Reader, from: nat, pages: seq<Page>, to: nat)
    decreases |pages|
  {
    if pages == [] then from == to
    else next(from).Some? && pages[0] == next(from).value.0 && PagesTile(next, next(from).value.1, pages[1..], to)
  }

  lemma {:induction false} PageAdded(next: Reader, from: nat, pages: seq<Page>, to: nat)
    requires PagesTile(next, from, pages, to) && next(to).Some?
    ensures PagesTile(next, from, pages + [next(to).value.0], next(to).value.1)
    decreases |pages|
  {
    var page := next(to).value.0;
    if pages == [] {
      assert [page][1..] == [];
    } else {
      PageAdded(next, next(from).value.1, pages[1..], to);
      assert (pages + [page])[1..] == pages[1..] + [page];
    }
  }

  lemma {:induction false} PagesAdvance(next: Reader, from: nat, pages: seq<Page>, to: nat)
    requires PagesTile(next, from, pages, to) && MovesOn(next)
    ensures from <= to && (pages != [] ==> from < to)
    decreases |pages|
  {
    if pages != [] {
      PagesAdvance(next, next(from).value.1, pages[1..], to);
    }
  }

  /** The pages read so far are the first pages of any tiling of the whole. */
  lemma {:induction false} TilingContinues(next: Reader, from: nat, pages: seq<Page>, to: nat, all: seq<Page>, end: nat)
    requires PagesTile(next, from, pages, to) && PagesTile(next, from, all, end) && to <= end && MovesOn(next)
    ensures |pages| <= |all| && all[..|pages|] == pages && PagesTile(next, to, all[|pages|..], end)
    decreases |pages|
  {
    if pages == [] {
      assert all[0..] == all;
    } else {
      PagesAdvance(next, from, pages, to);
      PagesAdvance(next, from, all, end);
      TilingContinues(next, next(from).value.1, pages[1..], to, all[1..], end);
      assert all == [all[0]] + all[1..] && pages == [pages[0]] + pages[1..];
      assert all[1..][|pages| - 1..] == all[|pages|..];
    }
  }

  /** What is asked of the page at a place: the stream begins with its first page and goes on only until it ends. */
  ghost predicate InPlace(pages: seq<Page>, k: nat)
    requires k < |pages|
  {
    && pages[k].sequence == k && pages[k].serial == pages[0].serial
    && (Begins(pages[k]) <==> k == 0) && (k < |pages| - 1 ==> !Ends(pages[k]))
  }

  /** One logical stream. */
  ghost predicate Ordered(pages: seq<Page>) {
    forall k: nat :: k < |pages| ==> InPlace(pages, k)
  }

  ghost function FinalGranule(pages: seq<Page>): nat {
    if pages == [] then 0
    else if pages[|pages| - 1].granule != NO_GRANULE then pages[|pages| - 1].granule
    else FinalGranule(pages[..|pages| - 1])
  }

  /** One item for each page and one for each segment. */
  ghost function Items(pages: seq<Page>): nat {
    |pages| + |AllSegments(pages)|
  }

  /** What is kept between pages. */
  ghost function Reassembled(pages: seq<Page>): Assembly {
    Assemble(AllSegments(pages), [])
  }

  /** The codec stage after all packets completed so far. */
  ghost function CodecAfter(pages: seq<Page>): Option<Codec> {
    HandleAll(Unknown, Reassembled(pages).packets)
  }

  /** The pages are one whole logical stream within the budget, and no packet is left open. */
  ghost predicate IsStream(data: seq<byte>, pages: seq<Page>) {
    && pages != [] && PagesTile(PageReader(data), 0, pages, |data|) && Ordered(pages) && Ends(pages[|pages| - 1])
    && Items(pages) <= MAXIMUM_ITEMS && Reassembled(pages).open == []
  }

  /** The larger of the declared and the decoded length, less the samples to skip; both have to exceed those. */
  function Length(codec: Codec, granule: nat): Option<nat> {
    if codec.Unknown? || !codec.tags || !codec.audio || granule <= codec.preSkip || codec.samples <= codec.preSkip then None
    else Some((if codec.samples > granule then codec.samples else granule) - codec.preSkip)
  }

  /** The stream is accepted with this many samples. */
  ghost predicate Accepts(data: seq<byte>, pages: seq<Page>, samples: nat) {
    && IsStream(data, pages) && CodecAfter(pages).Some?
    && Length(CodecAfter(pages).value, FinalGranule(pages)) == Some(samples)
  }

  // ---------- Prefixes of an accepted stream ----------

  lemma {:induction false} AllSegmentsConcat(a: seq<Page>, b: seq<Page>)
    ensures AllSegments(a + b) == AllSegments(a) + AllSegments(b)
  {
    if b == [] {
      assert a + b == a;
    } else {
      var n := |b| - 1;
      assert (a + b)[..|a + b| - 1] == a + b[..n] && (a + b)[|a + b| - 1] == b[n];
      AllSegmentsConcat(a, b[..n]);
      assert (AllSegments(a) + AllSegments(b[..n])) + b[n].segments == AllSegments(a) + (AllSegments(b[..n]) + b[n].segments);
    }
  }

  /** Reassembly goes on from the open packet. */
  lemma OnePageMore(pages: seq<Page>, page: Page)
    ensures Items(pages + [page]) == Items(pages) + 1 + |page.segments|
    ensures Reassembled(pages + [page]) == var a := Assemble(page.segments, Reassembled(pages).open);
                                           Assembly(Reassembled(pages).packets + a.packets, a.open)
  {
    assert (pages + [page])[..|pages|] == pages;
    AssembleConcat(AllSegments(pages), page.segments, []);
  }

  ghost predicate Rejected(data: seq<byte>) {
    forall pages, samples :: !Accepts(data, pages, samples)
  }

  lemma OrderedPrefix(all: seq<Page>, k: nat)
    requires Ordered(all) && k <= |all|
    ensures Ordered(all[..k])
  {
    forall i: nat | i < k ensures InPlace(all[..k], i) {
      assert InPlace(all, i);
    }
  }

  lemma CodecOfBeginning(a: seq<seq<byte>>, b: seq<seq<byte>>)
    requires HandleAll(Unknown, Assemble(a + b, []).packets).Some?
    ensures HandleAll(Unknown, Assemble(a, []).packets).Some?
  {
    AssembleConcat(a, b, []);
    HandleAllConcat(Unknown, Assemble(a, []).packets, Assemble(b, Assemble(a, []).open).packets);
  }

  lemma CodecOfPrefix(all: seq<Page>, k: nat)
    requires CodecAfter(all).Some? && k <= |all|
    ensures CodecAfter(all[..k]).Some? && AllSegments(all) == AllSegments(all[..k]) + AllSegments(all[k..])
  {
    assert all == all[..k] + all[k..];
    AllSegmentsConcat(all[..k], all[k..]);
    CodecOfBeginning(AllSegments(all[..k]), AllSegments(all[k..]));
  }

  /** Nothing an accepted stream has to satisfy as a whole may fail on its first pages. */
  lemma AcceptedPrefix(data: seq<byte>, all: seq<Page>, samples: nat, k: nat)
    requires Accepts(data, all, samples) && k <= |all|
    ensures Ordered(all[..k]) && Items(all[..k]) <= MAXIMUM_ITEMS && CodecAfter(all[..k]).Some?
  {
    OrderedPrefix(all, k);
    CodecOfPrefix(all, k);
  }

  /** A stream with octets left after its first pages goes on with the page found there. */
  lemma NextPage(next: Reader, pages: seq<Page>, offset: nat, all: seq<Page>, end: nat)
    requires PagesTile(next, 0, pages, offset) && offset < end && PagesTile(next, 0, all, end) && MovesOn(next)
    ensures next(offset).Some? && |all| > |pages| && all[..|pages| + 1] == pages + [next(offset).value.0]
  {
    TilingContinues(next, 0, pages, offset, all, end);
    assert all[|pages|..] != [] && all[|pages|..][0] == all[|pages|];
    assert all[..|pages| + 1] == all[..|pages|] + [all[|pages|]];
  }

  lemma WholeTiling(next: Reader, pages: seq<Page>, all: seq<Page>, end: nat)
    requires PagesTile(next, 0, pages, end) && PagesTile(next, 0, all, end) && MovesOn(next)
    ensures all == pages
  {
    TilingContinues(next, 0, pages, end, all, end);
    PagesAdvance(next, end, all[|pages|..], end);
    assert all == all[..|pages|] + all[|pages|..];
  }

  // ---------- The reader ----------

  /** What is kept between the segments of a page. */
  datatype Stage = Stage(codec: Codec, packet: seq<byte>)

  /** The stage after these segments, the first of which goes on with the packet carried over. */
  ghost predicate Takes(segments: seq<seq<byte>>, codec: Codec, carried: seq<byte>, stage: Stage) {
    var a := Assemble(segments, carried);
    a.open == stage.packet && HandleAll(codec, a.packets) == Some(stage.codec)
  }

  /** Appends segment `k` to the open packet and hands a completed packet to the codec stage. */
  method TakeSegment(segments: seq<seq<byte>>, k: nat, stage: Stage, ghost codec: Codec, ghost carried: seq<byte>)
    returns (result: Option<Stage>)
    requires k < |segments| && Takes(segments[..k], codec, carried, stage)
    ensures result.None? <==> HandleAll(codec, Assemble(segments[..k + 1], carried).packets).None?
    ensures result.Some? ==> Takes(segments[..k + 1], codec, carried, result.value)
  {
    var segment := segments[k];
    AssembleOneMore(segments, k, carried);
    var packet := stage.packet + segment;
    if |segment| == 255 {
      return Some(Stage(stage.codec, packet));
    }
    HandleOneMore(codec, Assemble(segments[..k], carried).packets, packet);
    var handled := HandlePacket(stage.codec, packet);
    result := if handled.None? then None else Some(Stage(handled.value, []));
  }

  lemma FailureStays(page: Page, codec: Codec, carried: seq<byte>, k: nat)
    requires k <= |page.segments| && HandleAll(codec, Assemble(page.segments[..k], carried).packets).None?
    ensures HandleAll(codec, Assemble(page.segments, carried).packets).None?
  {
    assert page.segments == page.segments[..k] + page.segments[k..];
    AssembleConcat(page.segments[..k], page.segments[k..], carried);
    var first := Assemble(page.segments[..k], carried);
    HandleAllConcat(codec, first.packets, Assemble(page.segments[k..], first.open).packets);
  }

  /** Takes the segments of one page. */
  method ProcessPage(page: Page, codec: Codec, carried: seq<byte>, items: nat) returns (result: Option<(Codec, seq<byte>, nat)>)
    requires items <= MAXIMUM_ITEMS
    ensures var a := Assemble(page.segments, carried);
            && (result.Some? <==> items + |page.segments| <= MAXIMUM_ITEMS && HandleAll(codec, a.packets).Some?)
            && (result.Some? ==> result.value == (HandleAll(codec, a.packets).value, a.open, items + |page.segments|))
  {
    var stage, count := Stage(codec, carried), items;
    for k := 0 to |page.segments|
      invariant Takes(page.segments[..k], codec, carried, stage) && count == items + k <= MAXIMUM_ITEMS
    {
      if count >= MAXIMUM_ITEMS {
        return None;
      }
      count := count + 1;
      var taken := TakeSegment(page.segments, k, stage, codec, carried);
      if taken.None? {
        FailureStays(page, codec, carried, k + 1);
        return None;
      }
      stage := taken.value;
    }
    assert page.segments[..|page.segments|] == page.segments;
    result := Some((stage.codec, stage.packet, count));
  }

  /** What the reader keeps between pages. */
  datatype Progress = Progress(count: nat, serial: nat, codec: Codec, packet: seq<byte>, granule: nat, sawEnd: bool, items: nat)

  ghost predicate Describes(progress: Progress, pages: seq<Page>) {
    && Ordered(pages) && progress.count == |pages|
    && (pages != [] ==> progress.serial == pages[0].serial)
    && (progress.sawEnd <==> pages != [] && Ends(pages[|pages| - 1]))
    && progress.granule == FinalGranule(pages) && progress.items == Items(pages) <= MAXIMUM_ITEMS
    && CodecAfter(pages) == Some(progress.codec) && progress.packet == Reassembled(pages).open
  }

  const NOTHING_READ := Progress(0, 0, Unknown, [], 0, false, 0)

  lemma NothingReadDescribes()
    ensures Describes(NOTHING_READ, [])
  {
  }

  /** The checks a page has to pass after the pages before it. */
  predicate Follows(progress: Progress, page: Page) {
    if progress.count == 0 then Begins(page) && page.sequence == 0
    else page.serial == progress.serial && !Begins(page) && page.sequence == progress.count && !progress.sawEnd
  }

  lemma FollowsIsOrdered(progress: Progress, pages: seq<Page>, page: Page)
    requires Describes(progress, pages)
    ensures Follows(progress, page) <==> Ordered(pages + [page])
  {
    var all := pages + [page];
    var n := |pages|;
    assert forall k: nat :: k < n ==> all[k] == pages[k];
    if Follows(progress, page) {
      forall k: nat | k < |all| ensures InPlace(all, k) {
        if k < n { assert InPlace(pages, k) && InPlace(pages, n - 1); }
      }
    }
    if Ordered(all) {
      assert InPlace(all, n);
      if n > 0 { assert InPlace(all, n - 1); }
    }
  }

  method TakePage(progress: Progress, page: Page, ghost pages: seq<Page>) returns (result: Option<Progress>)
    requires Describes(progress, pages)
    ensures result.Some? ==> Describes(result.value, pages + [page])
    ensures result.None? ==>
      !Ordered(pages + [page]) || Items(pages + [page]) > MAXIMUM_ITEMS || CodecAfter(pages + [page]).None?
  {
    OnePageMore(pages, page);
    FollowsIsOrdered(progress, pages, page);
    if progress.items >= MAXIMUM_ITEMS {
      return None;
    }
    if !Follows(progress, page) {
      return None;
    }
    var taken := ProcessPage(page, progress.codec, progress.packet, progress.items + 1);
    HandleAllConcat(Unknown, Reassembled(pages).packets, Assemble(page.segments, progress.packet).packets);
    if taken.None? {
      return None;
    }
    assert (pages + [page])[..|pages|] == pages;
    var granule := if page.granule != NO_GRANULE then page.granule else progress.granule;
    result := Some(Progress(progress.count + 1, page.serial, taken.value.0, taken.value.1, granule, Ends(page), taken.value.2));
  }

  /** The pages read so far, where the last of them ends, and what is kept of them. */
  ghost predicate ReadUpTo(data: seq<byte>, pages: seq<Page>, offset: nat, progress: Progress) {
    offset <= |data| && PagesTile(PageReader(data), 0, pages, offset) && Describes(progress, pages)
  }

  lemma NoPageRejects(data: seq<byte>, pages: seq<Page>, offset: nat)
    requires PagesTile(PageReader(data), 0, pages, offset) && offset < |data| && PageReader(data)(offset).None?
    ensures Rejected(data)
  {
    PageReaderMovesOn(data);
    forall all, samples ensures !Accepts(data, all, samples) {
      if Accepts(data, all, samples) { NextPage(PageReader(data), pages, offset, all, |data|); }
    }
  }

  lemma BadPageRejects(data: seq<byte>, pages: seq<Page>, offset: nat)
    requires PagesTile(PageReader(data), 0, pages, offset) && offset < |data| && PageReader(data)(offset).Some?
    requires var next := pages + [PageReader(data)(offset).value.0];
             !Ordered(next) || Items(next) > MAXIMUM_ITEMS || CodecAfter(next).None?
    ensures Rejected(data)
  {
    PageReaderMovesOn(data);
    forall all, samples ensures !Accepts(data, all, samples) {
      if Accepts(data, all, samples) {
        NextPage(PageReader(data), pages, offset, all, |data|);
        AcceptedPrefix(data, all, samples, |pages| + 1);
      }
    }
  }

  /** Reads the page at `offset` and takes it. */
  method NextProgress(data: seq<byte>, offset: nat, progress: Progress, ghost pages: seq<Page>)
    returns (result: Option<(Progress, nat)>, ghost more: seq<Page>)
    requires offset < |data|
    requires ReadUpTo(data, pages, offset, progress)
    ensures result.Some? ==> offset < result.value.1 && ReadUpTo(data, more, result.value.1, result.value.0)
    ensures result.None? ==> Rejected(data)
  {
    more := pages;
    var read := ReadPage(data, offset);
    ReadsPage(data, offset);
    if read.None? {
      NoPageRejects(data, pages, offset);
      return None, more;
    }
    var taken := TakePage(progress, read.value.0, pages);
    if taken.None? {
      BadPageRejects(data, pages, offset);
      return None, more;
    }
    PageAdded(PageReader(data), 0, pages, offset);
    more := pages + [read.value.0];
    result := Some((taken.value, read.value.1));
  }

  /** Takes page after page to the end of the data. */
  method ReadPages(data: seq<byte>) returns (result: Option<Progress>, ghost pages: seq<Page>)
    ensures if result.Some? then ReadUpTo(data, pages, |data|, result.value) else Rejected(data)
  {
    var progress, offset := NOTHING_READ, 0;
    pages := [];
    NothingReadDescribes();
    while offset < |data|
      invariant ReadUpTo(data, pages, offset, progress)
      decreases |data| - offset
    {
      var next;
      next, pages := NextProgress(data, offset, progress, pages);
      if next.None? {
        return None, pages;
      }
      progress, offset := next.value.0, next.value.1;
    }
    result := Some(progress);
  }

  function Finish(progress: Progress): Option<nat> {
    if !progress.sawEnd || progress.packet != [] then None else Length(progress.codec, progress.granule)
  }

  lemma FinishDecides(data: seq<byte>, pages: seq<Page>, progress: Progress)
    requires PagesTile(PageReader(data), 0, pages, |data|) && Describes(progress, pages)
    ensures Finish(progress).Some? ==> Accepts(data, pages, Finish(progress).value)
    ensures Finish(progress).None? ==> Rejected(data)
  {
    PageReaderMovesOn(data);
    forall all, samples | Accepts(data, all, samples) ensures all == pages {
      WholeTiling(PageReader(data), pages, all, |data|);
    }
  }

  /** The number of samples of an Ogg Opus file; None when the file is not accepted. */
  method OggSamples(data: seq<byte>) returns (result: Option<nat>)
    ensures result.Some? ==> exists pages :: Accepts(data, pages, result.value)
    ensures result.None? ==> Rejected(data)
  {
    var progress;
    ghost var pages;
    progress, pages := ReadPages(data);
    if progress.None? {
      return None;
    }
    result := Finish(progress.value);
    FinishDecides(data, pages, progress.value);
  }

  // ---------- The packets of an accepted stream ----------

  ghost predicate ReadsSegmented(next: Reader) {
    forall offset: nat :: next(offset).Some? ==> Segmented(next(offset).value.0.segments)
  }

  lemma PageReaderReadsSegmented(data: seq<byte>)
    ensures ReadsSegmented(PageReader(data))
  {
  }

  lemma {:induction false} PagesAreSegmented(next: Reader, from: nat, pages: seq<Page>, to: nat)
    requires PagesTile(next, from, pages, to) && ReadsSegmented(next)
    ensures forall k :: 0 <= k < |pages| ==> Segmented(pages[k].segments)
    decreases |pages|
  {
    if pages != [] {
      PagesAreSegmented(next, next(from).value.1, pages[1..], to);
      assert pages == [pages[0]] + pages[1..];
    }
  }

  lemma {:induction false} AllSegmentsAreSegmented(pages: seq<Page>)
    requires forall k :: 0 <= k < |pages| ==> Segmented(pages[k].segments)
    ensures Segmented(AllSegments(pages))
  {
    if pages != [] { AllSegmentsAreSegmented(pages[..|pages| - 1]); }
  }

  /** The length is the larger of what is declared and what is decoded, less the samples to skip; both have to exceed these. */
  lemma LengthMeans(codec: Codec, granule: nat, samples: nat)
    ensures Length(codec, granule) == Some(samples) <==>
            && codec.Opus? && codec.tags && codec.audio && codec.preSkip < granule && codec.preSkip < codec.samples
            && codec.preSkip + samples >= granule && codec.preSkip + samples >= codec.samples
            && (codec.preSkip + samples == granule || codec.preSkip + samples == codec.samples)
  {
  }

  lemma NoGranuleIsAllOnes()
    ensures LittleEndian([255, 255, 255, 255, 255, 255, 255, 255]) == NO_GRANULE
  {
    var two: seq<byte> := [255, 255];
    var four, eight := two + two, two + two + two + two;
    assert eight == [255, 255, 255, 255, 255, 255, 255, 255];
    assert LittleEndian(two) == 0xffff by { assert two[1..] == [255]; }
    assert two[1..] == [255] && four[1..][1..] == two;
    assert LittleEndian(four) == 0xffff_ffff;
    assert eight[1..][1..][1..][1..] == four;
    assert LittleEndian(eight[1..][1..]) == 0xffff + 0x1_0000 * LittleEndian(four);
  }

  /** The position of the last page that has one; eight octets of ones stand for none. */
  lemma {:induction false} FinalGranuleIsLast(pages: seq<Page>, k: nat)
    requires k < |pages| && pages[k].granule != LittleEndian([255, 255, 255, 255, 255, 255, 255, 255])
    requires forall j :: k < j < |pages| ==> pages[j].granule == LittleEndian([255, 255, 255, 255, 255, 255, 255, 255])
    ensures FinalGranule(pages) == pages[k].granule
    decreases |pages|
  {
    NoGranuleIsAllOnes();
    if k < |pages| - 1 { FinalGranuleIsLast(pages[..|pages| - 1], k); }
  }

  /** The packets of an accepted file are the only ones its segments can stand for, and their audio is counted in full. */
  lemma AcceptedStream(data: seq<byte>, pages: seq<Page>, samples: nat)
    requires Accepts(data, pages, samples)
    ensures var packets := Reassembled(pages).packets;
      && AllSegments(pages) == AllSegmentsOf(packets) && |packets| >= 3 && |packets[0]| >= 19
      && var preSkip, declared, decoded := LittleEndian(packets[0][10..12]), FinalGranule(pages), TotalSamples(packets[2..]);
         && preSkip < declared && preSkip < decoded
         && preSkip + samples == (if decoded > declared then decoded else declared)
  {
    var packets := Reassembled(pages).packets;
    PageReaderReadsSegmented(data);
    PagesAreSegmented(PageReader(data), 0, pages, |data|);
    AllSegmentsAreSegmented(pages);
    SegmentsAreThoseOfPackets(AllSegments(pages));
    assert FullSegments([]) == [] && AllSegmentsOf(packets) + [] == AllSegmentsOf(packets);
    AcceptedPackets(packets);
  }
}
