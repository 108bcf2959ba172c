/** What the Ogg reader accepts, told from the writing side: pages written out, one after the other. */
module OggEncoding {
  import opened Options
  import opened Bytes
  import opened ItemBudgets
  import opened OggCrc
  import opened OggPackets
  import opened OggStream

  // ---------- One page ----------

  /** A page whose fields fit into their octets. */
  ghost predicate Writable(page: Page) {
    && |page.segments| < 256 && Segmented(page.segments)
    && page.granule < Pow256(8) && page.serial < Pow256(4) && page.sequence < Pow256(4)
  }

  ghost function Head(page: Page): (head: seq<byte>)
    ensures |head| == 22
  {
    OGGS + [0, page.headerType] + LittleEndianBytes(page.granule, 8) + LittleEndianBytes(page.serial, 4)
    + LittleEndianBytes(page.sequence, 4)
  }

  /** The three flags of a header type: a packet goes on from the page before, the first page, the last page. */
  ghost function TypeOf(continued: bool, first: bool, last: bool): byte {
    (if continued then 1 else 0) + (if first then 2 else 0) + (if last then 4 else 0)
  }

  /** The flags are read back, whatever the five bits without a meaning hold. */
  lemma FlagsAreRead(page: Page, continued: bool, first: bool, last: bool, rest: nat)
    requires rest < 32 && page.headerType == TypeOf(continued, first, last) + 8 * rest
    ensures Begins(page) == first && Ends(page) == last
  {
    assert page.headerType / 2 == (if first then 1 else 0) + (if last then 2 else 0) + 4 * rest;
    assert page.headerType / 4 == (if last then 1 else 0) + 2 * rest;
  }

  ghost function LacesOf(segments: seq<seq<byte>>): (laces: seq<byte>)
    requires Segmented(segments)
    ensures |laces| == |segments|
  {
    seq(|segments|, k requires 0 <= k < |segments| && |segments[k]| <= 255 => |segments[k]|)
  }

  /** The octets of a page, its checksum field filled in. */
  ghost function EncodePage(page: Page): seq<byte>
    requires Writable(page)
  {
    Stamped(Head(page) + [0, 0, 0, 0] + ([|page.segments|] + LacesOf(page.segments) + Concat(page.segments)))
  }

  lemma SamePrefix(data: seq<byte>, head: seq<byte>)
    requires |head| == 22 <= |data| && data[..22] == head
    ensures data[0..4] == head[0..4] && data[6..14] == head[6..14] && data[14..18] == head[14..18] && data[18..22] == head[18..22]
    ensures data[4] == head[4] && data[5] == head[5]
  {
  }

  lemma HeadFields(page: Page, head: seq<byte>)
    requires head == Head(page)
    ensures |head| == 22 && head[0..4] == OGGS && head[4] == 0 && head[5] == page.headerType
    ensures head[6..14] == LittleEndianBytes(page.granule, 8) && head[14..18] == LittleEndianBytes(page.serial, 4)
    ensures head[18..22] == LittleEndianBytes(page.sequence, 4)
  {
  }

  lemma BodyFields(segments: seq<seq<byte>>, data: seq<byte>)
    requires |data| >= 27 && |segments| < 256 && Segmented(segments)
    requires data[26..] == [|segments|] + LacesOf(segments) + Concat(segments)
    ensures data[26] == |segments| && |data| == 27 + |segments| + |Concat(segments)|
    ensures data[27..27 + |segments|] == LacesOf(segments) && data[27 + |segments|..] == Concat(segments)
  {
    var rest, n := data[26..], |segments|;
    assert data[26] == rest[0];
    assert data[27..27 + n] == rest[1..1 + n];
    assert data[27 + n..] == rest[1 + n..];
  }

  lemma EncodedLayout(page: Page)
    requires Writable(page)
    ensures var data := EncodePage(page);
      && |data| == 27 + |page.segments| + |Concat(page.segments)| && ValidPage(data)
      && data[0..4] == OGGS && data[4] == 0 && data[5] == page.headerType
      && data[6..14] == LittleEndianBytes(page.granule, 8) && data[14..18] == LittleEndianBytes(page.serial, 4)
      && data[18..22] == LittleEndianBytes(page.sequence, 4) && data[26] == |page.segments|
      && data[27..27 + |page.segments|] == LacesOf(page.segments) && data[27 + |page.segments|..] == Concat(page.segments)
  {
    var head := Head(page);
    var rest := [|page.segments|] + LacesOf(page.segments) + Concat(page.segments);
    var raw := head + [0, 0, 0, 0] + rest;
    var data := EncodePage(page);
    assert raw[26..] == rest;
    StampedPageValidates(raw);
    HeadFields(page, head);
    assert data[..22] == head && data[26..] == rest;
    BodyFields(page.segments, data);
    SamePrefix(data, head);
  }

  lemma LastLace(segments: seq<seq<byte>>)
    requires Segmented(segments) && segments != []
    ensures LacesOf(segments) == LacesOf(segments[..|segments| - 1]) + [|segments[|segments| - 1]|]
  {
  }

  lemma LastSegmentFollows(data: seq<byte>, from: nat, front: seq<byte>, last: seq<byte>)
    requires from <= |data| && front + last <= data[from..]
    ensures front <= data[from..] && from + |front| + |last| <= |data|
    ensures data[from + |front|..from + |front| + |last|] == last
  {
    assert front == (front + last)[..|front|];
    assert last == (front + last)[|front|..];
  }

  lemma {:induction false} CutInverts(data: seq<byte>, from: nat, segments: seq<seq<byte>>)
    requires Segmented(segments) && from <= |data| && Concat(segments) <= data[from..]
    ensures SumBytes(LacesOf(segments)) == |Concat(segments)|
    ensures CutSegments(data, from, LacesOf(segments)) == segments
  {
    if segments != [] {
      var front, last := segments[..|segments| - 1], segments[|segments| - 1];
      LastSegmentFollows(data, from, Concat(front), last);
      CutInverts(data, from, front);
      LastLace(segments);
      assert segments == front + [last];
    }
  }

  /** Every page whose fields fit is read back from its octets. */
  lemma EncodedPageIsRead(page: Page)
    requires Writable(page)
    ensures var data := EncodePage(page);
            HasPage(data, 0) && PageOf(data, 0) == page && PageEnd(data, 0) == |data|
  {
    var data := EncodePage(page);
    EncodedLayout(page);
    LittleEndianInverts(page.granule, 8);
    LittleEndianInverts(page.serial, 4);
    LittleEndianInverts(page.sequence, 4);
    assert data[0..|data|] == data;
    assert LacesAt(data, 0) == LacesOf(page.segments);
    CutInverts(data, 27 + |page.segments|, page.segments);
  }

  // ---------- A page inside longer data ----------

  lemma SliceOfSlice(data: seq<byte>, offset: nat, piece: seq<byte>, from: nat, to: nat)
    requires offset + |piece| <= |data| && data[offset..offset + |piece|] == piece && from <= to <= |piece|
    ensures data[offset + from..offset + to] == piece[from..to]
  {
    forall k | from <= k < to ensures data[offset + k] == piece[k] {
      assert data[offset..offset + |piece|][k] == data[offset + k];
    }
    assert |data[offset + from..offset + to]| == to - from;
    forall i | 0 <= i < to - from ensures data[offset + from..offset + to][i] == piece[from..to][i] {
      var k := from + i;
      assert data[offset + k] == piece[k];
    }
  }

  /** Cutting looks at the octets it cuts and at no others. */
  lemma {:induction false} CutIsLocal(data: seq<byte>, offset: nat, piece: seq<byte>, from: nat, laces: seq<byte>)
    requires offset + |piece| <= |data| && data[offset..offset + |piece|] == piece && from + SumBytes(laces) <= |piece|
    ensures CutSegments(data, offset + from, laces) == CutSegments(piece, from, laces)
  {
    if laces != [] {
      var front := laces[..|laces| - 1];
      CutIsLocal(data, offset, piece, from, front);
      SliceOfSlice(data, offset, piece, from + SumBytes(front), from + SumBytes(laces));
    }
  }

  lemma HeaderIsLocal(data: seq<byte>, offset: nat, piece: seq<byte>)
    requires offset + |piece| <= |data| && data[offset..offset + |piece|] == piece && |piece| >= 27
    requires 27 + piece[26] <= |piece|
    ensures HeaderFits(data, offset) <==> HeaderFits(piece, 0)
    ensures HeaderFits(piece, 0) ==> LacesAt(data, offset) == LacesAt(piece, 0) && PageEnd(data, offset) == offset + PageEnd(piece, 0)
  {
    var laces: nat := piece[26];
    SliceOfSlice(data, offset, piece, 0, 4);
    SliceOfSlice(data, offset, piece, 27, 27 + laces);
    assert data[offset + 4] == piece[4] && data[offset + 26] == piece[26];
  }

  lemma PageOfIsLocal(data: seq<byte>, offset: nat, piece: seq<byte>)
    requires offset + |piece| <= |data| && data[offset..offset + |piece|] == piece
    requires HeaderFits(piece, 0) && PageEnd(piece, 0) == |piece|
    ensures HeaderFits(data, offset) && PageEnd(data, offset) == offset + |piece|
    ensures PageOf(data, offset) == PageOf(piece, 0)
  {
    var laces: nat := piece[26];
    HeaderIsLocal(data, offset, piece);
    SliceOfSlice(data, offset, piece, 6, 14);
    SliceOfSlice(data, offset, piece, 14, 18);
    SliceOfSlice(data, offset, piece, 18, 22);
    CutIsLocal(data, offset, piece, 27 + laces, LacesAt(piece, 0));
    assert data[offset + 5] == piece[5] && data[offset + 26] == piece[26];
  }

  lemma SameWhole(data: seq<byte>, offset: nat, piece: seq<byte>)
    requires HeaderFits(data, offset) && PageEnd(data, offset) == offset + |piece| <= |data|
    requires HeaderFits(piece, 0) && PageEnd(piece, 0) == |piece|
    requires data[offset..offset + |piece|] == piece
    ensures HasPage(data, offset) <==> HasPage(piece, 0)
  {
    assert data[offset..PageEnd(data, offset)] == piece[0..PageEnd(piece, 0)];
  }

  /** A page may be read wherever its octets stand. */
  lemma PageIsLocal(data: seq<byte>, offset: nat, piece: seq<byte>)
    requires offset + |piece| <= |data| && data[offset..offset + |piece|] == piece
    requires HeaderFits(piece, 0) && PageEnd(piece, 0) == |piece|
    ensures HeaderFits(data, offset) && PageEnd(data, offset) == offset + |piece| && PageOf(data, offset) == PageOf(piece, 0)
    ensures HasPage(data, offset) <==> HasPage(piece, 0)
  {
    PageOfIsLocal(data, offset, piece);
    SameWhole(data, offset, piece);
  }

  lemma WholePieceIsValid(piece: seq<byte>)
    requires HasPage(piece, 0) && PageEnd(piece, 0) == |piece|
    ensures ValidPage(piece)
  {
    assert piece[0..|piece|] == piece;
  }

  lemma PieceIsStamped(piece: seq<byte>, head: seq<byte>, rest: seq<byte>)
    requires ValidPage(piece) && head == piece[..22] && rest == piece[26..]
    ensures piece == Stamped(head + [0, 0, 0, 0] + rest)
  {
    var unstamped := head + [0, 0, 0, 0] + rest;
    assert unstamped[..22] == head && unstamped[26..] == rest;
    ValidPageIsStamped(piece, unstamped);
  }

  lemma FieldsAreWritable(piece: seq<byte>)
    requires HeaderFits(piece, 0) && PageEnd(piece, 0) <= |piece|
    ensures Writable(PageOf(piece, 0))
  {
    LittleEndianBound(piece[6..14]);
    LittleEndianBound(piece[14..18]);
    LittleEndianBound(piece[18..22]);
  }

  lemma HeadIsRestored(piece: seq<byte>)
    requires HeaderFits(piece, 0) && PageEnd(piece, 0) <= |piece|
    ensures Head(PageOf(piece, 0)) == piece[..22]
  {
    LittleEndianRestores(piece[6..14]);
    LittleEndianRestores(piece[14..18]);
    LittleEndianRestores(piece[18..22]);
    assert piece[..22] == piece[0..4] + [piece[4], piece[5]] + piece[6..14] + piece[14..18] + piece[18..22];
  }

  lemma CountLacesRest(piece: seq<byte>, at: nat, n: nat)
    requires at + 1 + n <= |piece|
    ensures piece[at..] == [piece[at]] + piece[at + 1..at + 1 + n] + piece[at + 1 + n..]
  {
  }

  /** The segments cut hold all the octets, in order. */
  lemma {:induction false} CutIsWhole(data: seq<byte>, from: nat, laces: seq<byte>)
    requires from + SumBytes(laces) <= |data|
    ensures Concat(CutSegments(data, from, laces)) == data[from..from + SumBytes(laces)]
  {
    if laces != [] {
      var front, last := laces[..|laces| - 1], laces[|laces| - 1];
      CutIsWhole(data, from, front);
      var start := from + SumBytes(front);
      ConcatAppend(CutSegments(data, from, front), data[start..start + last]);
      assert data[from..start] + data[start..start + last] == data[from..start + last];
    }
  }

  lemma LacesAreThose(segments: seq<seq<byte>>, laces: seq<byte>)
    requires Segmented(segments) && |segments| == |laces| && forall k :: 0 <= k < |laces| ==> |segments[k]| == laces[k]
    ensures LacesOf(segments) == laces
  {
  }

  lemma LacesStand(piece: seq<byte>)
    requires HeaderFits(piece, 0) && PageEnd(piece, 0) == |piece|
    ensures LacesOf(PageOf(piece, 0).segments) == LacesAt(piece, 0) && |PageOf(piece, 0).segments| == piece[26]
  {
    LacesAreThose(PageOf(piece, 0).segments, LacesAt(piece, 0));
  }

  lemma BodyIsRestored(piece: seq<byte>)
    requires HeaderFits(piece, 0) && PageEnd(piece, 0) == |piece|
    ensures var segments := PageOf(piece, 0).segments;
            |segments| < 256 && piece[26..] == [|segments|] + LacesOf(segments) + Concat(segments)
  {
    var n := piece[26];
    LacesStand(piece);
    CutIsWhole(piece, 27 + n as nat, LacesAt(piece, 0));
    CountLacesRest(piece, 26, n);
  }

  /** Conversely a page that is read is the one that was written there. */
  lemma PageIsEncoded(piece: seq<byte>)
    requires HasPage(piece, 0) && PageEnd(piece, 0) == |piece|
    ensures Writable(PageOf(piece, 0)) && piece == EncodePage(PageOf(piece, 0))
  {
    FieldsAreWritable(piece);
    HeadIsRestored(piece);
    BodyIsRestored(piece);
    WholePieceIsValid(piece);
    PieceIsStamped(piece, piece[..22], piece[26..]);
  }

  // ---------- The whole stream ----------

  ghost predicate AllWritable(pages: seq<Page>) {
    forall k :: 0 <= k < |pages| ==> Writable(pages[k])
  }

  /** How pages are written. */
  type Writer = Page -> seq<byte>

  ghost function PageWriter(): Writer {
    page => if Writable(page) then EncodePage(page) else []
  }

  ghost function Written(write: Writer, pages: seq<Page>): seq<byte> {
    if pages == [] then [] else write(pages[0]) + Written(write, pages[1..])
  }

  /** The pages written out, one after the other. */
  ghost function EncodeStream(pages: seq<Page>): seq<byte> {
    Written(PageWriter(), pages)
  }

  /** Wherever the piece stands in the data the page is read. */
  ghost predicate ReadsPiece(next: Reader, data: seq<byte>, piece: seq<byte>, page: Page) {
    forall offset: nat :: offset <= |data| && piece <= data[offset..] ==>
      next(offset) == Some((page, offset + |piece|)) && offset + |piece| <= |data|
  }

  ghost predicate WritesRead(next: Reader, write: Writer, data: seq<byte>) {
    forall offset: nat :: next(offset).Some? ==>
      offset < next(offset).value.1 <= |data| && data[offset..] == write(next(offset).value.0) + data[next(offset).value.1..]
  }

  /** Pages written one after the other are read one after the other. */
  lemma {:induction false} WrittenPagesTile(next: Reader, write: Writer, data: seq<byte>, from: nat, pages: seq<Page>)
    requires forall page :: page in pages ==> ReadsPiece(next, data, write(page), page)
    requires from <= |data| && data[from..] == Written(write, pages)
    ensures PagesTile(next, from, pages, |data|)
    decreases |pages|
  {
    if pages != [] {
      var piece := write(pages[0]);
      assert ReadsPiece(next, data, piece, pages[0]) && piece <= data[from..];
      assert data[from + |piece|..] == data[from..][|piece|..];
      WrittenPagesTile(next, write, data, from + |piece|, pages[1..]);
    }
  }

  /** Data that pages tile holds those pages written one after the other. */
  lemma {:induction false} TiledPagesAreWritten(next: Reader, write: Writer, data: seq<byte>, from: nat, pages: seq<Page>)
    requires PagesTile(next, from, pages, |data|) && WritesRead(next, write, data)
    ensures from <= |data| && data[from..] == Written(write, pages)
    decreases |pages|
  {
    if pages != [] {
      TiledPagesAreWritten(next, write, data, next(from).value.1, pages[1..]);
    }
  }

  lemma {:induction false} TiledPagesAreWritable(next: Reader, from: nat, pages: seq<Page>, to: nat)
    requires PagesTile(next, from, pages, to)
    requires forall offset: nat :: next(offset).Some? ==> Writable(next(offset).value.0)
    ensures AllWritable(pages)
    decreases |pages|
  {
    if pages != [] {
      TiledPagesAreWritable(next, next(from).value.1, pages[1..], to);
      assert pages == [pages[0]] + pages[1..];
    }
  }

  lemma FoundPageIsRead(data: seq<byte>, offset: nat, page: Page, end: nat)
    requires HasPage(data, offset) && PageOf(data, offset) == page && PageEnd(data, offset) == end
    ensures PageReader(data)(offset) == Some((page, end))
  {
  }

  lemma PieceIsRead(data: seq<byte>, offset: nat, piece: seq<byte>, page: Page)
    requires offset + |piece| <= |data| && data[offset..offset + |piece|] == piece
    requires HasPage(piece, 0) && PageEnd(piece, 0) == |piece| && PageOf(piece, 0) == page
    ensures PageReader(data)(offset) == Some((page, offset + |piece|))
  {
    PageIsLocal(data, offset, piece);
    FoundPageIsRead(data, offset, page, offset + |piece|);
  }

  lemma PieceIsReadAnywhere(data: seq<byte>, piece: seq<byte>, page: Page)
    requires HasPage(piece, 0) && PageEnd(piece, 0) == |piece| && PageOf(piece, 0) == page
    ensures ReadsPiece(PageReader(data), data, piece, page)
  {
    forall offset: nat | offset <= |data| && piece <= data[offset..]
      ensures PageReader(data)(offset) == Some((page, offset + |piece|)) && offset + |piece| <= |data|
    {
      assert data[offset..][..|piece|] == data[offset..offset + |piece|];
      PieceIsRead(data, offset, piece, page);
    }
  }

  lemma ReaderReadsWritten(data: seq<byte>, page: Page)
    requires Writable(page)
    ensures ReadsPiece(PageReader(data), data, PageWriter()(page), page)
  {
    EncodedPageIsRead(page);
    PieceIsReadAnywhere(data, EncodePage(page), page);
  }

  lemma PrefixAndRest(data: seq<byte>, offset: nat, end: nat)
    requires offset <= end <= |data|
    ensures data[offset..] == data[offset..end] + data[end..]
  {
  }

  lemma PageStandsEncoded(data: seq<byte>, offset: nat)
    requires HasPage(data, offset)
    ensures var end := PageEnd(data, offset);
            Writable(PageOf(data, offset)) && data[offset..] == EncodePage(PageOf(data, offset)) + data[end..]
  {
    var end := PageEnd(data, offset);
    var piece := data[offset..end];
    assert piece[26] == data[offset + 26];
    HeaderIsLocal(data, offset, piece);
    PageIsLocal(data, offset, piece);
    PageIsEncoded(piece);
    PrefixAndRest(data, offset, end);
  }

  lemma WriterWritesRead(data: seq<byte>)
    ensures WritesRead(PageReader(data), PageWriter(), data)
    ensures forall offset: nat :: PageReader(data)(offset).Some? ==> Writable(PageReader(data)(offset).value.0)
  {
    forall offset: nat | PageReader(data)(offset).Some?
      ensures var read := PageReader(data)(offset).value;
              && offset < read.1 <= |data| && Writable(read.0) && data[offset..] == PageWriter()(read.0) + data[read.1..]
    {
      ReadsPage(data, offset);
      PageStandsEncoded(data, offset);
    }
  }

  lemma TiledIsEncoded(data: seq<byte>, pages: seq<Page>)
    requires PagesTile(PageReader(data), 0, pages, |data|)
    ensures AllWritable(pages) && data == EncodeStream(pages)
  {
    WriterWritesRead(data);
    TiledPagesAreWritten(PageReader(data), PageWriter(), data, 0, pages);
    TiledPagesAreWritable(PageReader(data), 0, pages, |data|);
  }

  lemma EncodedIsTiled(data: seq<byte>, pages: seq<Page>)
    requires AllWritable(pages) && data == EncodeStream(pages)
    ensures PagesTile(PageReader(data), 0, pages, |data|)
  {
    forall page | page in pages ensures ReadsPiece(PageReader(data), data, PageWriter()(page), page) {
      ReaderReadsWritten(data, page);
    }
    WrittenPagesTile(PageReader(data), PageWriter(), data, 0, pages);
  }

  /** One whole logical stream that leaves no packet open. */
  ghost predicate IsWhole(pages: seq<Page>) {
    pages != [] && AllWritable(pages) && Ordered(pages) && Ends(pages[|pages| - 1]) && Reassembled(pages).open == []
  }

  /** The files the reader accepts are exactly the whole streams, written out, that stay within the budget and whose
      packets the codec stage takes; and a file says in no second way which pages it holds. */
  lemma AcceptedFilesAreEncodings(data: seq<byte>, pages: seq<Page>, samples: nat)
    ensures Accepts(data, pages, samples) <==>
            && IsWhole(pages) && data == EncodeStream(pages) && Items(pages) <= MAXIMUM_ITEMS
            && CodecAfter(pages).Some? && Length(CodecAfter(pages).value, FinalGranule(pages)) == Some(samples)
  {
    if Accepts(data, pages, samples) { TiledIsEncoded(data, pages); }
    if IsWhole(pages) && data == EncodeStream(pages) { EncodedIsTiled(data, pages); }
  }

  // ---------- Page breaks ----------

  /** What the reader makes of a file: it is accepted with this many samples. */
  ghost predicate HasSamples(data: seq<byte>, samples: nat) {
    exists pages :: Accepts(data, pages, samples)
  }

  /** The packets of a stream laid out in pages: any pages that carry their segments, in one whole logical stream. */
  ghost predicate IsPaging(pages: seq<Page>, packets: seq<seq<byte>>) {
    && pages != [] && AllWritable(pages) && Ordered(pages) && Ends(pages[|pages| - 1])
    && AllSegments(pages) == AllSegmentsOf(packets)
  }

  lemma PagingIsWhole(packets: seq<seq<byte>>, pages: seq<Page>)
    requires IsPaging(pages, packets)
    ensures IsWhole(pages) && CodecAfter(pages) == HandleAll(Unknown, packets)
  {
    PacketsAreRecovered(packets);
  }

  /** A file holds one list of pages, so it has at most one number of samples. */
  lemma AcceptedOnce(data: seq<byte>, pages: seq<Page>, samples: nat, pages': seq<Page>, samples': nat)
    requires Accepts(data, pages, samples) && Accepts(data, pages', samples')
    ensures pages == pages' && samples == samples'
  {
    PageReaderMovesOn(data);
    WholeTiling(PageReader(data), pages, pages', |data|);
  }

  /** Packets written in pages are accepted exactly when the codec stage takes them and the pages stay within the
      budget, and with the number of samples these packets and the last granule position have. */
  lemma PagedPacketsAreAccepted(packets: seq<seq<byte>>, pages: seq<Page>, samples: nat)
    requires IsPaging(pages, packets)
    ensures HasSamples(EncodeStream(pages), samples) <==>
            && Items(pages) <= MAXIMUM_ITEMS && HandleAll(Unknown, packets).Some?
            && Length(HandleAll(Unknown, packets).value, FinalGranule(pages)) == Some(samples)
  {
    PagingIsWhole(packets, pages);
    var data := EncodeStream(pages);
    AcceptedFilesAreEncodings(data, pages, samples);
    if HasSamples(data, samples) {
      var read :| Accepts(data, read, samples);
      EncodedIsTiled(data, pages);
      PageReaderMovesOn(data);
      WholeTiling(PageReader(data), pages, read, |data|);
    }
  }

  /** Where the pages break does not matter: two layouts of the same packets with one final granule position are both
      accepted with the same number of samples, or both refused. */
  lemma PageBreaksDoNotMatter(packets: seq<seq<byte>>, pages: seq<Page>, pages': seq<Page>, samples: nat)
    requires IsPaging(pages, packets) && IsPaging(pages', packets) && FinalGranule(pages) == FinalGranule(pages')
    requires Items(pages) <= MAXIMUM_ITEMS && Items(pages') <= MAXIMUM_ITEMS
    ensures HasSamples(EncodeStream(pages), samples) <==> HasSamples(EncodeStream(pages'), samples)
  {
    PagedPacketsAreAccepted(packets, pages, samples);
    PagedPacketsAreAccepted(packets, pages', samples);
  }

  // ---------- Every cut is a layout ----------

  /** One page for each run of segments, the first marked as beginning and the last as ending the stream. */
  ghost function Paged(runs: seq<seq<seq<byte>>>, serial: nat, granule: nat): (pages: seq<Page>)
    ensures |pages| == |runs|
  {
    seq(|runs|, k requires 0 <= k < |runs| =>
      Page((if k == 0 then 2 else 0) + (if k == |runs| - 1 then 4 else 0), granule, serial, k, runs[k]))
  }

  lemma {:induction false} PagedCarriesRuns(pages: seq<Page>, runs: seq<seq<seq<byte>>>)
    requires |pages| == |runs| && forall k :: 0 <= k < |runs| ==> pages[k].segments == runs[k]
    ensures AllSegments(pages) == Concat(runs)
  {
    if runs != [] { PagedCarriesRuns(pages[..|runs| - 1], runs[..|runs| - 1]); }
  }

  lemma {:induction false} SegmentsOfAreSegmented(packet: seq<byte>)
    ensures Segmented(SegmentsOf(packet))
    decreases |packet|
  {
    if |packet| >= 255 {
      SegmentsOfAreSegmented(packet[255..]);
      assert forall k :: 0 < k < |SegmentsOf(packet)| ==> SegmentsOf(packet)[k] == SegmentsOf(packet[255..])[k - 1];
    }
  }

  lemma {:induction false} AllSegmentsOfAreSegmented(packets: seq<seq<byte>>)
    ensures Segmented(AllSegmentsOf(packets))
  {
    if packets != [] {
      AllSegmentsOfAreSegmented(packets[..|packets| - 1]);
      SegmentsOfAreSegmented(packets[|packets| - 1]);
    }
  }

  lemma {:induction false} RunsAreSegmented(runs: seq<seq<seq<byte>>>)
    requires Segmented(Concat(runs))
    ensures forall k :: 0 <= k < |runs| ==> Segmented(runs[k])
  {
    if runs != [] {
      var n := |runs| - 1;
      var front, last := Concat(runs[..n]), runs[n];
      assert Segmented(front) by { assert forall k :: 0 <= k < |front| ==> front[k] == Concat(runs)[k]; }
      assert Segmented(last) by { assert forall k :: 0 <= k < |last| ==> last[k] == Concat(runs)[|front| + k]; }
      RunsAreSegmented(runs[..n]);
      assert forall k :: 0 <= k < n ==> runs[..n][k] == runs[k];
    }
  }

  lemma PagedInPlace(runs: seq<seq<seq<byte>>>, serial: nat, granule: nat, k: nat)
    requires k < |runs|
    ensures InPlace(Paged(runs, serial, granule), k)
  {
  }

  lemma {:induction false} SameGranule(pages: seq<Page>, granule: nat)
    requires forall k :: 0 <= k < |pages| ==> pages[k].granule == granule
    ensures FinalGranule(pages) == if granule == NO_GRANULE || pages == [] then 0 else granule
  {
    if pages != [] { SameGranule(pages[..|pages| - 1], granule); }
  }

  /** However the segments of some packets are cut into runs of fewer than 256, the runs make pages of one stream. */
  lemma EveryCutIsPaging(packets: seq<seq<byte>>, runs: seq<seq<seq<byte>>>, serial: nat, granule: nat)
    requires Concat(runs) == AllSegmentsOf(packets) && 1 <= |runs| <= Pow256(4)
    requires forall k :: 0 <= k < |runs| ==> |runs[k]| < 256
    requires serial < Pow256(4) && granule < Pow256(8)
    ensures IsPaging(Paged(runs, serial, granule), packets)
    ensures FinalGranule(Paged(runs, serial, granule)) == if granule == NO_GRANULE then 0 else granule
    ensures Items(Paged(runs, serial, granule)) == |runs| + |AllSegmentsOf(packets)|
  {
    var pages := Paged(runs, serial, granule);
    PagedCarriesRuns(pages, runs);
    AllSegmentsOfAreSegmented(packets);
    RunsAreSegmented(runs);
    forall k: nat | k < |pages| ensures Writable(pages[k]) && InPlace(pages, k) {
      PagedInPlace(runs, serial, granule, k);
    }
    SameGranule(pages, granule);
  }
}
