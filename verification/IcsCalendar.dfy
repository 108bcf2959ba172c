/** A calendar feed: events printed as content lines, each escaped and folded, and read back by a subscriber. */
module IcsCalendar {
  import opened Options
  import opened Bytes
  import opened IcsText
  import opened IcsFolding
  import TokenMessage

  /** Instants are counted from the zero time. Summary, description and address are given as the texts they hold. */
  datatype Event = Event(id: seq<byte>, cancelled: bool, sequence: int, startsAt: int, endsAt: int, createdAt: int,
                         modified: int, summary: seq<byte>, description: seq<byte>, address: seq<byte>,
                         latitude: seq<byte>, longitude: seq<byte>)

  /** How the feed names itself, whether it shows internal detail, and how an instant is printed. */
  datatype Style = Style(name: seq<byte>, domain: seq<byte>, detailed: bool, stamp: int -> seq<byte>)

  datatype Calendar = Calendar(bytes: seq<byte>, lastModified: int)

  const ZERO_TIME := 0
  const AT: byte := 64

  ghost predicate ValidEvent(e: Event) {
    e.id != [] && e.startsAt != 0 && e.startsAt < e.endsAt && 1 <= e.sequence
  }

  // ---------- Octets of a line ----------

  /** Whole characters only, each of at most four octets. */
  ghost predicate Text(s: seq<byte>) {
    ShortRuns(s, 0) && (s != [] ==> RuneStart(s[0]))
  }

  lemma ValidUtf8IsText(s: seq<byte>)
    requires ValidUtf8(s)
    ensures Text(s)
  {
    ValidUtf8HasShortRuns(s);
  }

  lemma {:induction false} ShortRunsJoin(a: seq<byte>, b: seq<byte>, run: nat)
    requires ShortRuns(a, run) && Text(b)
    ensures ShortRuns(a + b, run)
    decreases |a|
  {
    if a == [] {
      assert a + b == b;
    } else {
      assert (a + b)[1..] == a[1..] + b;
      ShortRunsJoin(a[1..], b, if RuneStart(a[0]) then 0 else run + 1);
    }
  }

  lemma TextJoins(a: seq<byte>, b: seq<byte>)
    requires Text(a) && Text(b)
    ensures Text(a + b)
  {
    ShortRunsJoin(a, b, 0);
  }

  lemma {:induction false} AsciiIsText(s: seq<byte>)
    requires forall k :: 0 <= k < |s| ==> 32 <= s[k] < 127
    ensures Text(s) && NoBreaks(s)
  {
    if s != [] { AsciiIsText(s[1..]); }
  }

  lemma {:induction false} NormalisingKeepsRuns(s: seq<byte>, run: nat)
    requires ShortRuns(s, run)
    ensures ShortRuns(Normalise(s), run)
    ensures s != [] ==> Normalise(s) != [] && (RuneStart(s[0]) ==> RuneStart(Normalise(s)[0]))
    decreases |s|
  {
    if s != [] {
      if |s| >= 2 && s[0] == CR && s[1] == LF {
        assert ShortRuns(s[1..], 0) && s[1..][1..] == s[2..];
        NormalisingKeepsRuns(s[2..], 0);
      } else {
        NormalisingKeepsRuns(s[1..], if RuneStart(s[0]) then 0 else run + 1);
      }
    }
  }

  lemma EscapeOneRuns(b: byte, rest: seq<byte>, run: nat)
    requires if RuneStart(b) then ShortRuns(rest, 0) else run < 3 && ShortRuns(rest, run + 1)
    ensures ShortRuns(EscapeOne(b) + rest, run) && RuneStart(EscapeOne(b)[0]) == RuneStart(b)
  {
    var e := EscapeOne(b) + rest;
    assert |EscapeOne(b)| == 1 ==> e[1..] == rest;
    assert |EscapeOne(b)| == 2 ==> e[1..][1..] == rest;
  }

  lemma {:induction false} EscapingKeepsRuns(s: seq<byte>, run: nat)
    requires ShortRuns(s, run)
    ensures ShortRuns(FlatMap(s, EscapeOne), run)
    ensures s != [] ==> FlatMap(s, EscapeOne) != [] && RuneStart(FlatMap(s, EscapeOne)[0]) == RuneStart(s[0])
    decreases |s|
  {
    if s != [] {
      var next := if RuneStart(s[0]) then 0 else run + 1;
      EscapingKeepsRuns(s[1..], next);
      EscapeOneRuns(s[0], FlatMap(s[1..], EscapeOne), run);
    }
  }

  lemma EscapedIsText(text: seq<byte>)
    requires Text(text)
    ensures Text(EscapeText(text)) && NoBreaks(EscapeText(text))
  {
    EscapedTextRoundTrip(text);
    EscapeTextMeaning(text);
    NormalisingKeepsRuns(text, 0);
    EscapingKeepsRuns(Normalise(text), 0);
  }

  // ---------- The lines of a feed ----------

  /** The properties a feed uses (sections 3.7 and 3.8 of RFC 5545). */
  datatype Property = Begin | End | Version | ProductId | CalendarScale | Method | CalendarName | Uid | Stamp | Start | Finish
                    | Changed | Sequence | Status | Summary | Description | Location | Geo
  {
    function Name(): string {
      match this
      case Begin => "BEGIN" case End => "END" case Version => "VERSION" case ProductId => "PRODID"
      case CalendarScale => "CALSCALE" case Method => "METHOD" case CalendarName => "X-WR-CALNAME" case Uid => "UID"
      case Stamp => "DTSTAMP" case Start => "DTSTART" case Finish => "DTEND" case Changed => "LAST-MODIFIED"
      case Sequence => "SEQUENCE" case Status => "STATUS" case Summary => "SUMMARY" case Description => "DESCRIPTION"
      case Location => "LOCATION" case Geo => "GEO"
    }
  }

  /** A property and its value as it is printed. */
  datatype Line = Line(property: Property, value: seq<byte>) {
    function Octets(): seq<byte> {
      Ascii(property.Name()) + [TokenMessage.COLON] + value
    }
  }

  function OpeningLines(style: Style): seq<Line> {
    [Line(Begin, Ascii("VCALENDAR")), Line(Version, Ascii("2.0")), Line(ProductId, Ascii("-//HackWerk//Kalender 1.0//DE")),
     Line(CalendarScale, Ascii("GREGORIAN")), Line(Method, Ascii("PUBLISH")), Line(CalendarName, EscapeText(style.name))]
  }

  function ClosingLines(): seq<Line> {
    [Line(End, Ascii("VCALENDAR"))]
  }

  function IdentityLines(style: Style, e: Event): seq<Line> {
    [Line(Begin, Ascii("VEVENT")), Line(Uid, e.id + [AT] + style.domain), Line(Stamp, style.stamp(e.createdAt)),
     Line(Start, style.stamp(e.startsAt)), Line(Finish, style.stamp(e.endsAt)), Line(Changed, style.stamp(e.modified)),
     Line(Sequence, if e.sequence < 0 then [] else TokenMessage.Decimal(e.sequence)),
     Line(Status, Ascii(if e.cancelled then "CANCELLED" else "CONFIRMED"))]
  }

  function TextLines(e: Event): seq<Line> {
    [Line(Summary, EscapeText(e.summary)), Line(Description, EscapeText(e.description))]
  }

  /** Where the event takes place, told only in detailed feeds and only where it is known. */
  function AddressLines(style: Style, e: Event): seq<Line> {
    if style.detailed && e.address != [] then [Line(Location, EscapeText(e.address))] else []
  }

  function PointLines(style: Style, e: Event): seq<Line> {
    if style.detailed && e.latitude != [] && e.longitude != []
    then [Line(Geo, e.latitude + [SEMICOLON] + e.longitude)]
    else []
  }

  function EndLines(): seq<Line> {
    [Line(End, Ascii("VEVENT"))]
  }

  function EventLines(style: Style, e: Event): seq<Line> {
    IdentityLines(style, e) + TextLines(e) + AddressLines(style, e) + PointLines(style, e) + EndLines()
  }

  function Printer(style: Style): Event -> seq<Line> {
    (e: Event) => EventLines(style, e)
  }

  ghost function AllLines(events: seq<Event>, linesOf: Event -> seq<Line>): seq<Line> {
    if events == [] then []
    else AllLines(events[..|events| - 1], linesOf) + linesOf(events[|events| - 1])
  }

  ghost function FeedLines(style: Style, events: seq<Event>): seq<Line> {
    OpeningLines(style) + AllLines(events, Printer(style)) + ClosingLines()
  }

  // ---------- Which feeds can be printed ----------

  /** Every line can be folded. */
  ghost predicate CanPrint(lines: seq<Line>) {
    forall k :: 0 <= k < |lines| ==> Foldable(lines[k].Octets())
  }

  ghost predicate TextEvent(e: Event) {
    && Text(e.id) && Text(e.latitude) && Text(e.longitude)
    && Text(e.summary) && Text(e.description) && Text(e.address)
  }

  ghost predicate TextStyle(style: Style) {
    Text(style.name) && Text(style.domain) && forall t :: Text(style.stamp(t))
  }

  ghost predicate AllText(lines: seq<Line>) {
    forall k :: 0 <= k < |lines| ==> Text(lines[k].value)
  }

  lemma TextCanPrint(lines: seq<Line>)
    requires AllText(lines)
    ensures CanPrint(lines)
  {
    forall k | 0 <= k < |lines| ensures Foldable(lines[k].Octets()) {
      var name := Ascii(lines[k].property.Name()) + [TokenMessage.COLON];
      AsciiIsText(name);
      TextJoins(name, lines[k].value);
      ShortRunsAreFoldable(lines[k].Octets());
    }
  }

  lemma DigitsAreText(n: nat)
    ensures Text(TokenMessage.Decimal(n)) && NoBreaks(TokenMessage.Decimal(n))
  {
    var digits := TokenMessage.Decimal(n);
    forall k | 0 <= k < |digits| ensures 32 <= digits[k] < 127 {
      assert digits[k] in digits;
    }
    AsciiIsText(digits);
  }

  lemma TextParts(a: seq<Line>, b: seq<Line>)
    requires AllText(a) && AllText(b)
    ensures AllText(a + b)
  {
  }

  lemma PlaceIsText(style: Style, e: Event)
    requires TextEvent(e)
    ensures AllText(AddressLines(style, e)) && AllText(PointLines(style, e))
  {
    EscapedIsText(e.address);
    AsciiIsText([SEMICOLON]);
    TextJoins(e.latitude, [SEMICOLON]);
    TextJoins(e.latitude + [SEMICOLON], e.longitude);
  }

  lemma StringIsText(s: string)
    ensures Text(Ascii(s)) && NoBreaks(Ascii(s))
  {
    AsciiIsText(Ascii(s));
  }

  lemma IdentityIsText(style: Style, e: Event)
    requires TextStyle(style) && TextEvent(e)
    ensures AllText(IdentityLines(style, e))
  {
    StringIsText("VEVENT");
    StringIsText(if e.cancelled then "CANCELLED" else "CONFIRMED");
    AsciiIsText([]);
    AsciiIsText([AT]);
    TextJoins(e.id, [AT]);
    TextJoins(e.id + [AT], style.domain);
    if e.sequence >= 0 { DigitsAreText(e.sequence); }
  }

  lemma EventIsText(style: Style, e: Event)
    requires TextStyle(style) && TextEvent(e)
    ensures AllText(EventLines(style, e))
  {
    var identity, texts, address, point := IdentityLines(style, e), TextLines(e), AddressLines(style, e), PointLines(style, e);
    IdentityIsText(style, e);
    EscapedIsText(e.summary);
    EscapedIsText(e.description);
    PlaceIsText(style, e);
    StringIsText("VEVENT");
    TextParts(identity, texts);
    TextParts(identity + texts, address);
    TextParts(identity + texts + address, point);
    TextParts(identity + texts + address + point, EndLines());
  }

  lemma {:induction false} AllLinesAreText(events: seq<Event>, linesOf: Event -> seq<Line>)
    requires forall k :: 0 <= k < |events| ==> AllText(linesOf(events[k]))
    ensures AllText(AllLines(events, linesOf))
  {
    if events != [] {
      AllLinesAreText(events[..|events| - 1], linesOf);
      assert AllText(linesOf(events[|events| - 1]));
    }
  }

  lemma SixAreText(a: Line, b: Line, c: Line, d: Line, e: Line, f: Line)
    requires Text(a.value) && Text(b.value) && Text(c.value) && Text(d.value) && Text(e.value) && Text(f.value)
    ensures AllText([a, b, c, d, e, f])
  {
  }

  lemma OpeningIsText(style: Style)
    requires TextStyle(style)
    ensures AllText(OpeningLines(style)) && AllText(ClosingLines())
  {
    EscapedIsText(style.name);
    StringIsText("VCALENDAR");
    StringIsText("2.0");
    StringIsText("-//HackWerk//Kalender 1.0//DE");
    StringIsText("GREGORIAN");
    StringIsText("PUBLISH");
    SixAreText(Line(Begin, Ascii("VCALENDAR")), Line(Version, Ascii("2.0")), Line(ProductId, Ascii("-//HackWerk//Kalender 1.0//DE")),
               Line(CalendarScale, Ascii("GREGORIAN")), Line(Method, Ascii("PUBLISH")), Line(CalendarName, EscapeText(style.name)));
  }

  /** A feed of whole characters, as in valid UTF-8, can always be printed. */
  lemma TextFeedCanPrint(style: Style, events: seq<Event>)
    requires TextStyle(style) && forall k :: 0 <= k < |events| ==> TextEvent(events[k])
    ensures CanPrint(FeedLines(style, events))
  {
    OpeningIsText(style);
    forall k | 0 <= k < |events| ensures AllText(Printer(style)(events[k])) {
      EventIsText(style, events[k]);
    }
    AllLinesAreText(events, Printer(style));
    TextParts(OpeningLines(style), AllLines(events, Printer(style)));
    TextParts(OpeningLines(style) + AllLines(events, Printer(style)), ClosingLines());
    TextCanPrint(FeedLines(style, events));
  }

  lemma CanPrintParts(a: seq<Line>, b: seq<Line>)
    ensures CanPrint(a + b) <==> CanPrint(a) && CanPrint(b)
  {
    if CanPrint(a + b) {
      forall k | 0 <= k < |a| ensures Foldable(a[k].Octets()) { assert (a + b)[k] == a[k]; }
      forall k | 0 <= k < |b| ensures Foldable(b[k].Octets()) {
        var at := |a| + k;
        assert (a + b)[at] == b[k];
      }
    }
  }

  lemma {:induction false} EachCanPrint(events: seq<Event>, linesOf: Event -> seq<Line>)
    requires CanPrint(AllLines(events, linesOf))
    ensures forall k {:trigger linesOf(events[k])} :: 0 <= k < |events| ==> CanPrint(linesOf(events[k]))
  {
    if events != [] {
      var n := |events| - 1;
      CanPrintParts(AllLines(events[..n], linesOf), linesOf(events[n]));
      EachCanPrint(events[..n], linesOf);
      assert forall k :: 0 <= k < n ==> events[..n][k] == events[k];
    }
  }

  // ---------- Writing ----------

  ghost function OctetsOf(lines: seq<Line>): (r: seq<seq<byte>>)
    ensures |r| == |lines| && forall k :: 0 <= k < |lines| ==> r[k] == lines[k].Octets()
  {
    seq(|lines|, k requires 0 <= k < |lines| => lines[k].Octets())
  }

  ghost predicate Prints(document: seq<byte>, lines: seq<Line>) {
    IsDocument(OctetsOf(lines), document)
  }

  lemma LinePrints(document: seq<byte>, lines: seq<Line>, line: Line, folding: seq<seq<byte>>)
    requires Prints(document, lines) && IsFolding(line.Octets(), folding)
    ensures Prints(document + Render(folding), lines + [line])
  {
    DocumentAppend(OctetsOf(lines), document, line.Octets(), folding);
    assert OctetsOf(lines + [line]) == OctetsOf(lines) + [line.Octets()];
  }

  method Emit(output: Buffer, ghost before: seq<Line>, line: Line)
    requires Foldable(line.Octets()) && Prints(output.bytes, before)
    modifies output
    ensures Prints(output.bytes, before + [line])
  {
    ghost var document := output.bytes;
    WriteLine(output, line.Octets());
    ghost var folding :| IsFolding(line.Octets(), folding) && output.bytes == document + Render(folding);
    LinePrints(document, before, line, folding);
  }

  lemma OneMoreLine<T>(before: seq<T>, block: seq<T>, k: nat)
    requires k < |block|
    ensures (before + block[..k]) + [block[k]] == before + block[..k + 1]
  {
  }

  /** Writes the lines of a block in turn. */
  method EmitAll(output: Buffer, ghost before: seq<Line>, block: seq<Line>)
    requires CanPrint(block) && Prints(output.bytes, before)
    modifies output
    ensures Prints(output.bytes, before + block)
  {
    assert before + block[..0] == before;
    for k := 0 to |block|
      invariant Prints(output.bytes, before + block[..k])
    {
      Emit(output, before + block[..k], block[k]);
      OneMoreLine(before, block, k);
    }
    assert block[..|block|] == block;
  }

  ghost predicate IsLatest(time: int, fallback: int, events: seq<Event>) {
    && fallback <= time && (forall k :: 0 <= k < |events| ==> events[k].modified <= time)
    && (time == fallback || exists k :: 0 <= k < |events| && events[k].modified == time)
  }

  ghost predicate AllValidEvents(events: seq<Event>) {
    forall k :: 0 <= k < |events| ==> ValidEvent(events[k])
  }

  lemma OneMoreValid(events: seq<Event>, k: nat)
    requires k < |events| && AllValidEvents(events[..k]) && ValidEvent(events[k])
    ensures AllValidEvents(events[..k + 1])
  {
  }

  lemma LaterOf(latest: int, fallback: int, events: seq<Event>, k: nat)
    requires k < |events| && IsLatest(latest, fallback, events[..k])
    ensures IsLatest(if events[k].modified > latest then events[k].modified else latest, fallback, events[..k + 1])
  {
    var time := if events[k].modified > latest then events[k].modified else latest;
    assert events[..k + 1] == events[..k] + [events[k]];
    if time == latest && latest != fallback {
      var i :| 0 <= i < k && events[..k][i].modified == latest;
      assert events[..k + 1][i].modified == time;
    } else if time != latest {
      assert events[..k + 1][k].modified == time;
    }
  }

  lemma OneMoreEvent(opening: seq<Line>, events: seq<Event>, linesOf: Event -> seq<Line>, k: nat)
    requires k < |events|
    ensures opening + AllLines(events[..k + 1], linesOf) == (opening + AllLines(events[..k], linesOf)) + linesOf(events[k])
  {
    assert events[..k + 1][..k] == events[..k];
  }

  /** Writes the events one after the other and tells when the latest of them changed; stops at an invalid one. */
  method EmitEvents(output: Buffer, ghost opening: seq<Line>, events: seq<Event>, linesOf: Event -> seq<Line>, fallback: int)
    returns (r: Option<int>)
    requires Prints(output.bytes, opening)
    requires forall k {:trigger linesOf(events[k])} :: 0 <= k < |events| ==> CanPrint(linesOf(events[k]))
    modifies output
    ensures r.Some? <==> AllValidEvents(events)
    ensures r.Some? ==> Prints(output.bytes, opening + AllLines(events, linesOf)) && IsLatest(r.value, fallback, events)
  {
    var latest := fallback;
    ghost var lines := opening;
    for k := 0 to |events|
      invariant Prints(output.bytes, lines) && lines == opening + AllLines(events[..k], linesOf)
      invariant AllValidEvents(events[..k])
      invariant IsLatest(latest, fallback, events[..k])
    {
      if events[k].id == [] || events[k].startsAt == ZERO_TIME || events[k].endsAt <= events[k].startsAt || events[k].sequence < 1 {
        return None;
      }
      OneMoreValid(events, k);
      LaterOf(latest, fallback, events, k);
      if events[k].modified > latest {
        latest := events[k].modified;
      }
      EmitAll(output, lines, linesOf(events[k]));
      OneMoreEvent(opening, events, linesOf, k);
      lines := lines + linesOf(events[k]);
    }
    assert events[..|events|] == events;
    r := Some(latest);
  }

  lemma NothingPrints()
    ensures Prints([], [])
  {
    var none: seq<seq<seq<byte>>> := [];
    assert AreFoldings(OctetsOf([]), none) && Rendered(none) == [];
  }

  method Generate(style: Style, events: seq<Event>, fallback: int) returns (r: Option<Calendar>)
    requires CanPrint(FeedLines(style, events))
    ensures r.Some? <==> AllValidEvents(events)
    ensures r.Some? ==> Prints(r.value.bytes, FeedLines(style, events))
    ensures r.Some? ==> IsLatest(r.value.lastModified, fallback, events)
  {
    var closing := ClosingLines();
    CanPrintParts(OpeningLines(style) + AllLines(events, Printer(style)), closing);
    CanPrintParts(OpeningLines(style), AllLines(events, Printer(style)));
    EachCanPrint(events, Printer(style));
    var output := new Buffer();
    NothingPrints();
    EmitAll(output, [], OpeningLines(style));
    assert [] + OpeningLines(style) == OpeningLines(style);
    var latest := EmitEvents(output, OpeningLines(style), events, Printer(style), fallback);
    if latest.None? {
      return None;
    }
    EmitAll(output, OpeningLines(style) + AllLines(events, Printer(style)), closing);
    r := Some(Calendar(output.bytes, latest.value));
  }
}
