/** A calendar feed as a subscriber reads it: unfolded, split into lines, each line split at its first colon. */
module IcsReading {
  import opened Options
  import opened Bytes
  import opened IcsText
  import opened IcsFolding
  import opened IcsCalendar
  import TokenMessage

  // ---------- One line ----------

  /** The name in front of the first colon, and the value behind it. */
  ghost function SplitName(line: seq<byte>): (r: (seq<byte>, seq<byte>)) {
    if line == [] then ([], [])
    else if line[0] == ':' as int then ([], line[1..])
    else ([line[0]] + SplitName(line[1..]).0, SplitName(line[1..]).1)
  }

  lemma {:induction false} NameIsSplitOff(name: seq<byte>, value: seq<byte>)
    requires TokenMessage.COLON !in name
    ensures SplitName(name + [TokenMessage.COLON] + value) == (name, value)
  {
    var line := name + [TokenMessage.COLON] + value;
    if name == [] {
      assert line == [TokenMessage.COLON] + value;
    } else {
      assert line[1..] == name[1..] + [TokenMessage.COLON] + value;
      NameIsSplitOff(name[1..], value);
      assert name == [name[0]] + name[1..];
    }
  }

  lemma NamesAreCharacters(p: Property)
    ensures p.Name() != "" && p.Name()[0] != ' '
    ensures forall k :: 0 <= k < |p.Name()| ==> 32 <= p.Name()[k] as int < 127 && p.Name()[k] != ':'
  {
  }

  lemma NamesDiffer(p: Property, q: Property)
    requires p.Name() == q.Name()
    ensures p == q
  {
  }

  /** The name under which a subscriber looks for a property. */
  ghost function KnownAs(p: Property): string {
    match p
    case Begin => "BEGIN" case Uid => "UID" case Stamp => "DTSTAMP" case Start => "DTSTART" case Finish => "DTEND"
    case Changed => "LAST-MODIFIED" case Sequence => "SEQUENCE" case Status => "STATUS" case Summary => "SUMMARY"
    case Description => "DESCRIPTION" case Location => "LOCATION" case Geo => "GEO" case End => "END"
    case Version => "VERSION" case ProductId => "PRODID" case CalendarScale => "CALSCALE" case Method => "METHOD"
    case CalendarName => "X-WR-CALNAME"
  }

  lemma NamesAreKnown(p: Property)
    ensures p.Name() == KnownAs(p)
  {
  }

  /** A printed name stands for one property and holds no colon. */
  lemma PrintedNamesDiffer(p: Property, q: Property)
    ensures Ascii(p.Name()) == Ascii(q.Name()) <==> p == q
    ensures TokenMessage.COLON !in Ascii(p.Name())
  {
    var a, b := Ascii(p.Name()), Ascii(q.Name());
    NamesAreCharacters(p);
    NamesAreCharacters(q);
    if a == b {
      forall k | 0 <= k < |p.Name()| ensures p.Name()[k] == q.Name()[k] {
        assert a[k] == b[k] && a[k] == p.Name()[k] as int && b[k] == q.Name()[k] as int;
      }
      assert p.Name() == q.Name();
      NamesDiffer(p, q);
    }
  }

  // ---------- What stands under a name ----------

  /** The values a reader finds under a property's name, in order. */
  ghost function Values(lines: seq<seq<byte>>, property: Property): seq<seq<byte>> {
    if lines == [] then []
    else
      var (name, value) := SplitName(lines[|lines| - 1]);
      Values(lines[..|lines| - 1], property) + (if name == Ascii(KnownAs(property)) then [value] else [])
  }

  ghost function ValuesAmong(lines: seq<Line>, property: Property): seq<seq<byte>> {
    if lines == [] then []
    else
      var last := lines[|lines| - 1];
      ValuesAmong(lines[..|lines| - 1], property) + (if last.property == property then [last.value] else [])
  }

  lemma {:induction false} ValuesAreRead(lines: seq<Line>, property: Property)
    ensures Values(OctetsOf(lines), property) == ValuesAmong(lines, property)
  {
    if lines != [] {
      var front, last := lines[..|lines| - 1], lines[|lines| - 1];
      ValuesAreRead(front, property);
      assert OctetsOf(lines)[..|lines| - 1] == OctetsOf(front);
      PrintedNamesDiffer(last.property, property);
      NamesAreKnown(property);
      NameIsSplitOff(Ascii(last.property.Name()), last.value);
    }
  }

  lemma {:induction false} ValuesJoin(a: seq<Line>, b: seq<Line>, property: Property)
    ensures ValuesAmong(a + b, property) == ValuesAmong(a, property) + ValuesAmong(b, property)
  {
    if b == [] {
      assert a + b == a;
    } else {
      var front, last := b[..|b| - 1], b[|b| - 1];
      assert (a + b)[..|a + b| - 1] == a + front && (a + b)[|a + b| - 1] == last;
      ValuesJoin(a, front, property);
    }
  }

  lemma {:induction false} NoValue(lines: seq<Line>, property: Property)
    requires forall i :: 0 <= i < |lines| ==> lines[i].property != property
    ensures ValuesAmong(lines, property) == []
  {
    if lines != [] { NoValue(lines[..|lines| - 1], property); }
  }

  lemma {:induction false} OneValue(lines: seq<Line>, property: Property, at: nat)
    requires at < |lines| && forall i :: 0 <= i < |lines| ==> (lines[i].property == property <==> i == at)
    ensures ValuesAmong(lines, property) == [lines[at].value]
    decreases |lines|
  {
    if at == |lines| - 1 {
      NoValue(lines[..at], property);
    } else {
      OneValue(lines[..|lines| - 1], property, at);
    }
  }

  // ---------- What should stand there ----------

  /** What a subscriber should find of one event under a name. */
  ghost function ValueOf(style: Style, e: Event, property: Property): seq<seq<byte>> {
    match property
    case Begin => [Ascii("VEVENT")]
    case End => [Ascii("VEVENT")]
    case Uid => [e.id + Ascii("@") + style.domain]
    case Stamp => [style.stamp(e.createdAt)]
    case Start => [style.stamp(e.startsAt)]
    case Finish => [style.stamp(e.endsAt)]
    case Changed => [style.stamp(e.modified)]
    case Sequence => [if e.sequence < 0 then [] else TokenMessage.Decimal(e.sequence)]
    case Status => [if e.cancelled then Ascii("CANCELLED") else Ascii("CONFIRMED")]
    case Summary => [EscapeText(e.summary)]
    case Description => [EscapeText(e.description)]
    case Location => if style.detailed && e.address != [] then [EscapeText(e.address)] else []
    case Geo => if style.detailed && e.latitude != [] && e.longitude != [] then [e.latitude + Ascii(";") + e.longitude] else []
    case _ => []
  }

  ghost function HeaderValue(style: Style, property: Property): seq<seq<byte>> {
    match property
    case Begin => [Ascii("VCALENDAR")]
    case Version => [Ascii("2.0")]
    case ProductId => [Ascii("-//HackWerk//Kalender 1.0//DE")]
    case CalendarScale => [Ascii("GREGORIAN")]
    case Method => [Ascii("PUBLISH")]
    case CalendarName => [EscapeText(style.name)]
    case _ => []
  }

  ghost function EventValues(style: Style, events: seq<Event>, property: Property): seq<seq<byte>> {
    if events == [] then []
    else EventValues(style, events[..|events| - 1], property) + ValueOf(style, events[|events| - 1], property)
  }

  /** The header's value first, then those of the events in order; the calendar ends last. */
  ghost function FeedValues(style: Style, events: seq<Event>, property: Property): seq<seq<byte>> {
    HeaderValue(style, property) + EventValues(style, events, property)
    + if property.End? then [Ascii("VCALENDAR")] else []
  }

  /** Which part of an event's lines a property is found in, if any. */
  ghost function PartOf(property: Property): nat {
    match property
    case Begin => 0 case Uid => 0 case Stamp => 0 case Start => 0 case Finish => 0 case Changed => 0
    case Sequence => 0 case Status => 0
    case Summary => 1 case Description => 1
    case Location => 2
    case Geo => 3
    case End => 4
    case _ => 5
  }

  lemma EightValues(a: seq<byte>, b: seq<byte>, c: seq<byte>, d: seq<byte>, e: seq<byte>, f: seq<byte>, g: seq<byte>, h: seq<byte>,
                    property: Property)
    ensures ValuesAmong([Line(Begin, a), Line(Uid, b), Line(Stamp, c), Line(Start, d), Line(Finish, e), Line(Changed, f),
                         Line(Sequence, g), Line(Status, h)], property)
            == match property
               case Begin => [a] case Uid => [b] case Stamp => [c] case Start => [d] case Finish => [e] case Changed => [f]
               case Sequence => [g] case Status => [h] case _ => []
  {
    var lines := [Line(Begin, a), Line(Uid, b), Line(Stamp, c), Line(Start, d), Line(Finish, e), Line(Changed, f),
                  Line(Sequence, g), Line(Status, h)];
    match property
    case Begin => OneValue(lines, property, 0);
    case Uid => OneValue(lines, property, 1);
    case Stamp => OneValue(lines, property, 2);
    case Start => OneValue(lines, property, 3);
    case Finish => OneValue(lines, property, 4);
    case Changed => OneValue(lines, property, 5);
    case Sequence => OneValue(lines, property, 6);
    case Status => OneValue(lines, property, 7);
    case _ => NoValue(lines, property);
  }

  lemma IdentityHolds(style: Style, e: Event, property: Property)
    ensures ValuesAmong(IdentityLines(style, e), property) == if PartOf(property) == 0 then ValueOf(style, e, property) else []
  {
    assert Ascii("@") == [AT];
    EightValues(Ascii("VEVENT"), e.id + [AT] + style.domain, style.stamp(e.createdAt), style.stamp(e.startsAt),
                style.stamp(e.endsAt), style.stamp(e.modified),
                if e.sequence < 0 then [] else TokenMessage.Decimal(e.sequence),
                Ascii(if e.cancelled then "CANCELLED" else "CONFIRMED"), property);
  }

  lemma TextsHold(style: Style, e: Event, property: Property)
    ensures ValuesAmong(TextLines(e), property) ==
            if PartOf(property) == 1 then ValueOf(style, e, property) else []
  {
    var lines := TextLines(e);
    match property
    case Summary => OneValue(lines, property, 0);
    case Description => OneValue(lines, property, 1);
    case _ => NoValue(lines, property);
  }

  lemma SingleHolds(lines: seq<Line>, property: Property)
    requires |lines| <= 1
    ensures ValuesAmong(lines, property) == if lines != [] && lines[0].property == property then [lines[0].value] else []
  {
    if lines != [] && lines[0].property == property { OneValue(lines, property, 0); } else { NoValue(lines, property); }
  }

  lemma AddressHolds(style: Style, e: Event, property: Property)
    ensures ValuesAmong(AddressLines(style, e), property) == if PartOf(property) == 2 then ValueOf(style, e, property) else []
  {
    SingleHolds(AddressLines(style, e), property);
  }

  lemma PointHolds(style: Style, e: Event, property: Property)
    ensures ValuesAmong(PointLines(style, e), property) == if PartOf(property) == 3 then ValueOf(style, e, property) else []
  {
    assert Ascii(";") == [SEMICOLON];
    SingleHolds(PointLines(style, e), property);
  }

  lemma EndHolds(style: Style, e: Event, property: Property)
    ensures ValuesAmong(EndLines(), property) == if PartOf(property) == 4 then ValueOf(style, e, property) else []
  {
    SingleHolds(EndLines(), property);
  }

  lemma OneOfFive<T>(a: seq<T>, b: seq<T>, c: seq<T>, d: seq<T>, e: seq<T>, whole: seq<T>, part: nat)
    requires a == (if part == 0 then whole else []) && b == (if part == 1 then whole else [])
    requires c == (if part == 2 then whole else []) && d == (if part == 3 then whole else [])
    requires e == (if part == 4 then whole else []) && (part > 4 ==> whole == [])
    ensures a + b + c + d + e == whole
  {
  }

  lemma FivePartsJoin(a: seq<Line>, b: seq<Line>, c: seq<Line>, d: seq<Line>, e: seq<Line>, property: Property)
    ensures ValuesAmong(a + b + c + d + e, property) ==
            ValuesAmong(a, property) + ValuesAmong(b, property) + ValuesAmong(c, property) + ValuesAmong(d, property)
            + ValuesAmong(e, property)
  {
    ValuesJoin(a, b, property);
    ValuesJoin(a + b, c, property);
    ValuesJoin(a + b + c, d, property);
    ValuesJoin(a + b + c + d, e, property);
  }

  lemma NoPartNoValue(style: Style, e: Event, property: Property)
    ensures PartOf(property) > 4 ==> ValueOf(style, e, property) == []
  {
  }

  lemma EventHolds(style: Style, e: Event, property: Property)
    ensures ValuesAmong(EventLines(style, e), property) == ValueOf(style, e, property)
  {
    FivePartsJoin(IdentityLines(style, e), TextLines(e), AddressLines(style, e), PointLines(style, e), EndLines(), property);
    IdentityHolds(style, e, property);
    TextsHold(style, e, property);
    AddressHolds(style, e, property);
    PointHolds(style, e, property);
    EndHolds(style, e, property);
    NoPartNoValue(style, e, property);
    OneOfFive(ValuesAmong(IdentityLines(style, e), property), ValuesAmong(TextLines(e), property),
              ValuesAmong(AddressLines(style, e), property), ValuesAmong(PointLines(style, e), property),
              ValuesAmong(EndLines(), property), ValueOf(style, e, property), PartOf(property));
  }

  ghost predicate HoldsItsValues(style: Style, e: Event, lines: seq<Line>, property: Property) {
    ValuesAmong(lines, property) == ValueOf(style, e, property)
  }

  lemma {:induction false} EventsHold(style: Style, events: seq<Event>, linesOf: Event -> seq<Line>, property: Property)
    requires forall k :: 0 <= k < |events| ==> HoldsItsValues(style, events[k], linesOf(events[k]), property)
    ensures ValuesAmong(AllLines(events, linesOf), property) == EventValues(style, events, property)
  {
    if events != [] {
      var front, last := events[..|events| - 1], events[|events| - 1];
      EventsHold(style, front, linesOf, property);
      ValuesJoin(AllLines(front, linesOf), linesOf(last), property);
      assert HoldsItsValues(style, last, linesOf(last), property);
    }
  }

  lemma SixValues(a: seq<byte>, b: seq<byte>, c: seq<byte>, d: seq<byte>, e: seq<byte>, f: seq<byte>, property: Property)
    ensures ValuesAmong([Line(Begin, a), Line(Version, b), Line(ProductId, c), Line(CalendarScale, d), Line(Method, e),
                         Line(CalendarName, f)], property)
            == match property
               case Begin => [a] case Version => [b] case ProductId => [c] case CalendarScale => [d] case Method => [e]
               case CalendarName => [f] case _ => []
  {
    var lines := [Line(Begin, a), Line(Version, b), Line(ProductId, c), Line(CalendarScale, d), Line(Method, e), Line(CalendarName, f)];
    match property
    case Begin => OneValue(lines, property, 0);
    case Version => OneValue(lines, property, 1);
    case ProductId => OneValue(lines, property, 2);
    case CalendarScale => OneValue(lines, property, 3);
    case Method => OneValue(lines, property, 4);
    case CalendarName => OneValue(lines, property, 5);
    case _ => NoValue(lines, property);
  }

  lemma OpeningHolds(style: Style, property: Property)
    ensures ValuesAmong(OpeningLines(style), property) == HeaderValue(style, property)
  {
    SixValues(Ascii("VCALENDAR"), Ascii("2.0"), Ascii("-//HackWerk//Kalender 1.0//DE"), Ascii("GREGORIAN"), Ascii("PUBLISH"),
              EscapeText(style.name), property);
  }

  lemma ClosingHolds(property: Property)
    ensures ValuesAmong(ClosingLines(), property) == if property.End? then [Ascii("VCALENDAR")] else []
  {
    SingleHolds(ClosingLines(), property);
  }

  lemma FeedHolds(style: Style, events: seq<Event>, property: Property)
    ensures Values(OctetsOf(FeedLines(style, events)), property) == FeedValues(style, events, property)
  {
    ValuesAreRead(FeedLines(style, events), property);
    var opening, middle := OpeningLines(style), AllLines(events, Printer(style));
    ValuesJoin(opening, middle, property);
    ValuesJoin(opening + middle, ClosingLines(), property);
    OpeningHolds(style, property);
    ClosingHolds(property);
    forall k | 0 <= k < |events| ensures HoldsItsValues(style, events[k], Printer(style)(events[k]), property) {
      EventHolds(style, events[k], property);
    }
    EventsHold(style, events, Printer(style), property);
  }

  // ---------- Components ----------

  ghost predicate Bounds(line: Line) {
    line.property.Begin? || line.property.End?
  }

  /** The lines begin and end as a component of this name, and no other begins or ends in between. */
  ghost predicate Framed(lines: seq<Line>, name: string) {
    && |lines| >= 2 && lines[0] == Line(Begin, Ascii(name)) && lines[|lines| - 1] == Line(End, Ascii(name))
    && forall k :: 0 < k < |lines| - 1 ==> !Bounds(lines[k])
  }

  lemma IdentityIsOpen(style: Style, e: Event)
    ensures var lines := IdentityLines(style, e);
            |lines| == 8 && lines[0] == Line(Begin, Ascii("VEVENT")) && forall k :: 0 < k < 8 ==> !Bounds(lines[k])
  {
  }

  ghost predicate Inside(lines: seq<Line>) {
    forall k :: 0 <= k < |lines| ==> !Bounds(lines[k])
  }

  lemma InsideJoins(a: seq<Line>, b: seq<Line>)
    requires Inside(a) && Inside(b)
    ensures Inside(a + b)
  {
  }

  lemma PartsRegroup<T>(a: seq<T>, b: seq<T>, c: seq<T>, d: seq<T>, e: seq<T>)
    requires |e| == 1
    ensures a + b + c + d + e == a + (b + c + d) + [e[0]]
  {
  }

  lemma FrameCloses(opening: seq<Line>, inside: seq<Line>, last: Line, name: string)
    requires opening != [] && opening[0] == Line(Begin, Ascii(name)) && last == Line(End, Ascii(name)) && Inside(inside)
    requires forall k :: 0 < k < |opening| ==> !Bounds(opening[k])
    ensures Framed(opening + inside + [last], name)
  {
  }

  lemma EventIsFramed(style: Style, e: Event)
    ensures Framed(EventLines(style, e), "VEVENT")
  {
    var identity, rest := IdentityLines(style, e), TextLines(e) + AddressLines(style, e) + PointLines(style, e);
    IdentityIsOpen(style, e);
    InsideJoins(TextLines(e), AddressLines(style, e));
    InsideJoins(TextLines(e) + AddressLines(style, e), PointLines(style, e));
    FrameCloses(identity, rest, EndLines()[0], "VEVENT");
    PartsRegroup(identity, TextLines(e), AddressLines(style, e), PointLines(style, e), EndLines());
  }

  /** The calendar opens with its own line, closes with its own line, and holds the events in order, each one framed. */
  lemma FeedIsFramed(style: Style, events: seq<Event>)
    ensures FeedLines(style, events) == OpeningLines(style) + AllLines(events, Printer(style)) + [Line(End, Ascii("VCALENDAR"))]
    ensures OpeningLines(style) != [] && OpeningLines(style)[0] == Line(Begin, Ascii("VCALENDAR"))
    ensures forall k :: 0 < k < |OpeningLines(style)| ==> !Bounds(OpeningLines(style)[k])
    ensures forall e :: e in events ==> Framed(Printer(style)(e), "VEVENT")
  {
    forall e | e in events ensures Framed(Printer(style)(e), "VEVENT") {
      EventIsFramed(style, e);
    }
  }

  // ---------- Texts ----------

  /** What a reader makes of printed texts. */
  ghost function Unescaped(values: seq<seq<byte>>): (texts: seq<Option<seq<byte>>>)
    ensures |texts| == |values|
  {
    seq(|values|, k requires 0 <= k < |values| => Unescape(values[k]))
  }

  ghost predicate IsTextProperty(property: Property) {
    property.Summary? || property.Description? || property.Location?
  }

  /** A text of the event with its line breaks normalised; the address only where it is shown. */
  ghost function TextOf(style: Style, e: Event, property: Property): seq<Option<seq<byte>>> {
    match property
    case Summary => [Some(Normalise(e.summary))]
    case Description => [Some(Normalise(e.description))]
    case Location => if style.detailed && e.address != [] then [Some(Normalise(e.address))] else []
    case _ => []
  }

  ghost function TextsOf(style: Style, events: seq<Event>, property: Property): seq<Option<seq<byte>>> {
    if events == [] then []
    else TextsOf(style, events[..|events| - 1], property) + TextOf(style, events[|events| - 1], property)
  }

  lemma UnescapedJoins(a: seq<seq<byte>>, b: seq<seq<byte>>)
    ensures Unescaped(a + b) == Unescaped(a) + Unescaped(b)
  {
  }

  lemma TextIsRestored(style: Style, e: Event, property: Property)
    requires IsTextProperty(property)
    ensures Unescaped(ValueOf(style, e, property)) == TextOf(style, e, property)
  {
    EscapedTextRoundTrip(e.summary);
    EscapedTextRoundTrip(e.description);
    EscapedTextRoundTrip(e.address);
  }

  lemma {:induction false} TextsAreRestored(style: Style, events: seq<Event>, property: Property)
    requires IsTextProperty(property)
    ensures Unescaped(EventValues(style, events, property)) == TextsOf(style, events, property)
  {
    if events != [] {
      var front, last := events[..|events| - 1], events[|events| - 1];
      TextsAreRestored(style, front, property);
      TextIsRestored(style, last, property);
      UnescapedJoins(EventValues(style, front, property), ValueOf(style, last, property));
    }
  }

  lemma FeedTextsAreRestored(style: Style, events: seq<Event>, property: Property)
    requires IsTextProperty(property)
    ensures Unescaped(FeedValues(style, events, property)) == TextsOf(style, events, property)
  {
    TextsAreRestored(style, events, property);
    assert FeedValues(style, events, property) == EventValues(style, events, property);
  }

  // ---------- Line breaks in what is printed as it stands ----------

  /** Printed times hold digits and letters only. */
  ghost predicate PlainStamps(style: Style) {
    forall t :: NoBreaks(style.stamp(t))
  }

  ghost predicate UnbrokenEvent(style: Style, e: Event) {
    && Unbroken(e.id) && Unbroken(style.domain)
    && (style.detailed && e.latitude != [] && e.longitude != [] ==> Unbroken(e.latitude) && Unbroken(e.longitude))
  }

  ghost predicate AllUnbrokenEvents(style: Style, events: seq<Event>) {
    forall k :: 0 <= k < |events| ==> UnbrokenEvent(style, events[k])
  }

  ghost predicate UnbrokenValues(lines: seq<Line>) {
    forall k :: 0 <= k < |lines| ==> Unbroken(lines[k].value)
  }

  /** Something without any half of a break between two parts keeps them apart. */
  lemma ApartUnbroken(a: seq<byte>, between: byte, b: seq<byte>)
    requires between != CR && between != LF
    ensures Unbroken(a + [between] + b) <==> Unbroken(a) && Unbroken(b)
  {
    var s := a + [between] + b;
    if Unbroken(s) {
      SidesAreUnbroken(a + [between], b);
      SidesAreUnbroken(a, [between]);
    }
    if Unbroken(a) && Unbroken(b) {
      forall k | 0 <= k < |s| - 1 ensures !(s[k] == CR && s[k + 1] == LF) {
        if k + 1 < |a| { assert s[k] == a[k] && s[k + 1] == a[k + 1]; }
        if k > |a| { assert s[k] == b[k - |a| - 1] && s[k + 1] == b[k - |a|]; }
      }
    }
  }

  lemma PlainIsUnbroken(s: seq<byte>)
    requires NoBreaks(s)
    ensures Unbroken(s)
  {
  }

  lemma NamedIsUnbroken(line: Line)
    ensures Unbroken(line.Octets()) <==> Unbroken(line.value)
  {
    NamesAreCharacters(line.property);
    PlainIsUnbroken(Ascii(line.property.Name()));
    ApartUnbroken(Ascii(line.property.Name()), TokenMessage.COLON, line.value);
  }

  lemma UnbrokenOctets(lines: seq<Line>)
    ensures AllUnbroken(OctetsOf(lines)) <==> UnbrokenValues(lines)
  {
    forall k | 0 <= k < |lines| ensures Unbroken(OctetsOf(lines)[k]) <==> Unbroken(lines[k].value) {
      NamedIsUnbroken(lines[k]);
    }
  }

  lemma UnbrokenParts(a: seq<Line>, b: seq<Line>)
    ensures UnbrokenValues(a + b) <==> UnbrokenValues(a) && UnbrokenValues(b)
  {
    if UnbrokenValues(a + b) {
      forall k | 0 <= k < |a| ensures Unbroken(a[k].value) { assert (a + b)[k] == a[k]; }
      forall k | 0 <= k < |b| ensures Unbroken(b[k].value) {
        var at := |a| + k;
        assert (a + b)[at] == b[k];
      }
    }
  }

  lemma IdentityIsUnbroken(style: Style, e: Event)
    requires PlainStamps(style)
    ensures UnbrokenValues(IdentityLines(style, e)) <==> Unbroken(e.id) && Unbroken(style.domain)
  {
    var lines := IdentityLines(style, e);
    ApartUnbroken(e.id, AT, style.domain);
    if e.sequence >= 0 { DigitsAreText(e.sequence); }
    PlainIsUnbroken(Ascii("VEVENT"));
    PlainIsUnbroken(Ascii(if e.cancelled then "CANCELLED" else "CONFIRMED"));
    assert UnbrokenValues(lines) ==> Unbroken(lines[1].value);
  }

  lemma PointIsUnbroken(style: Style, e: Event)
    ensures UnbrokenValues(PointLines(style, e)) <==>
            (style.detailed && e.latitude != [] && e.longitude != [] ==> Unbroken(e.latitude) && Unbroken(e.longitude))
  {
    ApartUnbroken(e.latitude, SEMICOLON, e.longitude);
    var lines := PointLines(style, e);
    assert lines != [] ==> lines[0].value == e.latitude + [SEMICOLON] + e.longitude;
  }

  lemma FivePartsUnbroken(a: seq<Line>, b: seq<Line>, c: seq<Line>, d: seq<Line>, e: seq<Line>)
    ensures UnbrokenValues(a + b + c + d + e) <==>
            UnbrokenValues(a) && UnbrokenValues(b) && UnbrokenValues(c) && UnbrokenValues(d) && UnbrokenValues(e)
  {
    UnbrokenParts(a, b);
    UnbrokenParts(a + b, c);
    UnbrokenParts(a + b + c, d);
    UnbrokenParts(a + b + c + d, e);
  }

  lemma TextsAreUnbroken(style: Style, e: Event)
    ensures UnbrokenValues(TextLines(e)) && UnbrokenValues(AddressLines(style, e)) && UnbrokenValues(EndLines())
  {
    EscapedTextRoundTrip(e.summary);
    EscapedTextRoundTrip(e.description);
    EscapedTextRoundTrip(e.address);
    PlainIsUnbroken(Ascii("VEVENT"));
  }

  lemma EventIsUnbroken(style: Style, e: Event)
    requires PlainStamps(style)
    ensures UnbrokenValues(EventLines(style, e)) <==> UnbrokenEvent(style, e)
  {
    IdentityIsUnbroken(style, e);
    TextsAreUnbroken(style, e);
    PointIsUnbroken(style, e);
    FivePartsUnbroken(IdentityLines(style, e), TextLines(e), AddressLines(style, e), PointLines(style, e), EndLines());
  }

  lemma {:induction false} EventsAreUnbroken(events: seq<Event>, linesOf: Event -> seq<Line>)
    ensures UnbrokenValues(AllLines(events, linesOf)) <==>
            forall k {:trigger linesOf(events[k])} :: 0 <= k < |events| ==> UnbrokenValues(linesOf(events[k]))
  {
    if events != [] {
      var n := |events| - 1;
      EventsAreUnbroken(events[..n], linesOf);
      UnbrokenParts(AllLines(events[..n], linesOf), linesOf(events[n]));
      assert forall k :: 0 <= k < n ==> events[..n][k] == events[k];
    }
  }

  lemma OpeningIsUnbroken(style: Style)
    ensures UnbrokenValues(OpeningLines(style)) && UnbrokenValues(ClosingLines())
  {
    EscapedTextRoundTrip(style.name);
    PlainIsUnbroken(Ascii("VCALENDAR"));
    PlainIsUnbroken(Ascii("2.0"));
    PlainIsUnbroken(Ascii("-//HackWerk//Kalender 1.0//DE"));
    PlainIsUnbroken(Ascii("GREGORIAN"));
    PlainIsUnbroken(Ascii("PUBLISH"));
  }

  lemma FeedIsUnbroken(style: Style, events: seq<Event>)
    requires PlainStamps(style)
    ensures UnbrokenValues(FeedLines(style, events)) <==> AllUnbrokenEvents(style, events)
  {
    OpeningIsUnbroken(style);
    forall k | 0 <= k < |events|
      ensures UnbrokenValues(Printer(style)(events[k])) <==> UnbrokenEvent(style, events[k])
    {
      EventIsUnbroken(style, events[k]);
    }
    EventsAreUnbroken(events, Printer(style));
    UnbrokenParts(OpeningLines(style), AllLines(events, Printer(style)));
    UnbrokenParts(OpeningLines(style) + AllLines(events, Printer(style)), ClosingLines());
  }

  lemma LinesAreContent(lines: seq<Line>)
    ensures ContentLines(OctetsOf(lines))
  {
    forall k | 0 <= k < |lines| ensures ContentLine(OctetsOf(lines)[k]) {
      NamesAreCharacters(lines[k].property);
      assert lines[k].Octets()[0] == Octet(lines[k].property.Name()[0]);
    }
  }

  lemma LinesAreReadBack(style: Style, events: seq<Event>, lines: seq<Line>, document: seq<byte>)
    requires PlainStamps(style) && lines == FeedLines(style, events) && Prints(document, lines)
    ensures SplitLines(Unfold(document)) == OctetsOf(lines) <==> AllUnbrokenEvents(style, events)
  {
    LinesAreContent(lines);
    DocumentIsReadBack(OctetsOf(lines), document);
    UnbrokenOctets(lines);
    FeedIsUnbroken(style, events);
  }

  /** A subscriber that unfolds and splits the feed finds exactly its lines, if and only if no identifier, no shown
      coordinate and, where there are events, not the domain holds a line break; texts may hold anything. Then under each
      name stand the header's value and those of the events, in order, and the texts can be unescaped. */
  lemma FeedIsReadBack(style: Style, events: seq<Event>, document: seq<byte>)
    requires PlainStamps(style) && Prints(document, FeedLines(style, events))
    ensures SplitLines(Unfold(document)) == OctetsOf(FeedLines(style, events)) <==> AllUnbrokenEvents(style, events)
    ensures AllUnbrokenEvents(style, events) ==>
      forall property :: Values(SplitLines(Unfold(document)), property) == FeedValues(style, events, property)
    ensures AllUnbrokenEvents(style, events) ==>
      forall property :: IsTextProperty(property) ==>
        Unescaped(Values(SplitLines(Unfold(document)), property)) == TextsOf(style, events, property)
  {
    LinesAreReadBack(style, events, FeedLines(style, events), document);
    forall property ensures Values(OctetsOf(FeedLines(style, events)), property) == FeedValues(style, events, property) {
      FeedHolds(style, events, property);
    }
    forall property | IsTextProperty(property)
      ensures Unescaped(FeedValues(style, events, property)) == TextsOf(style, events, property)
    {
      FeedTextsAreRestored(style, events, property);
    }
  }

  lemma {:induction false} NoEventValues(style: Style, events: seq<Event>, property: Property)
    requires property in {Version, ProductId, CalendarScale, Method, CalendarName}
    ensures EventValues(style, events, property) == []
  {
    if events != [] { NoEventValues(style, events[..|events| - 1], property); }
  }

  /** The calendar's name can be unescaped as well. */
  lemma CalendarNameIsReadBack(style: Style, events: seq<Event>)
    ensures Unescaped(FeedValues(style, events, CalendarName)) == [Some(Normalise(style.name))]
  {
    EscapedTextRoundTrip(style.name);
    NoEventValues(style, events, CalendarName);
  }
}
