# Verified models of HackPlan's algorithms

HackPlan plans drivers, machines and routes for a wood-chipping service. This project models the algorithms of its
server that carry the most state, branching and arithmetic, and proves what they promise. To verify:
`dafny verify dfyconfig.toml`.

- **Availability.** Weekly rules and dated exceptions become ordered layers over a range of time. A boundary sweep with
  a lazily cleaned heap finds the layer that wins at each instant. `Painting` proves the sweep against the pointwise
  meaning, `Merging` proves that a merged result has one form only and that the sweep refines the plain overlay,
  `Availability` says what a resolution has to answer, and `Resolving` connects the two. `Calendar` treats local clock
  times that are skipped or repeated, and `Density` the bound on exceptions over whole runs.
- **Audio containers.** `Vint`, `Lacing`, `LacingSplit` and `EbmlWalk` read EBML integers, laced blocks and element
  trees (section 4 of RFC 8794, section 10.3 of RFC 9559); `OggCrc`, `OggPackets` and `OggStream` read Ogg Opus streams
  (section 6 of RFC 3533), and `OggEncoding` tells from the writing side which files they accept; `Mp4Boxes`,
  `Mp4Timing` and `Mp4Fragments` walk MP4 boxes and add up sample times, and `Mp4Encoding` tells which boxes they accept. Encoders are ghost functions, and the readers
  are proved to invert them. `ItemBudgets` is the counter all of them share.
- **Routes and suggestions.** `RouteSelection`, `RouteOrder` and `RouteTimetable` choose, order and schedule the stops
  of a route; `Feasibility`, `Suggestions`, `SuggestionSearch` and `Shortlist` search for appointment suggestions;
  `Clusters` hints at jobs that lie close together.
- **Printers.** `IcsText`, `IcsFolding` and `IcsCalendar` print calendar feeds (sections 3.1 and 3.3.11 of RFC 5545), and
  `IcsReading` reads them back as a subscriber does; `TokenMessage` shows that the message behind a confirmation token can be parsed.
- **Limits and intervals.** `RateLimiter` is a rate limiter over whole traces, `FreeCapacity` the exact complement of a
  day's bookings.

`Options`, `Ordering`, `Arithmetic`, `Durations` and `Bytes` hold what the modules share. Instants are integers in
nanoseconds, local dates are day numbers, octets are integers below 256, and Go's `int`, `int64` and `uint64` limits
appear where the code checks them.

Some results are about inputs for which the code does not do what its name suggests. The EBML lacing of a single frame is
not read back, because the splitter reads a first size although none is written for the only frame; for two frames or
more it is (`LacingSplit.EbmlIsInvertedFromTwoFrames`). Folding does not end for a line in which a character start behind
the first octet is followed by 74 continuation octets and more; for every other line it does
(`IcsFolding.FoldedExactlyWhenFoldable`). A line break in an identifier, the domain or a coordinate breaks the lines of a
feed; nothing else does (`IcsReading.FeedIsReadBack`).

## Model

| member | source | states |
|---|---|---|
| `LayerHeaps.LayerHeap.Push` | internal/driver/driver.go:861-867 | The heap keeps its order and gains just the pushed layer index. |
| `LayerHeaps.LayerHeap.Pop` | internal/driver/driver.go:868-873 | The heap keeps its order, and what leaves it is its root, nothing else. |
| `LayerHeaps.RootIsGreatest` | internal/driver/driver.go:861-865 | The root of the heap is the greatest layer index on it. |
| `Painting.Boundaries` | internal/driver/driver.go:811-824 | The boundaries are exactly the end points of base and layers, in strictly increasing order. |
| `Painting.SegmentHasOneWinner` | internal/driver/driver.go:829-857 | Between neighbouring boundaries one layer wins throughout. |
| `Painting.TopWins` | internal/driver/driver.go:840-848 | Once the top of the heap has not expired it is the highest layer covering the instant, whatever expired layers lie below it. |
| `Painting.Advance` | internal/driver/driver.go:835-848 | After pushing the started layers and cleaning the top, the winner read off is the highest covering layer. |
| `Painting.Paint` | internal/driver/driver.go:806-859 | For every base and every list of layers inside it: a gapless partition of exactly the base, each piece won throughout by the highest-index covering layer and carrying its label, neighbours with different winners. |
| `Merging.PaintingIsUnique` | internal/driver/driver.go:801-859 | Only one list of pieces is such a partition, so the contract of the sweep fixes its result. |
| `Merging.PaintingSays` | internal/driver/driver.go:801-859 | At every instant of the base the painting says the label of the last layer covering it, or the base's. |
| `Merging.Merge` | internal/driver/driver.go:885-902 | Merging says the same at every instant as what it is given, and leaves no touching pieces with equal labels. |
| `Merging.CanonicalFormIsUnique` | internal/driver/driver.go:884-902 | A merged tiling is determined by its range and by what it says at each instant. |
| `Merging.SweepRefinesOverlay` | internal/driver/resolve_paint_test.go:14-52 | The boundary sweep and the plain method that overlays one layer after the other merge to the same intervals, for all inputs. |
| `Availability.ExplanationIsUnique` | internal/driver/driver.go:671-758 | What a resolution has to say at an instant (top-priority covering exception, else last covering rule, else unavailable) is one label; ties of rank with equal identifiers can only change reason and note, never the status. |
| `Availability.ExplanationIsToldByKind` | internal/driver/driver.go:671-758 | What has to be said at an instant, told by the kinds of the covering exceptions that count and with the labels written out: the first kind in force of sick, vacation, short notice, other absence and extra availability, and of that kind the largest identifier; without any, the last rule that covers the instant. |
| `Availability.AppliedOrder` | internal/driver/driver.go:724-730 | Ordering exceptions by priority and then by identifier is a total order, so sorting by it is well defined. |
| `Availability.WeekdaysFollow` | internal/driver/driver.go:908-913 | Weekdays run from 1 to 7 and follow each other, and 5 January 1970, day number 4, is a Monday. |
| `Resolving.ClippingKeepsLabels` | internal/driver/driver.go:794-799 | Clipping layers to the range and dropping empty ones changes no label inside the range. |
| `Resolving.Resolve` | internal/driver/driver.go:674-758 | End to end: succeeds exactly when every rule and exception that counts can be placed, blames one that cannot otherwise, and then tiles the range with no touching equal labels. At each instant a sick note that covers it is shown before a vacation, then a short-notice absence, any other absence and an extra availability, of one kind the one with the largest identifier; else the last covering rule of the weekday, else unavailable. |
| `Resolving.ResolutionIsToldByKind` | internal/driver/driver.go:674-758 | Every interval of a resolution shows, at each of its instants, the kind in force there. |
| `Resolving.LabelExplained` | internal/driver/driver.go:674-758 | The label of the highest layer is the one that priorities of exceptions and the order of rules call for. |
| `Resolving.AvailabilityStatus` | internal/driver/driver.go:480-496 | Unavailable exactly when some interval is, available exactly when all are, and each reason once in order of first appearance. |
| `Resolving.StatusOfRange` | internal/driver/driver.go:480-496 | Asking the resolved intervals is the same as asking every instant of the range. |
| `Resolving.EvaluateAvailability` | internal/driver/driver.go:467-478 | The verdict over a range: available exactly when every instant is, unavailable exactly when some instant is; the reasons are those of the resolved intervals in order of first appearance, each once, each explaining some instant, and with distinct identifiers all that do; refused exactly for a missing zone, a range that is empty or longer than 90 days, or an entry that cannot be placed. |
| `Density.DensityWindow` | internal/driver/driver.go:551-571 | The window is defined exactly for nonempty entries, and its local dates select the same rows as its instants. |
| `Density.WindowIsWider` | internal/driver/driver.go:551-571 | The window is wider than the entry by 90 days of 24 hours before and after. |
| `Density.EntryCoversItsDay` | internal/driver/driver.go:551-571 | An entry for a whole day covers just the instants whose local date is that day. |
| `Density.RangeInsideWindow` | internal/driver/driver.go:546-571 | Every resolvable range that meets an exception lies inside that exception's window. |
| `Density.AdmissionKeepsBound` | internal/adapters/postgres/driver_store.go:433-458 | Storing an admitted exception keeps every resolvable range at no more than 1000 exceptions. |
| `Density.EveryRunIsBounded` | internal/driver/driver.go:17-23 | In every run of inserts, updates, deletes and batch inserts no range of up to 90 days ever meets more than 1000 exceptions. |
| `Density.MarginIsTight` | internal/driver/driver.go:546-571 | A margin shorter than the longest range by more than a nanosecond would miss an exception that shares a resolvable range. |
| `Density.ExceptionTable.Create` | internal/adapters/postgres/driver_store.go:320-342 | Stores exactly the admitted entries; the table steps as the abstract run does. |
| `Density.ExceptionTable.Update` | internal/adapters/postgres/driver_store.go:367-398 | Replaces exactly the admitted entries, not counting the entry against itself. |
| `Density.ExceptionTable.CreateAll` | internal/adapters/postgres/driver_store.go:344-365 | Stores all entries of a batch or, when one is not admitted, none. |
| `Density.ExceptionTable.EnforceDensity` | internal/adapters/postgres/driver_store.go:433-458 | Admits an entry exactly when fewer than 1000 other rows match its window. |
| `Calendar.StrictLocal` | internal/driver/driver.go:760-781 | Returns an instant exactly when it is the only one whose local clock shows the requested minute; nothing on gaps and repeated times. |
| `Calendar.ParseLocalDateTime` | internal/driver/driver.go:592-619 | The same for a parsed date and time, with separate errors for malformed input and for gaps or repeats. |
| `Calendar.NoOnlyInstantMeansGapOrRepeat` | internal/driver/driver.go:590-619 | With offsets of one or two hours a clock time has no single instant exactly when the offset an hour before it is one hour just if the offset two hours before it is two: both, and it is shown twice, or neither, and it is never shown; otherwise that instant is the one shown. |
| `Calendar.SearchSettles` | internal/driver/driver.go:600-614 | Instants found at the candidate and an hour either way are all that show the clock time, so exactly one found means the only one there is. |
| `ItemBudgets.ItemBudget.Consume` | internal/web/audio_duration.go:21-27 | The shared counter grows by one or refuses, and never passes 250000. |
| `Vint.ReadVariable` | internal/web/audio_duration.go:373-395 | Reads exactly the variable-length integer that stands at an offset, and nothing exactly where none of the allowed widths does. |
| `Vint.VintStandsAtItsStart` | internal/web/audio_duration.go:373-395 | Every value written in any width from 1 to 8 stands where it was written, whatever surrounds it. |
| `Vint.VintIsUnique` | internal/web/audio_duration.go:373-395 | At most one integer, of one width, starts at an offset. |
| `Vint.EveryMarkedRunIsVint` | internal/web/audio_duration.go:373-395 | Any octets with a marker bit in the first one are the encoding of some value. |
| `LacingSplit.Split` | internal/web/audio_duration.go:904-993 | For every payload and every lacing, accepted frames are exactly those that were laced into it: number, sizes and content, with the size table and its signed differences read back. |
| `LacingSplit.XiphIsInverted` | internal/web/audio_duration.go:917-931 | Up to 256 nonempty frames survive Xiph lacing and splitting. |
| `LacingSplit.EbmlIsInvertedFromTwoFrames` | internal/web/audio_duration.go:939-992 | Frames survive EBML lacing and splitting exactly when there are at least two of them. |
| `LacingSplit.SingleEbmlFrameIsCut` | internal/web/audio_duration.go:939-946 | A single EBML-laced frame comes back without its first octet: a first size is read although none is written for the only frame. |
| `Lacing.BiasIsBalanced` | internal/web/audio_duration.go:950-969 | The shift of a signed difference leaves as many values below zero as above, and uses every value of the width but the one kept for an unknown size. |
| `Lacing.TablesAgree` | internal/web/audio_duration.go:917-969 | A payload starts with no two size tables that disagree. |
| `Lacing.CutFrames` | internal/web/audio_duration.go:980-992 | Frames are cut at the given sizes exactly when none is zero and together they use up the payload. |
| `EbmlWalk.ReadHead` | internal/web/audio_duration.go:576-583 | Finds the ID and the size at an offset exactly when both stand there before the limit. |
| `EbmlWalk.ReadElement` | internal/web/audio_duration.go:346-371 | The element returned is the one that stands at the offset inside its parent; none is returned only where none stands or the budget is spent. |
| `EbmlWalk.ElementIsUnique` | internal/web/audio_duration.go:346-371 | At most one element starts at an offset. |
| `EbmlWalk.TilingIsUnique` | internal/web/audio_duration.go:718-782 | A parent's children are determined by its octets. |
| `EbmlWalk.ReadSegmentElement` | internal/web/audio_duration.go:575-609 | Returns what stands at the offset of a segment, an element of known size or a cluster of unknown size that ends at the next level-one ID or the segment's end, and does so exactly when such an element stands there and takes no more items than are left: one, and one more for each child of an open cluster. |
| `EbmlWalk.ExtentIsUnique` | internal/web/audio_duration.go:590-608 | A cluster of unknown size ends in one place only. |
| `EbmlWalk.ClusterTime` | internal/web/audio_duration.go:725-748 | The children tile the cluster, one of them alone is the time code, and this is its value; fails exactly when no children do so or when they are more than the items left. |
| `EbmlWalk.SegmentWalk` | internal/web/audio_duration.go:459-568 | Reaches the end exactly when elements tile the segment that take no more items than are left, all of them together; the counter grows by just those items. |
| `EbmlWalk.SegmentTilingIsUnique` | internal/web/audio_duration.go:459-568 | Two walks over a segment see the same elements and take as many items. |
| `OggCrc.BuildTable` | internal/web/audio_duration.go:283-297 | Every entry of the table is the remainder of its octet, bit by bit. |
| `OggCrc.OctetIsOneLookUp` | internal/web/audio_duration.go:299-308 | Dividing by eight bits one at a time is one shift and one table look-up. |
| `OggCrc.CalculateChecksum` | internal/web/audio_duration.go:299-308 | For pages of any length the table-driven checksum is the bit-by-bit remainder of the page with octets 22 to 25 taken as zero. |
| `OggCrc.ValidChecksum` | internal/web/audio_duration.go:275-281 | A page is valid exactly when the checksum in it is the remainder of the rest. |
| `OggCrc.StampedPageValidates` | internal/web/audio_duration.go:275-308 | Any page stamped with its own checksum validates, and stamping touches nothing else. |
| `OggCrc.GeneratorIsTheProgramsNumber` | internal/web/audio_duration.go:283-297 | The generator polynomial is the number 0x04c11db7. |
| `OggCrc.BurstIsDetected` | internal/web/audio_duration.go:299-308 | Two messages that differ within 32 consecutive bits have different remainders. |
| `OggCrc.ChangedPageIsRejected` | internal/web/audio_duration.go:275-308 | A valid page changed within any four neighbouring octets outside the checksum is no longer valid. |
| `OggPackets.AssembleConcat` | internal/web/audio_duration.go:213-253 | Cutting segments into packets page by page gives what cutting them all at once gives. |
| `OggPackets.PacketsAreRecovered` | internal/web/audio_duration.go:213-253 | Packets written as lacing segments come back, whatever their lengths. |
| `OggPackets.SegmentsAreThoseOfPackets` | internal/web/audio_duration.go:213-253 | Segments of a stream that leaves no packet open are those of exactly one list of packets. |
| `OggPackets.OpusSamples` | internal/web/audio_duration.go:310-338 | An accepted Opus packet lasts more than nothing and at most 120 ms at 48 kHz; what it measures is told by `OggPackets.WrittenPacketIsMeasured`. |
| `OggPackets.WrittenPacketIsMeasured` | internal/web/audio_duration.go:310-338 | A packet written with frames of 2.5, 5, 10, 20, 40 or 60 ms, in any of the 32 codings and any of the four framings, has 48 samples for each millisecond times its frames, and is refused exactly when that passes 120 ms or there is no frame. |
| `OggPackets.EveryPacketIsWritten` | internal/web/audio_duration.go:310-338 | Every nonempty packet but one of a single octet that announces a second is written in one of these ways, so nothing else is measured. |
| `OggPackets.CutPacketIsRefused` | internal/web/audio_duration.go:310-331 | An empty packet, and one of a single octet that announces a second, are refused. |
| `OggPackets.AcceptedPackets` | internal/web/audio_duration.go:224-252 | Accepted packets begin with the text OpusHead, then with the text OpusTags, then are audio; the samples to skip are the two octets at 10 of the head, and those counted are exactly the sum over the audio packets. |
| `OggPackets.TakenPackets` | internal/web/audio_duration.go:224-252 | The codec stage takes a list of packets exactly when it is a head, one tags packet and decodable audio that is not tags again and whose samples can be counted in 64 bits, or a beginning of such a list. |
| `OggPackets.WrittenPacketsAreMeasured` | internal/web/audio_duration.go:224-252 | The samples of a list of written packets are 48 for each millisecond of sound in all of them. |
| `OggStream.ReadPage` | internal/web/audio_duration.go:185-202 | Reads exactly the pages that stand at an offset. |
| `OggStream.PageIsMarked` | internal/web/audio_duration.go:185 | A page begins with the text OggS and version zero. |
| `OggStream.ProcessPage` | internal/web/audio_duration.go:213-253 | A page's segments complete packets, hand them on in order and carry the open one over; fails exactly over the budget or at a refused packet. |
| `OggStream.OggSamples` | internal/web/audio_duration.go:167-273 | The number of samples of a file, exactly for the files that are one accepted stream: pages that tile the file, one serial, sequence numbers from 0, one beginning, one end, no packet left open. |
| `OggStream.LengthMeans` | internal/web/audio_duration.go:261-272 | The length is accepted exactly when head, tags and audio were there and both declared and decoded samples exceed those to skip; with the skipped ones it is the larger of the two. |
| `OggStream.FinalGranuleIsLast` | internal/web/audio_duration.go:255-257 | The declared length is the position of the last page whose position is not eight octets of ones. |
| `OggStream.AcceptedStream` | internal/web/audio_duration.go:167-273 | The packets of an accepted file are the only ones with its segments, and its length is the larger of declared and decoded samples, less those to skip. |
| `OggEncoding.EncodedPageIsRead` | internal/web/audio_duration.go:185-202 | Every page written out is read back with all its fields and segments. |
| `OggEncoding.FlagsAreRead` | internal/web/audio_duration.go:202-211 | A page is the first or the last of its stream just as the second and the third bit of its type say, whatever the other bits hold. |
| `OggEncoding.PageIsEncoded` | internal/web/audio_duration.go:185-202 | Conversely a page that is read is the one that was written there, octet by octet. |
| `OggEncoding.AcceptedFilesAreEncodings` | internal/web/audio_duration.go:167-273 | The files that are accepted are exactly the whole streams of pages written one after the other that stay within the budget, leave no packet open and whose packets the codec stage takes; the samples are those of the packets and the last granule position. |
| `OggEncoding.AcceptedOnce` | internal/web/audio_duration.go:167-273 | A file holds one list of pages and has at most one number of samples. |
| `OggEncoding.PagedPacketsAreAccepted` | internal/web/audio_duration.go:167-273 | Packets written in any pages of one stream are accepted exactly when the codec stage takes them and the pages stay within the budget, with the number of samples these packets and the last granule position have. |
| `OggEncoding.PageBreaksDoNotMatter` | internal/web/audio_duration.go:167-273 | Two layouts of the same packets in pages, within the budget and with one final granule position, give files that are both accepted with the same number of samples or both refused. |
| `OggEncoding.EveryCutIsPaging` | internal/web/audio_duration.go:185-213 | However the segments of packets are cut into runs of fewer than 256, the runs make the pages of one stream. |
| `Mp4Boxes.ReadBoxes` | internal/web/audio_duration.go:1001-1037 | The boxes returned tile the range, one item each, and they are returned exactly when such a tiling exists and the budget suffices. |
| `Mp4Boxes.TilingIsUnique` | internal/web/audio_duration.go:1001-1037 | A range is tiled by boxes in at most one way. |
| `Mp4Boxes.EveryOctetIsInABox` | internal/web/audio_duration.go:1001-1037 | Every octet of a tiled range belongs to a box. |
| `Mp4Boxes.EncodedBoxIsRead` | internal/web/audio_duration.go:1010-1033 | A box written with a 32-bit size is read where it stands, with its payload. |
| `Mp4Encoding.LargeBoxIsRead` | internal/web/audio_duration.go:1018-1023 | A box written with a 64-bit size is read where it stands, with its payload. |
| `Mp4Encoding.OpenBoxIsRead` | internal/web/audio_duration.go:1024-1025 | A box written with size zero is read up to the end. |
| `Mp4Encoding.BoxIsEncoded` | internal/web/audio_duration.go:1010-1033 | Every box that is read was written in one of the three ways, an open one at the end of its parent. |
| `Mp4Timing.CheckedAdd` | internal/web/audio_duration.go:82-87 | The sum, or an error exactly when it passes 2^64 - 1. |
| `Mp4Timing.CheckedMultiply` | internal/web/audio_duration.go:89-94 | The product, or an error exactly when it passes 2^64 - 1. |
| `Mp4Timing.TimingDuration` | internal/web/audio_duration.go:1232-1252 | For a well-formed table within the budget, the exact sum of samples times delta; an error exactly when it is malformed, over the budget, or the sum passes 2^64 - 1. |
| `Mp4Timing.EncodedTableIsRead` | internal/web/audio_duration.go:1232-1252 | A written timing table gives back just the products that were written. |
| `Mp4Encoding.TableIsEncoded` | internal/web/audio_duration.go:1232-1252 | Every timing table that is accepted is a written one. |
| `Mp4Timing.RunDuration` | internal/web/audio_duration.go:1387-1436 | The exact length of a run, exactly for well-formed runs within the budget in which no sample takes no time and which stay within the maximum. |
| `Mp4Encoding.EncodedRunIsRead` | internal/web/audio_duration.go:1387-1436 | A run written with any of its optional fields is well formed, and each sample takes the time written for it, or the default where none is written. |
| `Mp4Encoding.RunIsEncoded` | internal/web/audio_duration.go:1387-1436 | Every run that is accepted is a written one, so the flags and sizes allowed are exactly those of the format. |
| `Mp4Fragments.SumRuns` | internal/web/audio_duration.go:1363-1384 | The running total stays within the maximum over all runs, so what is left never underflows, and the result is the exact sum; an error exactly when there is no run or one does not fit. |
| `Mp4Encoding.EncodedHeaderIsRead` | internal/web/audio_duration.go:1304-1340 | A track header written with any of its optional fields is accepted for its track, and its emptiness and its default sample time are read back, zero where none is written. |
| `Mp4Encoding.HeaderIsEncoded` | internal/web/audio_duration.go:1304-1340 | Every track header that is accepted is a written one. |
| `Mp4Encoding.EncodedTimeIsRead` | internal/web/audio_duration.go:1341-1362 | A base time written in 32 or in 64 bits is read back. |
| `Mp4Encoding.TimeIsEncoded` | internal/web/audio_duration.go:1341-1362 | Every base time that is accepted is a written one. |
| `Mp4Fragments.InspectTrackFragment` | internal/web/audio_duration.go:1280-1385 | A result exactly when the boxes tile the fragment, the two headers occur once and are sound, and the runs fit: base time plus the exact sum, never above the maximum; passed over exactly when the one sound header names another track and no time box is repeated. |
| `RouteSelection.ValidateJobIds` | internal/planning/route.go:481-506 | Accepts exactly between one and the allowed number of distinct nonempty identifiers. |
| `RouteTimetable.PlacesOnTheGlobe` | internal/planning/planning.go:29-32 | A point is valid exactly when it is at most 90 degrees from the equator and 180 from the meridian and not where these cross. |
| `RouteSelection.OrderCandidates` | internal/planning/route.go:729-753 | Looks every identifier up among distinct usable candidates, in order; a validation error exactly when the first candidate that cannot be filed is unusable, and a conflict in every other case that fails. |
| `RouteSelection.OrderStops` | internal/planning/route.go:755-784 | The same for stops of an assigned route, each asked for once. |
| `RouteSelection.OrderIsPermutation` | internal/planning/route.go:729-753 | The order is a rearrangement of the candidates exactly when no identifier is asked for twice. |
| `RouteSelection.PlanOrder` | internal/planning/route.go:298-352 | From the request to the order of the stops: succeeds exactly for valid identifiers, matching usable candidates and, when optimizing, a solvable problem; the result is exactly the requested jobs, pinned ones where they were requested, and when optimizing a best tour. |
| `RouteOrder.FreeCandidates` | internal/planning/route.go:522-542 | Free candidates are those not pinned; pins are refused exactly when one is empty, repeated or unknown. |
| `RouteOrder.ValidateMatrix` | internal/planning/route.go:786-798 | Accepts exactly a named square matrix of the size asked for without negative cells. |
| `RouteOrder.BuildOrder` | internal/planning/route.go:558-594 | Pinned stops keep their index, the first free position takes the seed, each further one the nearest remaining stop by duration, distance and identifier; the list of remaining stops is never empty when taken from. |
| `Ordering.StringLeMeans` | internal/planning/planning.go:505-508 | Identifiers are ordered by their first difference, and a beginning comes before what it begins. |
| `Ordering.JoinedPartsAreFound` | internal/planning/route.go:627-631 | Joined identifiers are found again as long as none of them holds the separator, so different lists have different keys. |
| `RouteOrder.TourTakesNearest` | internal/planning/route.go:558-594 | Told from the matrix itself: the first position that is not pinned takes the seed, every further one a stop that no stop still to be driven is reached before, by time, then distance, then identifier. |
| `RouteOrder.GreedyTourIsUnique` | internal/planning/route.go:558-594 | With distinct identifiers a seed has one such tour. |
| `RouteOrder.TourVisitsEachOnce` | internal/planning/route.go:558-594 | A tour is a rearrangement of the candidates with pinned ones in place. |
| `RouteOrder.Measure` | internal/planning/route.go:610-626 | The exact totals of a path, refused exactly when a total passes the largest int64. |
| `RouteOrder.BestTour` | internal/planning/route.go:596-641 | The tour kept ranks no later than any greedy tour from any seed by travel time, distance and joined identifiers, the way from the start and the way to the end included; fails exactly when some seed's tour overflows. |
| `RouteOrder.Optimize` | internal/planning/route.go:522-641 | Succeeds exactly for valid pins, a valid matrix and tours that fit 64 bits, and returns a permutation of the candidates with pinned ones in place that takes no longer than any tour from any seed: leg by leg from the start to each stop and, unless the route ends at its last stop, on to the end; of equal time the shortest, of equal length the first by joined identifiers. |
| `RouteTimetable.ReservationDuration` | internal/planning/route.go:715-727 | The least whole number of minutes that covers a duration, refused exactly when negative or beyond 64 bits. |
| `RouteTimetable.MinutesAreUnique` | internal/planning/route.go:715-727 | Only one number of whole minutes is the least that covers a duration. |
| `RouteTimetable.MinutesFor` | internal/planning/route.go:715-727 | No smaller number of whole minutes covers the duration. |
| `RouteTimetable.ValidateDirections` | internal/planning/route.go:800-815 | Accepts exactly named directions with a line of two valid points or more, a leg between each two points and nothing negative. |
| `RouteTimetable.RouteDraft.Schedule` | internal/planning/route.go:685-703 | Each stop is reached a rounded travel time after the previous one is left; refused exactly when a rounded time does not fit; jobs stay as they were. |
| `RouteTimetable.RouteDraft.CalculateDirections` | internal/planning/route.go:667-713 | Succeeds exactly for valid directions whose times fit; sets every arrival and the end, leaves agreed appointments alone when asked to, and never touches the jobs. |
| `RouteTimetable.StopsDoNotOverlap` | internal/planning/route.go:686-703 | Newly scheduled stops never overlap, arrivals increase, and the gap between two stops is the rounded travel time. |
| `RouteTimetable.EndCountsEverything` | internal/planning/route.go:704-711 | The estimated end is departure plus all work plus all rounded travel, the way back included. |
| `RouteTimetable.MoveDraftStop` | internal/planning/route.go:181-236 | Moves a stop exactly when input and versions are right, the stop can be moved and both drafts can be driven afterwards, and refuses as the code does; then both drafts are the timetables of the shortened and the lengthened list, jobs are conserved over both, positions are renumbered from 1, the source is not empty and the target within its limit. |
| `RouteTimetable.MovedJobsAreKept` | internal/planning/route.go:204-205 | Taking an element out of one list and appending it to the other conserves both together. |
| `Feasibility.Neighbours` | internal/planning/planning.go:588-601 | The reservations found are the same day's last to end before and first to start after the slot, the earliest listed of several. |
| `Feasibility.TravelFeasible` | internal/planning/planning.go:584-619 | Feasible exactly when the known travel times to both neighbours fit the gaps. |
| `Suggestions.SelectResourceChoices` | internal/planning/planning.go:519-564 | The choices tried are exactly those the job may be given, in order of kind and identifier. |
| `Suggestions.ChoicesAreComplete` | internal/planning/planning.go:539-562 | Every permitted chipper, or chipper and vehicle, is tried, and nothing else. |
| `SuggestionSearch.SearchHorizon` | internal/planning/planning.go:457-488 | The candidates checked are a beginning of all of them in order, by start, driver and choice: up to the first place at or behind the limit where a candidate is feasible or a driver's last choice was tried, or all of them; those found are exactly the feasible ones among them. |
| `SuggestionSearch.SearchIsUnique` | internal/planning/planning.go:457-488 | Which candidates are checked and found is settled: two searches of this kind are the same. |
| `SuggestionSearch.Validate` | internal/planning/planning.go:112-126 | Accepts exactly opening hours within a day, slots that divide the hour, and a horizon, a buffer and a limit within their bounds. |
| `SuggestionSearch.SlotsPerDayFit` | internal/planning/planning.go:465 | A slot is among the day's slots exactly when the job ends by closing time. |
| `SuggestionSearch.FoundIsSound` | internal/planning/planning.go:460-482 | Everything found starts no earlier than now in a weekday slot that ends by closing time, lies within one interval in which its driver is available, meets no reservation of the driver or of one of the resources, and leaves time to travel. |
| `SuggestionSearch.CollectPoints` | internal/planning/planning.go:432-450 | The points are the job's place and the default start, as far as known, and then as many reservations with a known place, in order, as make 25 in all; every one of them is indexed at its own place, the last one of each name. |
| `SuggestionSearch.Generate` | internal/planning/planning.go:423-515 | Refused exactly for invalid requests; otherwise, with the travel times the router answered for exactly the points collected, or none where it is not asked or does not answer, the best three at most of what the search found, by score, preference, travel, start, driver and resources, every entry sound; or no capacity when nothing was found. |
| `Shortlist.NoWorseOrder` | internal/planning/planning.go:492-509 | The ranking by score, preference, travel, start, driver and resources is a total order. |
| `Shortlist.NoWorseComesFirst` | internal/planning/planning.go:492-509 | Told on the figures: what comes first has the higher score, then the higher preference, then less travel, then the earlier start, then the smaller driver and resources. |
| `Shortlist.Deduplicate` | internal/planning/planning.go:720-734 | Keeps exactly those values that come while there is room and clash with no earlier kept one. |
| `Shortlist.LeftOutIsJustified` | internal/planning/planning.go:720-734 | Whatever is left out clashes with a kept one that is no worse, or the list is full of ones that are no worse. |
| `Shortlist.RankAndShorten` | internal/planning/planning.go:492-513 | At most three, each before the next by higher score, then preference, less travel, earlier start and names; no two for one driver less than two hours apart; nothing found comes before rank 1, and what is left out is too close to one that comes before it or behind three others. |
| `Clusters.FindClusters` | internal/planning/planning.go:330-371 | The hints are those found by trying the entries in order of their job as seeds: each a seed with all that are near it and were left by the ones before, enough of them; larger ones first, equally large ones by their jobs, and no job is in two. |
| `Clusters.ClusteringIsUnique` | internal/planning/planning.go:330-371 | For entries in a given order there is one such list of clusters, regions included. |
| `Clusters.ClusteringIsComplete` | internal/planning/planning.go:330-371 | Each cluster holds everything near its seed that earlier ones left, and around each job in no cluster too few are left. |
| `Clusters.JoiningShrinks` | internal/planning/planning.go:340-350 | The more jobs are taken, the fewer can join a seed, so a rejected seed stays rejected. |
| `IcsText.EscapeTextMeaning` | internal/calendarfeed/ics.go:69-76 | The six replacements one after the other normalise line breaks and then escape each octet by itself. |
| `IcsText.EscapedTextRoundTrip` | internal/calendarfeed/ics.go:69-76 | Escaped text holds no CR or LF, and unescaping it restores the text with its line breaks normalised. |
| `IcsText.ValidUtf8HasShortRuns` | internal/calendarfeed/ics.go:81-83 | In valid UTF-8 no more than three continuation octets follow each other. |
| `IcsText.ValidUtf8IsEncoded` | internal/calendarfeed/ics.go:81-83 | Valid UTF-8 is the encoding of a list of characters by their numbers, surrogates excluded. |
| `IcsText.EncodedRunesAreValid` | internal/calendarfeed/ics.go:81-83 | The encoding of any list of characters is valid UTF-8. |
| `IcsFolding.FindCut` | internal/calendarfeed/ics.go:80-86 | The cut is the last start of a character within 75 octets, or 75 when there is none. |
| `IcsFolding.CutMakesProgress` | internal/calendarfeed/ics.go:79-89 | One round of folding shortens the line exactly when the cut is not right behind the first octet; where it is, the marked line comes back unchanged. |
| `IcsFolding.FoldedExactlyWhenFoldable` | internal/calendarfeed/ics.go:78-91 | A line is folded, so that the loop ends, exactly when behind its first octet no character start is followed by 74 continuation octets and then more octets. |
| `IcsFolding.SomeLineIsNeverFolded` | internal/calendarfeed/ics.go:78-91 | Two letters and 74 continuation octets are a line on which the loop does not end. |
| `IcsFolding.ShortRunsAreFoldable` | internal/calendarfeed/ics.go:78-91 | Text with no more than three continuation octets in a row, as valid UTF-8 has, can always be folded. |
| `IcsFolding.WriteLine` | internal/calendarfeed/ics.go:78-91 | For every line on which the source's loop ends: lines of at most 75 octets, each as long as it can be, that are together the content line once the marks are removed; no character of at most four octets is split, and then all lines but the last hold at least 72 octets. |
| `IcsFolding.FoldingIsUnique` | internal/calendarfeed/ics.go:79-90 | There is one way to fold a line so that every physical line takes all it can hold, so the contract of the writer fixes its output. |
| `IcsFolding.RenderedUnfolds` | internal/calendarfeed/ics.go:78-91 | Deleting every line break with its space restores the content line. |
| `IcsFolding.DocumentIsReadBack` | internal/calendarfeed/ics.go:78-91 | Unfolding and splitting a document finds exactly the content lines that were written, if and only if none of them holds a line break. |
| `IcsCalendar.ValidUtf8IsText` | internal/calendarfeed/ics.go:78-91 | Every valid UTF-8 text may be printed: it is made of whole characters of at most four octets. |
| `IcsCalendar.EscapedIsText` | internal/calendarfeed/ics.go:69-76 | Escaping keeps whole characters whole and leaves no line break. |
| `IcsCalendar.TextFeedCanPrint` | internal/calendarfeed/ics.go:12-65 | A feed whose texts are made of whole characters can always be printed. |
| `IcsCalendar.Generate` | internal/calendarfeed/ics.go:12-65 | Fails exactly at an invalid event; otherwise the document holds the feed's lines in order, and the time of change is the latest of all. |
| `IcsReading.FeedIsReadBack` | internal/calendarfeed/ics.go:12-65 | A subscriber who unfolds the feed, splits it into lines and each line at its first colon finds exactly its lines if and only if identifiers, the domain and shown coordinates hold no line break. Then under each name stand, event after event, the times of start, end, creation and change, the identifier with the domain, the sequence in decimal, CANCELLED exactly for a cancelled event, the shown coordinates, and texts that can be unescaped, whatever they hold. |
| `IcsReading.CalendarNameIsReadBack` | internal/calendarfeed/ics.go:14-19 | The calendar's name is found once, and unescaping it restores it with its line breaks normalised. |
| `IcsReading.FeedIsFramed` | internal/calendarfeed/ics.go:12-65 | The calendar begins and ends with its own lines, holds the events in order, and each begins and ends with its own lines with no other beginning or end in between. |
| `TokenMessage.Digest` | internal/notification/token.go:99-106 | What is fed to the keyed hash is the message: length, colon and value of each part in turn. |
| `TokenMessage.MessageIsParsed` | internal/notification/token.go:99-106 | A parser recovers any list of byte strings from its message. |
| `TokenMessage.MessageIsInjective` | internal/notification/token.go:99-106 | Different lists of byte strings, of any number and length, have different messages. |
| `TokenMessage.Derive` | internal/notification/token.go:63-75 | Fails exactly for an unknown key or missing parts; otherwise the material is that of the message under the key. |
| `TokenMessage.Issue` | internal/notification/token.go:55-57 | Derives under the current key. |
| `TokenMessage.IssueThenReconstruct` | internal/notification/token.go:55-61 | A token issued before new keys were added is reconstructed after. |
| `TokenMessage.TokenMessagesAreApart` | internal/notification/token.go:63-93 | Token messages coincide exactly for equal request, appointment and version, and never with that of a form nonce. |
| `TokenMessage.RawTokenIdentifies` | internal/notification/token.go:63-75 | Two raw tokens are equal exactly for the same request, appointment and version, or where the keyed hash collides on their two different messages, or the encoding on two different hashes. |
| `RateLimiter.Limiter.constructor` | internal/web/confirmation_rate.go:35-43 | Starts without windows; limits below one become 30. |
| `RateLimiter.Limiter.Allow` | internal/web/confirmation_rate.go:45-68 | Each call steps the limiter as the trace semantics does and is allowed exactly when that says so, within 65536 windows. |
| `RateLimiter.Limiter.Sweep` | internal/web/confirmation_rate.go:53-57 | Deletes exactly the windows that are a minute old. |
| `RateLimiter.MemoryIsBounded` | internal/web/confirmation_rate.go:17-19 | In every trace at most 65536 windows are held. |
| `RateLimiter.LimiterRemembers` | internal/web/confirmation_rate.go:50-66 | What is held for a client is its last window, and a window that was dropped is over. |
| `RateLimiter.WindowStartsAreApart` | internal/web/confirmation_rate.go:62-64 | Two windows a client opens are at least 60 s apart, sweeping or not. |
| `RateLimiter.WindowCountsItsCalls` | internal/web/confirmation_rate.go:59-66 | The count of a client's last window is the number of the client's calls since it started. |
| `RateLimiter.AllowedUpToTheLimit` | internal/web/confirmation_rate.go:59-67 | While there is room a call is allowed exactly when it is among the first of its window, up to the limit. |
| `RateLimiter.FewCallsAreAllowed` | internal/web/confirmation_rate.go:45-68 | While there is room, a call is allowed before which the client made fewer calls than the limit within the last minute. |
| `RateLimiter.FewClientsAreNeverRefusedForRoom` | internal/web/confirmation_rate.go:56-61 | With at most 65536 clients no call is refused for want of room. |
| `RateLimiter.NeverMoreThanTwiceTheLimit` | internal/web/confirmation_rate.go:45-68 | In no half-open minute, wherever it starts, is a client allowed more than twice the limit. |
| `RateLimiter.SweepingChangesNoDecision` | internal/web/confirmation_rate.go:51-58 | On traces that never reach the cap every decision is that of a limiter that keeps every window for ever. |
| `RateLimiter.ClientsDoNotAffectEachOther` | internal/web/confirmation_rate.go:50-67 | Such a limiter decides about a client from that client's own calls. |
| `FreeCapacity.FreeSlots` | internal/dashboard/dashboard.go:305-320 | For one resource: sorted, separated, nonempty slots that are exactly the window without the bookings, however these overlap. |
| `FreeCapacity.SeparatedIsUnique` | internal/dashboard/dashboard.go:305-320 | Separated slots are determined by the instants they hold. |
| `FreeCapacity.FreeTimeIsUnique` | internal/dashboard/dashboard.go:287-320 | There is one list of free slots for a resource. |
| `FreeCapacity.ReservedIsBooked` | internal/dashboard/dashboard.go:290-296 | Clamping bookings to the window loses none of their time inside it. |
| `FreeCapacity.Measure` | internal/dashboard/dashboard.go:323-331 | The minutes are the sum over the slots, and the largest is the first of the longest ones. |
| `FreeCapacity.MinutesAreConserved` | internal/dashboard/dashboard.go:322-331 | With times on whole minutes, free minutes and minutes some booking takes add up to the window. |
| `FreeCapacity.SortedIds` | internal/dashboard/dashboard.go:297-301 | Every resource once, in order of the names. |
| `FreeCapacity.FreeCapacity` | internal/dashboard/dashboard.go:287-333 | Every resource with a booking, once and in order of names, with its last name, its exact free time, its minutes and its largest slot. |

## Left out

- Calendar: zones are any functions whose offset is one or two hours at each instant; a zone with other offsets is not modelled, and neither is Go's choice of an instant for a repeated clock time beyond its being one of the two candidates.
- Density: local days are taken to follow each other at their midnights; SQL, locking and optimistic versions are not modelled, the admission rule and the row condition are.
- Availability: dates stored as text are day numbers, or missing where the text is no date; whether instants carry the UTC location is not modelled.
- Resolving: cancellation checks inside the loops are not modelled.
- Ordering.Sort: stands for the sorting functions of Go's library by contract, a sorted rearrangement; the stability of `sort.SliceStable` is not promised, which matters only among suggestions equal in every sort key.
- LacingSplit.SingleEbmlFrameIsCut: shows one input of the failing family; the family itself is the one-frame case of `LacingSplit.EbmlIsInvertedFromTwoFrames`.
- EbmlWalk: of tracks, codecs and block headers only the walk over their elements is modelled.
- OggCrc: words are lists of 32 bits; the table is built for each page instead of once.
- OggStream: a page's payload is cut into segments when the page is read; the conversion of samples to a duration is floating point and not modelled.
- Mp4Fragments: sample descriptions, handlers and the choice of the audio track are not modelled; nothing is promised about how much of the budget a refused fragment has used.
- IcsFolding.WriteLine: demands a line that can be folded; on any other the loop of the source does not end.
- IcsCalendar.Generate: demands that all lines of the feed can be folded, also those behind an event at which the source would stop.
- IcsCalendar: summary, description and address are given as the texts they hold, trimmed and joined; instants are printed by a given function; the fixed calls that write one event are a list written in order; the ETag is not modelled.
- IcsReading.FeedIsReadBack: takes printed times to hold no line break, as the fixed format of the source gives none.
- OggEncoding: the flag of a page that continues a packet is written as zero, since the reader does not look at it.
- TokenMessage: the keyed hash, the plain hash and the text encoding are given functions.
- RateLimiter: clients are compared by key; hashing and the grouping of addresses are not modelled, and each call is one atomic step.
- FreeCapacity: durations do not saturate at Go's limit of about 292 years.
- RouteOrder.Optimize: demands distinct identifiers, as its only caller has checked; the router's answer is given.
- RouteSelection.PlanOrder: transport rules of single candidates, labels and saving are not modelled, and identifiers come trimmed.
- RouteTimetable: reading and saving drafts is not modelled; the drafts and the router's answers are given.
- SuggestionSearch: scores and preferences are any totally ordered figures given by a function, because the source computes them in floating point; weekdays and local times of day are given by functions.
- Clusters: distance is any relation between two entries.
- WAV and AAC durations, declared WebM durations, the ratio of units to seconds, HTTP handlers, templates, mail and SMS, authentication, appointments, workers and everything behind the database stores are left out: they are floating point, plumbing, or rest on what a database does.
